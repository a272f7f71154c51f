/**
 * The pandas operations the pipeline uses on its tables: column-wise `apply`
 * (Map), `dropna` on a condition (Filter), `groupby` on the topic id,
 * `nlargest`, a stable descending `sort_values`, and sorted distinct ids.
 * Sequences are defined by their last element, the way a loop that appends
 * builds them.
 */
module PyTables {

  /** `apply(f)`: f on every row, in order. */
  function Map<A, B>(xs: seq<A>, f: A -> B): (r: seq<B>)
    ensures |r| == |xs|
    ensures forall i :: 0 <= i < |xs| ==> r[i] == f(xs[i])
  {
    if xs == [] then [] else Map(xs[..|xs| - 1], f) + [f(xs[|xs| - 1])]
  }

  /** The rows that satisfy `p`, in their original order. */
  function Filter<A>(xs: seq<A>, p: A -> bool): (r: seq<A>)
    ensures |r| <= |xs|
    ensures forall i :: 0 <= i < |r| ==> p(r[i])
    ensures forall i :: 0 <= i < |r| ==> r[i] in xs
    ensures forall i :: 0 <= i < |xs| && p(xs[i]) ==> xs[i] in r
  {
    if xs == [] then []
    else
      var last := xs[|xs| - 1];
      Filter(xs[..|xs| - 1], p) + (if p(last) then [last] else [])
  }

  /** Filtering commutes with a map that `p` cannot tell apart from the identity. */
  lemma {:induction false} FilterThenMap<A, B>(xs: seq<A>, p: A -> bool, f: A -> B, q: B -> bool)
    requires forall x :: q(f(x)) == p(x)
    ensures Map(Filter(xs, p), f) == Filter(Map(xs, f), q)
  {
    if xs != [] {
      var init := xs[..|xs| - 1];
      FilterThenMap(init, p, f, q);
      assert Map(xs, f)[..|xs| - 1] == Map(init, f);
      var last := xs[|xs| - 1];
      if p(last) {
        assert Map(Filter(init, p) + [last], f) == Map(Filter(init, p), f) + [f(last)];
      }
    }
  }

  /** One more row through a map. */
  lemma MapSnoc<A, B>(xs: seq<A>, x: A, f: A -> B)
    ensures Map(xs + [x], f) == Map(xs, f) + [f(x)]
  {
    assert (xs + [x])[..|xs|] == xs;
  }

  /** Two maps that agree on every row give the same column. */
  lemma MapAgree<A, B, C>(xs: seq<A>, f: A -> B, g: B -> C, h: A -> C)
    requires forall x :: g(f(x)) == h(x)
    ensures Map(Map(xs, f), g) == Map(xs, h)
  {
  }

  /** Filtering rows that all satisfy `p` keeps them all. */
  lemma {:induction false} FilterAll<A>(xs: seq<A>, p: A -> bool)
    requires forall i :: 0 <= i < |xs| ==> p(xs[i])
    ensures Filter(xs, p) == xs
  {
    if xs != [] {
      FilterAll(xs[..|xs| - 1], p);
      assert xs[..|xs| - 1] + [xs[|xs| - 1]] == xs;
    }
  }

  /** `dropna` twice on the same condition is `dropna` once. */
  lemma FilterIdempotent<A>(xs: seq<A>, p: A -> bool)
    ensures Filter(Filter(xs, p), p) == Filter(xs, p)
  {
    FilterAll(Filter(xs, p), p);
  }

  /** Nothing passes the filter exactly when no row satisfies `p`. */
  lemma FilterEmpty<A>(xs: seq<A>, p: A -> bool)
    ensures Filter(xs, p) == [] <==> forall i :: 0 <= i < |xs| ==> !p(xs[i])
  {
    if Filter(xs, p) != [] {
      var r := Filter(xs, p);
      assert r[0] in xs;
      var j :| 0 <= j < |xs| && xs[j] == r[0];
      assert p(xs[j]);
    }
  }

  /** The number of rows that satisfy `p`. */
  function Count<A>(xs: seq<A>, p: A -> bool): (n: nat)
    ensures n <= |xs|
  {
    if xs == [] then 0 else Count(xs[..|xs| - 1], p) + (if p(xs[|xs| - 1]) then 1 else 0)
  }

  lemma {:induction false} FilterCount<A>(xs: seq<A>, p: A -> bool)
    ensures |Filter(xs, p)| == Count(xs, p)
  {
    if xs != [] {
      FilterCount(xs[..|xs| - 1], p);
    }
  }

  /** Counting over a concatenation. */
  lemma {:induction false} CountConcat<A>(xs: seq<A>, ys: seq<A>, p: A -> bool)
    ensures Count(xs + ys, p) == Count(xs, p) + Count(ys, p)
    decreases |ys|
  {
    if ys == [] {
      assert xs + ys == xs;
    } else {
      var init := ys[..|ys| - 1];
      CountConcat(xs, init, p);
      assert (xs + ys)[..|xs + ys| - 1] == xs + init;
    }
  }

  /** A condition that implies another is met no more often. */
  lemma {:induction false} CountMono<A>(xs: seq<A>, p: A -> bool, q: A -> bool)
    requires forall x :: p(x) ==> q(x)
    ensures Count(xs, p) <= Count(xs, q)
  {
    if xs != [] {
      CountMono(xs[..|xs| - 1], p, q);
    }
  }

  /** `idx` picks the elements of `xs` out of `ys`, at strictly increasing positions. */
  ghost predicate Embedding<A>(xs: seq<A>, ys: seq<A>, idx: seq<nat>) {
    && |idx| == |xs|
    && (forall k :: 0 <= k < |idx| ==> idx[k] < |ys| && xs[k] == ys[idx[k]])
    && (forall k, l :: 0 <= k < l < |idx| ==> idx[k] < idx[l])
  }

  /** `xs` is `ys` with some elements left out, the others in their order. */
  ghost predicate IsSubsequence<A>(xs: seq<A>, ys: seq<A>) {
    exists idx :: Embedding(xs, ys, idx)
  }

  lemma {:induction false} FilterIsSubsequence<A>(xs: seq<A>, p: A -> bool)
    ensures IsSubsequence(Filter(xs, p), xs)
  {
    if xs == [] {
      var none: seq<nat> := [];
      assert Embedding(Filter(xs, p), xs, none);
    } else {
      var init := xs[..|xs| - 1];
      var last: nat := |xs| - 1;
      FilterIsSubsequence(init, p);
      var idx :| Embedding(Filter(init, p), init, idx);
      assert forall k :: 0 <= k < |idx| ==> init[idx[k]] == xs[idx[k]];
      if p(xs[last]) {
        var idx' := idx + [last];
        assert Filter(xs, p) == Filter(init, p) + [xs[last]];
        assert Embedding(Filter(xs, p), xs, idx');
      } else {
        assert Embedding(Filter(xs, p), xs, idx);
      }
    }
  }

  /** Filtering a concatenation filters each half. */
  lemma {:induction false} FilterConcat<A>(xs: seq<A>, ys: seq<A>, p: A -> bool)
    ensures Filter(xs + ys, p) == Filter(xs, p) + Filter(ys, p)
    decreases |ys|
  {
    if ys == [] {
      assert xs + ys == xs;
    } else {
      var init := ys[..|ys| - 1];
      FilterConcat(xs, init, p);
      assert (xs + ys)[..|xs + ys| - 1] == xs + init;
    }
  }

  /** One more row through a filter and a map. */
  lemma FilterMapSnoc<A, B>(xs: seq<A>, x: A, p: A -> bool, f: A -> B)
    ensures Map(Filter(xs + [x], p), f) == Map(Filter(xs, p), f) + (if p(x) then [f(x)] else [])
  {
    assert (xs + [x])[..|xs|] == xs;
    if p(x) {
      assert (Filter(xs, p) + [x])[..|Filter(xs, p)|] == Filter(xs, p);
    }
  }

  /** The identity map changes nothing. */
  lemma MapIdentity<A>(xs: seq<A>, f: A -> A)
    requires forall x :: f(x) == x
    ensures Map(xs, f) == xs
  {
  }

  /** The concatenation of a sequence of sequences. */
  function Flatten<A>(xss: seq<seq<A>>): seq<A> {
    if xss == [] then [] else Flatten(xss[..|xss| - 1]) + xss[|xss| - 1]
  }

  /** Flattening after prepending one sequence. */
  lemma {:induction false} FlattenCons<A>(x: seq<A>, xss: seq<seq<A>>)
    ensures Flatten([x] + xss) == x + Flatten(xss)
    decreases |xss|
  {
    if xss != [] {
      var init := xss[..|xss| - 1];
      FlattenCons(x, init);
      assert ([x] + xss)[..|xss|] == [x] + init;
    } else {
      assert [x] + xss == [x];
      assert [x][..0] == [];
    }
  }

  /** Keys never decrease along `s`. */
  predicate Ascending<T>(s: seq<T>, key: T -> int) {
    forall i, j :: 0 <= i < j < |s| ==> key(s[i]) <= key(s[j])
  }

  /** Insert `x` after every element whose key is at most key(x). */
  function InsertBy<T>(x: T, s: seq<T>, key: T -> int): (r: seq<T>)
    ensures |r| == |s| + 1
    ensures multiset(r) == multiset(s) + multiset{x}
  {
    if s == [] then [x]
    else if key(x) < key(s[0]) then [x] + s
    else
      assert s == [s[0]] + s[1..];
      [s[0]] + InsertBy(x, s[1..], key)
  }

  lemma {:induction false} InsertByAscending<T>(x: T, s: seq<T>, key: T -> int)
    requires Ascending(s, key)
    ensures Ascending(InsertBy(x, s, key), key)
  {
    if s != [] && key(s[0]) <= key(x) {
      InsertByAscending(x, s[1..], key);
      var t := InsertBy(x, s[1..], key);
      forall i | 0 <= i < |t| ensures key(s[0]) <= key(t[i]) {
        assert t[i] in multiset(t);
        if t[i] != x {
          assert t[i] in multiset(s[1..]);
          var j :| 0 <= j < |s[1..]| && s[1..][j] == t[i];
          assert s[1..][j] == s[j + 1];
        }
      }
    }
  }

  /** Inserting an element whose key is at least every other key appends it. */
  lemma {:induction false} InsertAtEnd<T>(x: T, s: seq<T>, key: T -> int)
    requires forall i :: 0 <= i < |s| ==> key(s[i]) <= key(x)
    ensures InsertBy(x, s, key) == s + [x]
  {
    if s != [] {
      InsertAtEnd(x, s[1..], key);
      assert [s[0]] + (s[1..] + [x]) == s + [x];
    }
  }

  /** sort(key=...) and sort_values: a stable sort by `key`, smallest first. */
  function SortBy<T>(xs: seq<T>, key: T -> int): (r: seq<T>)
    ensures multiset(r) == multiset(xs)
    ensures |r| == |xs|
  {
    if xs == [] then []
    else
      assert xs == xs[..|xs| - 1] + [xs[|xs| - 1]];
      InsertBy(xs[|xs| - 1], SortBy(xs[..|xs| - 1], key), key)
  }

  lemma {:induction false} SortByAscending<T>(xs: seq<T>, key: T -> int)
    ensures Ascending(SortBy(xs, key), key)
  {
    if xs != [] {
      SortByAscending(xs[..|xs| - 1], key);
      InsertByAscending(xs[|xs| - 1], SortBy(xs[..|xs| - 1], key), key);
    }
  }

  /** On rows already in key order, sorting changes nothing. */
  lemma {:induction false} SortByOfAscending<T>(xs: seq<T>, key: T -> int)
    requires Ascending(xs, key)
    ensures SortBy(xs, key) == xs
  {
    if xs != [] {
      var init := xs[..|xs| - 1];
      SortByOfAscending(init, key);
      InsertAtEnd(xs[|xs| - 1], init, key);
      assert init + [xs[|xs| - 1]] == xs;
    }
  }
}
