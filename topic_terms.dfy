/**
 * The topic-term table (topic_terms.csv) and the pandas queries made on it:
 * `groupby('topic_id')`, the rows of one topic, and `nlargest(n, 'weight')`.
 * Weights are integers here.
 */
module TopicTerms {
  import opened PyStrings
  import opened PyTables

  /** One row of the table: topic_id, term, weight. */
  datatype TermRow = TermRow(topicId: int, term: string, weight: int)

  // ---------------------------------------------------------------------------
  // groupby('topic_id')
  // ---------------------------------------------------------------------------

  predicate StrictlyIncreasing(s: seq<int>) {
    forall i, j :: 0 <= i < j < |s| ==> s[i] < s[j]
  }

  /** Add `x` to an ascending sequence of distinct ids. */
  function InsertId(x: int, s: seq<int>): (r: seq<int>)
    requires StrictlyIncreasing(s)
    ensures StrictlyIncreasing(r)
    ensures forall y :: y in r <==> y == x || y in s
  {
    if s == [] then [x]
    else if x < s[0] then [x] + s
    else if x == s[0] then s
    else
      var t := InsertId(x, s[1..]);
      assert forall i :: 0 <= i < |t| ==> s[0] < t[i] by {
        forall i | 0 <= i < |t| ensures s[0] < t[i] {
          assert t[i] in t;
          if t[i] != x {
            var j :| 0 <= j < |s[1..]| && s[1..][j] == t[i];
            assert s[1..][j] == s[j + 1];
          }
        }
      }
      assert s == [s[0]] + s[1..];
      [s[0]] + t
  }

  /** The group keys of groupby('topic_id'): every id of the table once, ascending. */
  function TopicIds(rows: seq<TermRow>): (ids: seq<int>)
    ensures StrictlyIncreasing(ids)
    ensures forall y :: y in ids <==> exists i :: 0 <= i < |rows| && rows[i].topicId == y
  {
    if rows == [] then []
    else
      var init := rows[..|rows| - 1];
      var r := InsertId(rows[|rows| - 1].topicId, TopicIds(init));
      assert forall i :: 0 <= i < |init| ==> init[i] == rows[i];
      r
  }

  function OfTopic(id: int): TermRow -> bool {
    (row: TermRow) => row.topicId == id
  }

  /** The group of one id with its rows in table order; also `df[df['topic_id'] == id]`. */
  function Group(rows: seq<TermRow>, id: int): (g: seq<TermRow>)
    ensures forall i :: 0 <= i < |g| ==> g[i].topicId == id
    ensures IsSubsequence(g, rows)
    ensures forall i :: 0 <= i < |g| ==> g[i] in rows
    ensures forall i :: 0 <= i < |rows| && rows[i].topicId == id ==> rows[i] in g
    ensures g == [] <==> forall i :: 0 <= i < |rows| ==> rows[i].topicId != id
  {
    assert forall i :: 0 <= i < |rows| && rows[i].topicId == id ==> OfTopic(id)(rows[i]);
    FilterIsSubsequence(rows, OfTopic(id));
    FilterEmpty(rows, OfTopic(id));
    Filter(rows, OfTopic(id))
  }

  // ---------------------------------------------------------------------------
  // nlargest(n, 'weight')
  // ---------------------------------------------------------------------------

  function NegWeight(row: TermRow): int {
    -row.weight
  }

  predicate ByWeightDescending(s: seq<TermRow>) {
    forall i, j :: 0 <= i < j < |s| ==> s[j].weight <= s[i].weight
  }

  /**
   * The n heaviest rows, heaviest first; rows of equal weight keep table order
   * (keep='first'). `sort_values('weight', ascending=False)[:n]` is modelled by
   * the same function.
   */
  function Largest(rows: seq<TermRow>, n: int): seq<TermRow> {
    PyTake(SortBy(rows, NegWeight), n)
  }

  /** What nlargest promises: size, order, and that nothing left out is heavier. */
  lemma LargestSpec(rows: seq<TermRow>, n: int)
    ensures 0 <= n ==> |Largest(rows, n)| == if n < |rows| then n else |rows|
    ensures ByWeightDescending(Largest(rows, n))
    ensures multiset(Largest(rows, n)) <= multiset(rows)
    ensures forall y, i :: y in multiset(rows) - multiset(Largest(rows, n)) && 0 <= i < |Largest(rows, n)| ==>
      y.weight <= Largest(rows, n)[i].weight
  {
    var sorted := SortBy(rows, NegWeight);
    SortByAscending(rows, NegWeight);
    PrefixOfHeaviest(sorted, |Largest(rows, n)|);
  }

  /** A prefix of rows sorted heaviest first: in order, and no row after it is heavier. */
  lemma PrefixOfHeaviest(sorted: seq<TermRow>, k: nat)
    requires Ascending(sorted, NegWeight) && k <= |sorted|
    ensures ByWeightDescending(sorted[..k])
    ensures multiset(sorted[..k]) <= multiset(sorted)
    ensures forall y, i :: y in multiset(sorted) - multiset(sorted[..k]) && 0 <= i < k ==>
      y.weight <= sorted[..k][i].weight
  {
    var r, rest := sorted[..k], sorted[k..];
    assert sorted == r + rest;
    assert multiset(sorted) == multiset(r) + multiset(rest);
    forall a, b | 0 <= a < b < |r| ensures r[b].weight <= r[a].weight {
      assert NegWeight(sorted[a]) <= NegWeight(sorted[b]);
    }
    forall y, i | y in multiset(sorted) - multiset(r) && 0 <= i < k ensures y.weight <= r[i].weight {
      assert y in multiset(rest);
      var j :| 0 <= j < |rest| && rest[j] == y;
      assert rest[j] == sorted[k + j] && r[i] == sorted[i];
      assert NegWeight(sorted[i]) <= NegWeight(sorted[k + j]);
    }
  }

  /** The first of the n heaviest rows weighs at least as much as any row. */
  lemma LargestHead(rows: seq<TermRow>, n: int, x: TermRow)
    requires 1 <= n && x in rows
    ensures |Largest(rows, n)| >= 1
    ensures x.weight <= Largest(rows, n)[0].weight
  {
    LargestSpec(rows, n);
    var r := Largest(rows, n);
    if x in multiset(r) {
      var j :| 0 <= j < |r| && r[j] == x;
    } else {
      assert x in multiset(rows) - multiset(r);
    }
  }
}
