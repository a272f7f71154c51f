/**
 * The text cleaning of the preprocessing step: ultra_clean_text for titles,
 * abstracts, keywords, journal and author names, and clean_affiliation_text for
 * author affiliations. Each re.sub call is a function that scans its input left
 * to right, tries the pattern at the current position and copies one character
 * when it does not match there; the loops of the two cleaning functions are
 * methods proved equal to the specification functions CleanText and
 * CleanAffiliation, whose contracts carry the properties of the cleaned text.
 */
module Preprocess {
  import opened Wrappers
  import opened PyStrings

  // ---------------------------------------------------------------------------
  // Properties of cleaned text

  /** No whitespace character other than a plain space. */
  predicate OnlyPlainSpaces(s: string) {
    forall i :: 0 <= i < |s| && IsSpace(s[i]) ==> s[i] == ' '
  }

  /** No two adjacent whitespace characters. */
  predicate NoDoubleSpace(s: string) {
    forall i :: 0 <= i < |s| - 1 ==> !(IsSpace(s[i]) && IsSpace(s[i + 1]))
  }

  /** No whitespace at either end. */
  predicate TrimmedEnds(s: string) {
    s != [] ==> !IsSpace(s[0]) && !IsSpace(s[|s| - 1])
  }

  /** What whitespace normalisation promises: trimmed, single plain spaces only. */
  predicate Tidy(s: string) {
    OnlyPlainSpaces(s) && NoDoubleSpace(s) && TrimmedEnds(s)
  }

  /** No whitespace character directly before or after a `c`. */
  predicate NoSpaceBeside(s: string, c: char) {
    forall i :: 0 <= i < |s| - 1 ==>
      !(IsSpace(s[i]) && s[i + 1] == c) && !(s[i] == c && IsSpace(s[i + 1]))
  }

  /** `<[^>]*>` finds nothing: no '<' is followed, anywhere later, by a '>'. */
  predicate HasNoTag(s: string) {
    forall i, j :: 0 <= i < j < |s| && s[i] == '<' ==> s[j] != '>'
  }

  lemma SliceKeeps(s: string, a: nat, b: nat)
    requires a <= b <= |s|
    ensures OnlyPlainSpaces(s) ==> OnlyPlainSpaces(s[a..b])
    ensures NoDoubleSpace(s) ==> NoDoubleSpace(s[a..b])
    ensures NoSpaceBeside(s, ';') ==> NoSpaceBeside(s[a..b], ';')
    ensures HasNoTag(s) ==> HasNoTag(s[a..b])
  {
    var t := s[a..b];
    if NoDoubleSpace(s) {
      forall i | 0 <= i < |t| - 1 ensures !(IsSpace(t[i]) && IsSpace(t[i + 1])) {
        assert t[i] == s[a + i] && t[i + 1] == s[a + i + 1];
      }
    }
    if NoSpaceBeside(s, ';') {
      forall i | 0 <= i < |t| - 1
        ensures !(IsSpace(t[i]) && t[i + 1] == ';') && !(t[i] == ';' && IsSpace(t[i + 1]))
      {
        assert t[i] == s[a + i] && t[i + 1] == s[a + i + 1];
      }
    }
    if HasNoTag(s) {
      forall i, j | 0 <= i < j < |t| && t[i] == '<' ensures t[j] != '>' {
        assert t[i] == s[a + i] && t[j] == s[a + j];
      }
    }
  }

  /** str.strip() keeps every property above and trims the ends. */
  lemma StripKeeps(s: string)
    ensures var r := StripSpaces(s);
      && TrimmedEnds(r)
      && (OnlyPlainSpaces(s) ==> OnlyPlainSpaces(r))
      && (NoDoubleSpace(s) ==> NoDoubleSpace(r))
      && (NoSpaceBeside(s, ';') ==> NoSpaceBeside(r, ';'))
      && (HasNoTag(s) ==> HasNoTag(r))
  {
    var a := Span(s, 0, Space);
    EndsNotSpace(StripSpaces(s));
    SliceKeeps(s, a, a + |StripSpaces(s)|);
  }

  lemma EndsNotSpace(r: string)
    requires r != [] ==> !InClass(r[0], Space) && !InClass(r[|r| - 1], Space)
    ensures TrimmedEnds(r)
  {
  }

  /** A character-class strip keeps the pair properties. */
  lemma StripSemicolonsKeeps(s: string)
    ensures var r := Strip(s, Semicolon);
      && (OnlyPlainSpaces(s) ==> OnlyPlainSpaces(r))
      && (NoDoubleSpace(s) ==> NoDoubleSpace(r))
      && (NoSpaceBeside(s, ';') ==> NoSpaceBeside(r, ';'))
  {
    var a := Span(s, 0, Semicolon);
    SliceKeeps(s, a, a + |Strip(s, Semicolon)|);
  }

  /** No character of `s` is `c` (stated on indices, so that slices inherit it). */
  predicate Avoids(s: string, c: char) {
    forall i :: 0 <= i < |s| ==> s[i] != c
  }

  lemma NoTagCons(c: char, t: string)
    requires HasNoTag(t)
    requires c == '<' ==> Avoids(t, '>')
    ensures HasNoTag([c] + t)
  {
    var s := [c] + t;
    forall i, j | 0 <= i < j < |s| && s[i] == '<' ensures s[j] != '>' {
      if i == 0 {
        assert s[j] == t[j - 1];
      } else {
        assert s[i] == t[i - 1] && s[j] == t[j - 1];
      }
    }
  }

  lemma PlainCons(c: char, t: string)
    requires OnlyPlainSpaces(t) && (IsSpace(c) ==> c == ' ')
    ensures OnlyPlainSpaces([c] + t)
  {
    var s := [c] + t;
    forall i | 0 <= i < |s| && IsSpace(s[i]) ensures s[i] == ' ' {
      if i > 0 {
        assert s[i] == t[i - 1];
      }
    }
  }

  lemma NoDoubleCons(c: char, t: string)
    requires NoDoubleSpace(t) && !(IsSpace(c) && t != [] && IsSpace(t[0]))
    ensures NoDoubleSpace([c] + t)
  {
    var s := [c] + t;
    forall i | 0 <= i < |s| - 1 ensures !(IsSpace(s[i]) && IsSpace(s[i + 1])) {
      if i > 0 {
        assert s[i] == t[i - 1] && s[i + 1] == t[i];
      }
    }
  }

  lemma NoSpaceBesideCons(c: char, t: string, d: char)
    requires NoSpaceBeside(t, d)
    requires t != [] ==> !(IsSpace(c) && t[0] == d) && !(c == d && IsSpace(t[0]))
    ensures NoSpaceBeside([c] + t, d)
  {
    var s := [c] + t;
    forall i | 0 <= i < |s| - 1
      ensures !(IsSpace(s[i]) && s[i + 1] == d) && !(s[i] == d && IsSpace(s[i + 1]))
    {
      if i > 0 {
        assert s[i] == t[i - 1] && s[i + 1] == t[i];
      }
    }
  }

  // ---------------------------------------------------------------------------
  // HTML tag removal

  /** The first index at or after `i` that holds `c`, or |s| when there is none. */
  function FindFrom(s: string, c: char, i: nat): (j: nat)
    requires i <= |s|
    ensures i <= j <= |s|
    ensures j < |s| ==> s[j] == c
    ensures forall m :: i <= m < j ==> s[m] != c
    decreases |s| - i
  {
    if i == |s| || s[i] == c then i else FindFrom(s, c, i + 1)
  }

  predicate CloserAt(s: string, m: nat) {
    m + 1 < |s| && s[m] == '<' && s[m + 1] == '/'
  }

  /** The first index at or after `i` where "</" starts, or |s|. */
  function FindCloser(s: string, i: nat): (j: nat)
    requires i <= |s|
    ensures i <= j <= |s|
    ensures j < |s| ==> CloserAt(s, j)
    ensures forall m :: i <= m < j ==> !CloserAt(s, m)
    decreases |s| - i
  {
    if i == |s| || CloserAt(s, i) then i else FindCloser(s, i + 1)
  }

  /** The two tag patterns: `<[^>]*>.*?</[^>]*>` (with DOTALL) and `<[^>]*>`. */
  datatype TagPattern = TagPair | SingleTag

  /**
   * Where a match of `p` that starts at position 0 of `s` ends. The greedy
   * `[^>]*` stops at the first '>', and the lazy `.*?` at the first "</" after
   * it; when that closer is not followed by a '>' no later closer is either,
   * so backtracking finds no other match.
   */
  function TagEnd(s: string, p: TagPattern): (e: Option<nat>)
    ensures e.Some? ==> 2 <= e.value <= |s| && s[0] == '<'
    ensures e.Some? ==> FindFrom(s, '>', 1) < e.value
    ensures e.None? && s != [] && s[0] == '<' && p == SingleTag ==> FindFrom(s, '>', 1) == |s|
  {
    if s == [] || s[0] != '<' then None
    else
      var gt := FindFrom(s, '>', 1);
      if gt == |s| then None
      else match p
        case SingleTag => Some(gt + 1)
        case TagPair =>
          var closer := FindCloser(s, gt + 1);
          if closer == |s| then None
          else
            var gt2 := FindFrom(s, '>', closer + 2);
            if gt2 == |s| then None else Some(gt2 + 1)
  }

  /** re.sub(p, ' ', s). */
  function SubTag(s: string, p: TagPattern): string
    decreases |s|
  {
    if s == [] then []
    else match TagEnd(s, p)
      case Some(e) => " " + SubTag(s[e..], p)
      case None => [s[0]] + SubTag(s[1..], p)
  }

  /** Removing tags brings in no character but the space. */
  lemma {:induction false} SubTagAvoids(s: string, p: TagPattern, c: char)
    requires c != ' ' && Avoids(s, c)
    ensures Avoids(SubTag(s, p), c)
    decreases |s|
  {
    if s != [] {
      match TagEnd(s, p)
      case Some(e) =>
        SubTagAvoids(s[e..], p, c);
        assert SubTag(s, p) == " " + SubTag(s[e..], p);
      case None =>
        SubTagAvoids(s[1..], p, c);
        assert SubTag(s, p) == [s[0]] + SubTag(s[1..], p);
    }
  }

  /** After removing single tags, no tag is left. */
  lemma {:induction false} SubSingleTagLeavesNoTag(s: string)
    ensures HasNoTag(SubTag(s, SingleTag))
    decreases |s|
  {
    if s != [] {
      match TagEnd(s, SingleTag)
      case Some(e) =>
        SubSingleTagLeavesNoTag(s[e..]);
        NoTagCons(' ', SubTag(s[e..], SingleTag));
      case None =>
        SubSingleTagLeavesNoTag(s[1..]);
        if s[0] == '<' {
          assert Avoids(s[1..], '>') by {
            forall k | 0 <= k < |s[1..]| ensures s[1..][k] != '>' {
              assert s[1..][k] == s[1 + k];
            }
          }
          SubTagAvoids(s[1..], SingleTag, '>');
        }
        NoTagCons(s[0], SubTag(s[1..], SingleTag));
    }
  }

  /** Neither tag pattern changes a text that holds no tag. */
  lemma {:induction false} SubTagOfTagFree(s: string, p: TagPattern)
    requires HasNoTag(s)
    ensures SubTag(s, p) == s
    decreases |s|
  {
    if s != [] {
      assert TagEnd(s, p) == None;
      SliceKeeps(s, 1, |s|);
      SubTagOfTagFree(s[1..], p);
      assert s == [s[0]] + s[1..];
    }
  }

  /** One round of the tag-removal loop: pairs of tags, then single tags. */
  function TagRound(s: string): string {
    SubTag(SubTag(s, TagPair), SingleTag)
  }

  /** `n` rounds of the tag-removal loop. */
  function TagRounds(s: string, n: nat): string {
    if n == 0 then s else TagRound(TagRounds(s, n - 1))
  }

  /** Every round after the first changes nothing: the five rounds do what one does. */
  lemma {:induction false} TagRoundsAreOneRound(s: string, n: nat)
    requires 1 <= n
    ensures TagRounds(s, n) == TagRound(s)
    ensures HasNoTag(TagRounds(s, n))
  {
    if n == 1 {
      SubSingleTagLeavesNoTag(SubTag(s, TagPair));
    } else {
      TagRoundsAreOneRound(s, n - 1);
      var t := TagRounds(s, n - 1);
      SubTagOfTagFree(t, TagPair);
      SubTagOfTagFree(t, SingleTag);
    }
  }

  // ---------------------------------------------------------------------------
  // Whitespace collapse

  /** re.sub(r'\s+', ' ', s). */
  function CollapseSpaces(s: string): string
    decreases |s|
  {
    if s == [] then []
    else if IsSpace(s[0]) then " " + CollapseSpaces(s[Span(s, 0, Space)..])
    else [s[0]] + CollapseSpaces(s[1..])
  }

  /** What the collapsed text starts with. */
  lemma CollapseHead(s: string)
    requires s != []
    ensures CollapseSpaces(s) != []
    ensures IsSpace(s[0]) ==> CollapseSpaces(s)[0] == ' '
    ensures !IsSpace(s[0]) ==> CollapseSpaces(s)[0] == s[0]
  {
  }

  /** After a run of whitespace the collapsed rest does not start with whitespace. */
  lemma CollapseAfterRun(s: string)
    requires s != [] && IsSpace(s[0])
    ensures var u := s[Span(s, 0, Space)..]; u != [] ==> !IsSpace(CollapseSpaces(u)[0])
  {
    var u := s[Span(s, 0, Space)..];
    if u != [] {
      CollapseHead(u);
    }
  }

  /** The collapsed text has single plain spaces only. */
  lemma {:induction false} CollapseShape(s: string)
    ensures OnlyPlainSpaces(CollapseSpaces(s)) && NoDoubleSpace(CollapseSpaces(s))
    decreases |s|
  {
    if s != [] {
      if IsSpace(s[0]) {
        var u := s[Span(s, 0, Space)..];
        CollapseShape(u);
        CollapseAfterRun(s);
        PlainCons(' ', CollapseSpaces(u));
        NoDoubleCons(' ', CollapseSpaces(u));
      } else {
        CollapseShape(s[1..]);
        PlainCons(s[0], CollapseSpaces(s[1..]));
        NoDoubleCons(s[0], CollapseSpaces(s[1..]));
      }
    }
  }

  /** Collapsing whitespace brings in no character but the space. */
  lemma {:induction false} CollapseAvoids(s: string, c: char)
    requires c != ' ' && Avoids(s, c)
    ensures Avoids(CollapseSpaces(s), c)
    decreases |s|
  {
    if s != [] {
      var w := if IsSpace(s[0]) then Span(s, 0, Space) else 1;
      CollapseAvoids(s[w..], c);
      var t := CollapseSpaces(s[w..]);
      assert CollapseSpaces(s) == [if IsSpace(s[0]) then ' ' else s[0]] + t;
    }
  }

  /** Collapsing whitespace keeps "no tag". */
  lemma {:induction false} CollapseKeepsNoTag(s: string)
    requires HasNoTag(s)
    ensures HasNoTag(CollapseSpaces(s))
    decreases |s|
  {
    if s != [] {
      var w := if IsSpace(s[0]) then Span(s, 0, Space) else 1;
      var u := s[w..];
      SliceKeeps(s, w, |s|);
      CollapseKeepsNoTag(u);
      var c := if IsSpace(s[0]) then ' ' else s[0];
      if c == '<' {
        assert Avoids(u, '>') by {
          forall k | 0 <= k < |u| ensures u[k] != '>' {
            assert u[k] == s[1 + k];
          }
        }
        CollapseAvoids(u, '>');
      }
      NoTagCons(c, CollapseSpaces(u));
    }
  }

  /** Collapsing whitespace keeps "no whitespace beside ';'". */
  lemma {:induction false} CollapseKeepsSemicolons(s: string)
    requires NoSpaceBeside(s, ';')
    ensures NoSpaceBeside(CollapseSpaces(s), ';')
    decreases |s|
  {
    if s != [] {
      var w := if IsSpace(s[0]) then Span(s, 0, Space) else 1;
      var u := s[w..];
      SliceKeeps(s, w, |s|);
      CollapseKeepsSemicolons(u);
      var c := if IsSpace(s[0]) then ' ' else s[0];
      if u != [] {
        CollapseHead(u);
        assert s[w - 1] == s[w - 1];
        assert !(IsSpace(s[w - 1]) && s[w] == ';') && !(s[w - 1] == ';' && IsSpace(s[w]));
      }
      NoSpaceBesideCons(c, CollapseSpaces(u), ';');
    }
  }

  // ---------------------------------------------------------------------------
  // Prefix removal

  /** The prefixes ultra_clean_text removes, in the order it checks them. */
  const AbstractPrefixes: seq<string> := ["Abstract", "ABSTRACT", "Summary", "SUMMARY"]

  /** One pass of the prefix loop: the prefix, then one ':' or '-', each followed by a strip. */
  function DropPrefix(text: string, prefix: string): string {
    if StartsWith(text, prefix) then
      var rest := StripSpaces(text[|prefix|..]);
      if StartsWith(rest, ":") || StartsWith(rest, "-") then StripSpaces(rest[1..]) else rest
    else text
  }

  /** The prefix loop over `prefixes`, each checked once, in order. */
  function DropPrefixes(text: string, prefixes: seq<string>): string {
    if prefixes == [] then text
    else DropPrefix(DropPrefixes(text, prefixes[..|prefixes| - 1]), prefixes[|prefixes| - 1])
  }

  /** Stripping what follows position `a` keeps a clean text clean. */
  lemma StripTailKeeps(s: string, a: nat)
    requires a <= |s| && Tidy(s) && HasNoTag(s)
    ensures var r := StripSpaces(s[a..]);
      Tidy(r) && HasNoTag(r) && |r| <= |s| - a
  {
    SliceKeeps(s, a, |s|);
    StripKeeps(s[a..]);
  }

  lemma DropPrefixKeeps(text: string, prefix: string)
    requires Tidy(text) && HasNoTag(text)
    ensures var r := DropPrefix(text, prefix);
      Tidy(r) && HasNoTag(r) && |r| <= |text|
  {
    if StartsWith(text, prefix) {
      StripTailKeeps(text, |prefix|);
      var rest := StripSpaces(text[|prefix|..]);
      if StartsWith(rest, ":") || StartsWith(rest, "-") {
        StripTailKeeps(rest, 1);
      }
    }
  }

  /** The prefix loop keeps the text tidy and tag-free, and never lengthens it. */
  lemma {:induction false} DropPrefixesKeeps(text: string, prefixes: seq<string>)
    requires Tidy(text) && HasNoTag(text)
    ensures var r := DropPrefixes(text, prefixes);
      Tidy(r) && HasNoTag(r) && |r| <= |text|
  {
    if prefixes != [] {
      DropPrefixesKeeps(text, prefixes[..|prefixes| - 1]);
      DropPrefixKeeps(DropPrefixes(text, prefixes[..|prefixes| - 1]), prefixes[|prefixes| - 1]);
    }
  }

  /** A text that starts with none of the prefixes is left alone. */
  lemma {:induction false} DropPrefixesUnmatched(text: string, prefixes: seq<string>)
    requires forall k :: 0 <= k < |prefixes| ==> !StartsWith(text, prefixes[k])
    ensures DropPrefixes(text, prefixes) == text
  {
    if prefixes != [] {
      DropPrefixesUnmatched(text, prefixes[..|prefixes| - 1]);
    }
  }

  lemma DropPrefixesSnoc(t: string, prefixes: seq<string>, p: string)
    ensures DropPrefixes(t, prefixes + [p]) == DropPrefix(DropPrefixes(t, prefixes), p)
  {
    assert (prefixes + [p])[..|prefixes|] == prefixes;
  }

  /** One more pass of the prefix loop. */
  lemma DropPrefixesStep(t: string, prefixes: seq<string>, k: nat)
    requires k < |prefixes|
    ensures DropPrefixes(t, prefixes[..k + 1]) == DropPrefix(DropPrefixes(t, prefixes[..k]), prefixes[k])
  {
    assert prefixes[..k + 1][..k] == prefixes[..k];
  }

  /** The prefix loop over the four labels, written out. */
  lemma DropAbstractPrefixes(t: string)
    ensures DropPrefixes(t, AbstractPrefixes)
      == DropPrefix(DropPrefix(DropPrefix(DropPrefix(t, "Abstract"), "ABSTRACT"), "Summary"), "SUMMARY")
  {
    DropPrefixesSnoc(t, [], "Abstract");
    DropPrefixesSnoc(t, ["Abstract"], "ABSTRACT");
    DropPrefixesSnoc(t, ["Abstract", "ABSTRACT"], "Summary");
    DropPrefixesSnoc(t, ["Abstract", "ABSTRACT", "Summary"], "SUMMARY");
    assert [] + ["Abstract"] == ["Abstract"];
    assert ["Abstract"] + ["ABSTRACT"] == ["Abstract", "ABSTRACT"];
    assert ["Abstract", "ABSTRACT"] + ["Summary"] == ["Abstract", "ABSTRACT", "Summary"];
    assert ["Abstract", "ABSTRACT", "Summary"] + ["SUMMARY"] == AbstractPrefixes;
  }

  /** The prefix loop over the four labels, one step at a time. */
  lemma DropAbstractPrefixesSteps(t0: string, t1: string, t2: string, t3: string, t4: string)
    requires DropPrefix(t0, "Abstract") == t1 && DropPrefix(t1, "ABSTRACT") == t2
    requires DropPrefix(t2, "Summary") == t3 && DropPrefix(t3, "SUMMARY") == t4
    ensures DropPrefixes(t0, AbstractPrefixes) == t4
  {
    DropAbstractPrefixes(t0);
  }

  lemma NotStartsWithAt(s: string, prefix: string, k: nat)
    requires k < |prefix| && k < |s| && s[k] != prefix[k]
    ensures !StartsWith(s, prefix)
  {
    if |prefix| <= |s| {
      assert s[..|prefix|][k] == s[k];
    }
  }

  lemma StripOfTrimmed(s: string)
    requires s != [] && !IsSpace(s[0]) && !IsSpace(s[|s| - 1])
    ensures StripSpaces(s) == s
  {
    assert Span(s, 0, Space) == 0;
    var r := StripSpaces(s);
    assert |r| == |s|;
  }

  lemma StripOneLeading(s: string)
    requires |s| >= 2 && IsSpace(s[0]) && !IsSpace(s[1]) && !IsSpace(s[|s| - 1])
    ensures StripSpaces(s) == s[1..]
  {
    SpanIs(s, 0, Space, 1);
    var r := StripSpaces(s);
    assert |r| == |s| - 1;
  }

  /** A trimmed text that starts with a lower-case letter: no label, ':' or '-' matches it. */
  predicate LowerWord(w: string) {
    w != [] && 'a' <= w[0] <= 'z' && !IsSpace(w[|w| - 1])
  }

  lemma LowerWordUntouched(w: string)
    requires LowerWord(w)
    ensures Trimmed(w) && StripSpaces(w) == w
    ensures DropPrefix(w, "Abstract") == w && DropPrefix(w, "ABSTRACT") == w
    ensures DropPrefix(w, "Summary") == w && DropPrefix(w, "SUMMARY") == w
    ensures !StartsWith(w, ":") && !StartsWith(w, "-")
  {
    assert !IsSpace(w[0]);
    StripOfTrimmed(w);
    NotStartsWithAt(w, ":", 0);
    NotStartsWithAt(w, "-", 0);
    NotStartsWithAt(w, "Abstract", 0);
    NotStartsWithAt(w, "ABSTRACT", 0);
    NotStartsWithAt(w, "Summary", 0);
    NotStartsWithAt(w, "SUMMARY", 0);
  }

  /** The text after a label with no space at either end. */
  predicate Trimmed(u: string) {
    u != [] && !IsSpace(u[0]) && !IsSpace(u[|u| - 1])
  }

  /** A label that matches, followed by text whose strip is `rest`. */
  lemma DropPrefixMatched(text: string, p: string, rest: string)
    requires StartsWith(text, p) && StripSpaces(text[|p|..]) == rest
    ensures (StartsWith(rest, ":") || StartsWith(rest, "-")) ==> DropPrefix(text, p) == StripSpaces(rest[1..])
    ensures !(StartsWith(rest, ":") || StartsWith(rest, "-")) ==> DropPrefix(text, p) == rest
  {
  }

  lemma StartsWithConcat(p: string, u: string)
    ensures StartsWith(p + u, p) && (p + u)[|p|..] == u
  {
    assert (p + u)[..|p|] == p;
  }

  /** A space before trimmed text is stripped. */
  lemma StripLeadingSpace(u: string)
    requires Trimmed(u)
    ensures StripSpaces(" " + u) == u
  {
    StripOneLeading(" " + u);
    assert (" " + u)[1..] == u;
  }

  lemma TrimmedConcat(a: string, b: string)
    requires a != [] && !IsSpace(a[0]) && Trimmed(b)
    ensures Trimmed(a + b)
  {
  }

  lemma ConcatAssoc(a: string, b: string, c: string)
    ensures a + b + c == a + (b + c)
  {
  }

  /** `label: rest` loses the label, the ':' and the space. */
  lemma DropLabelColon(p: string, u: string)
    requires Trimmed(u)
    ensures DropPrefix(p + ": " + u, p) == u
  {
    var r := ": " + u;
    ConcatAssoc(p, ": ", u);
    StartsWithConcat(p, r);
    StripOfTrimmed(r);
    ColonSpace(u);
    StripLeadingSpace(u);
    DropPrefixMatched(p + r, p, r);
  }

  lemma ColonSpace(u: string)
    ensures StartsWith(": " + u, ":") && (": " + u)[1..] == " " + u
  {
    assert (": " + u)[..1] == ":";
  }

  lemma SpaceDash(u: string)
    ensures " - " + u == " " + ("- " + u)
    ensures StartsWith("- " + u, "-") && ("- " + u)[1..] == " " + u
  {
    assert ("- " + u)[..1] == "-";
  }

  /** `label - rest` loses the label, the spaces and the '-'. */
  lemma DropLabelSpacedDash(p: string, u: string)
    requires Trimmed(u)
    ensures DropPrefix(p + " - " + u, p) == u
  {
    var d := "- " + u;
    ConcatAssoc(p, " - ", u);
    SpaceDash(u);
    StartsWithConcat(p, " " + d);
    StripLeadingSpace(d);
    StripLeadingSpace(u);
    DropPrefixMatched(p + (" " + d), p, d);
  }

  /** `label rest` loses the label and the space when no ':' or '-' follows. */
  lemma DropLabelSpace(p: string, u: string)
    requires Trimmed(u) && u[0] != ':' && u[0] != '-'
    ensures DropPrefix(p + " " + u, p) == u
  {
    ConcatAssoc(p, " ", u);
    StartsWithConcat(p, " " + u);
    StripLeadingSpace(u);
    NotStartsWithAt(u, ":", 0);
    NotStartsWithAt(u, "-", 0);
    DropPrefixMatched(p + (" " + u), p, u);
  }

  lemma AbstractSummaryText(w: string)
    ensures "Abstract: Summary - " + w == "Abstract" + ": " + ("Summary - " + w)
    ensures "Summary" + " - " + w == "Summary - " + w
    ensures ("Summary - " + w)[0] == 'S'
  {
  }

  lemma SummaryNotAbstract(w: string)
    ensures DropPrefix("Summary - " + w, "ABSTRACT") == "Summary - " + w
  {
    var s1 := "Summary - " + w;
    assert s1[1] == 'u';
    NotStartsWithAt(s1, "ABSTRACT", 1);
  }

  /** The labels are removed in the order of the list: "Abstract", then "Summary". */
  lemma AbstractThenSummary(w: string)
    requires LowerWord(w)
    ensures DropPrefixes("Abstract: Summary - " + w, AbstractPrefixes) == w
  {
    var s1 := "Summary - " + w;
    var s0 := "Abstract" + ": " + s1;
    AbstractSummaryText(w);
    LowerWordUntouched(w);
    TrimmedConcat("Summary - ", w);
    DropLabelColon("Abstract", s1);
    SummaryNotAbstract(w);
    DropLabelSpacedDash("Summary", w);
    DropAbstractPrefixesSteps(s0, s1, s1, w, w);
  }

  /** Each label is removed at most once: a repeated label stays. */
  lemma RepeatedLabelStays(w: string)
    requires LowerWord(w)
    ensures DropPrefixes("SUMMARY SUMMARY " + w, AbstractPrefixes) == "SUMMARY " + w
  {
    var s1 := "SUMMARY" + " " + w;
    var s0 := "SUMMARY" + " " + s1;
    assert "SUMMARY SUMMARY " + w == s0;
    assert "SUMMARY " + w == s1;
    NotStartsWithAt(s0, "Abstract", 0);
    NotStartsWithAt(s0, "ABSTRACT", 1);
    NotStartsWithAt(s0, "Summary", 1);
    DropLabelSpace("SUMMARY", s1);
    DropAbstractPrefixesSteps(s0, s0, s0, s0, s1);
  }

  /** The prefix check is not bound to a word: "Abstraction" loses its first eight letters. */
  lemma PrefixInsideAWord(w: string)
    requires LowerWord(w)
    ensures DropPrefixes("Abstract" + w, AbstractPrefixes) == w
  {
    var s0 := "Abstract" + w;
    LowerWordUntouched(w);
    StartsWithConcat("Abstract", w);
    DropPrefixMatched(s0, "Abstract", w);
    DropAbstractPrefixesSteps(s0, w, w, w, w);
  }

  // ---------------------------------------------------------------------------
  // ultra_clean_text

  /** The values the first check of ultra_clean_text turns into None. */
  predicate IsNullLike(v: Cell) {
    v.Missing? || v.s == "" || StripSpaces(v.s) == "" || Lower(v.s) in {"nan", "none", "null"}
  }

  /** The text after HTML decoding, the tag rounds and whitespace normalisation. */
  function Normalise(s: string, unescape: string -> string): (r: string)
    ensures Tidy(r) && HasNoTag(r)
  {
    var t := TagRounds(unescape(s), 5);
    TagRoundsAreOneRound(unescape(s), 5);
    CollapseShape(t);
    CollapseKeepsNoTag(t);
    StripKeeps(CollapseSpaces(t));
    StripSpaces(CollapseSpaces(t))
  }

  /**
   * ultra_clean_text: None for missing, empty, blank and 'nan'/'none'/'null'
   * values; otherwise the decoded, tag-free, whitespace-normalised text with
   * its leading labels removed, or None when fewer than three characters remain.
   * `unescape` stands for html.unescape.
   */
  function CleanText(v: Cell, unescape: string -> string): (r: Option<string>)
    ensures IsNullLike(v) ==> r == None
    ensures r.Some? ==> 3 <= |r.value| && Tidy(r.value) && HasNoTag(r.value)
    ensures r.Some? ==> var t := Normalise(v.s, unescape); |r.value| <= |t|
  {
    if IsNullLike(v) then None
    else
      var t := Normalise(v.s, unescape);
      DropPrefixesKeeps(t, AbstractPrefixes);
      var text := DropPrefixes(t, AbstractPrefixes);
      if |text| < 3 then None else Some(text)
  }

  /** The loops of ultra_clean_text: five tag rounds, then one pass per prefix. */
  method UltraCleanText(v: Cell, unescape: string -> string) returns (r: Option<string>)
    ensures r == CleanText(v, unescape)
    ensures IsNullLike(v) ==> r == None
    ensures r.Some? ==> 3 <= |r.value| && Tidy(r.value) && HasNoTag(r.value)
  {
    if IsNullLike(v) {
      return None;
    }
    var text := unescape(v.s);
    for round := 0 to 5
      invariant text == TagRounds(unescape(v.s), round)
    {
      text := SubTag(text, TagPair);
      text := SubTag(text, SingleTag);
    }
    text := StripSpaces(CollapseSpaces(text));
    ghost var normalised := text;
    assert normalised == Normalise(v.s, unescape);
    for k := 0 to |AbstractPrefixes|
      invariant text == DropPrefixes(normalised, AbstractPrefixes[..k])
    {
      var prefix := AbstractPrefixes[k];
      DropPrefixesStep(normalised, AbstractPrefixes, k);
      if StartsWith(text, prefix) {
        text := StripSpaces(text[|prefix|..]);
        if StartsWith(text, ":") || StartsWith(text, "-") {
          text := StripSpaces(text[1..]);
        }
      }
    }
    assert AbstractPrefixes[..|AbstractPrefixes|] == AbstractPrefixes;
    if |text| < 3 {
      return None;
    }
    return Some(text);
  }

  // ---------------------------------------------------------------------------
  // Noise patterns of clean_affiliation_text

  predicate IsDelimiter(c: char) {
    c == ';' || c == ',' || c == '.'
  }

  /** A character of the text matches the lower-case pattern character `p` under re.IGNORECASE. */
  predicate FoldsTo(c: char, p: char) {
    || c == p
    || ('A' <= c <= 'Z' && c as int + 32 == p as int)
    || (p == 'i' && (c == '\U{0130}' || c == '\U{0131}'))
    || (p == 's' && c == '\U{017F}')
    || (p == 'k' && c == '\U{212A}')
  }

  lemma FoldKind(c: char, p: char)
    requires FoldsTo(c, p)
    ensures !IsSpace(p) ==> !IsSpace(c)
    ensures !IsDelimiter(p) ==> !IsDelimiter(c)
  {
  }

  /** The keyword `kw` (lower case) occurs at `i`, ignoring case. */
  predicate KeywordAt(s: string, i: nat, kw: string) {
    i + |kw| <= |s| && forall m :: 0 <= m < |kw| ==> FoldsTo(s[i + m], kw[m])
  }

  /** Some occurrence of `kw` starts in [i, j) and ends by `j`. */
  predicate OccursBetween(s: string, i: nat, j: nat, kw: string)
    decreases j - i
  {
    i + |kw| <= j && (KeywordAt(s, i, kw) || OccursBetween(s, i + 1, j, kw))
  }

  lemma {:induction false} OccursBetweenMeans(s: string, i: nat, j: nat, kw: string)
    ensures OccursBetween(s, i, j, kw) <==> exists m :: i <= m && m + |kw| <= j && KeywordAt(s, m, kw)
    decreases j - i
  {
    if i + |kw| <= j {
      OccursBetweenMeans(s, i + 1, j, kw);
      if exists m :: i <= m && m + |kw| <= j && KeywordAt(s, m, kw) {
        var m :| i <= m && m + |kw| <= j && KeywordAt(s, m, kw);
        if m > i {
          assert i + 1 <= m;
        }
      }
    }
  }

  /**
   * The ten noise patterns: `\s*<key>\s*[^\s;,\.]+` (a key and the value after it),
   * `\s*<key>[^;,\.]*` (a key and the rest of its clause), and
   * `\s*\*[^;,\.]*correspondence[^;,\.]*` (a starred clause that mentions correspondence).
   * Labels are kept in lower case; matching ignores case.
   */
  datatype NoisePattern =
    | LabelledValue(key: string)
    | LabelledClause(key: string)
    | StarredCorrespondence

  predicate NoDelimiters(l: string) {
    forall m :: 0 <= m < |l| ==> !IsDelimiter(l[m])
  }

  lemma NoDelimitersConcat(a: string, b: string)
    requires NoDelimiters(a) && NoDelimiters(b)
    ensures NoDelimiters(a + b)
  {
    forall m | |a| <= m < |a + b| ensures !IsDelimiter((a + b)[m]) {
      assert (a + b)[m] == b[m - |a|];
    }
  }

  /** Every pattern needs at least one character: a labelled pattern has a non-empty label. */
  predicate PatternValid(p: NoisePattern) {
    !p.StarredCorrespondence? ==> p.key != []
  }

  /**
   * A clause label that cannot run into the removed text's neighbours: it starts with
   * a non-space character and holds no delimiter.
   */
  predicate ClauseKey(key: string) {
    key != [] && !IsSpace(key[0]) && NoDelimiters(key)
  }

  /** The patterns of clean_affiliation_text, in the order it applies them. */
  const NoisePatterns: seq<NoisePattern> := [
    LabelledValue("electronic address:"),
    LabelledValue("e-mail:"),
    LabelledValue("email:"),
    LabelledValue("tel:"),
    LabelledValue("phone:"),
    LabelledValue("fax:"),
    LabelledClause("corresponding author"),
    LabelledClause("↑"),
    LabelledClause("author to whom correspondence should be addressed"),
    StarredCorrespondence
  ]

  lemma NoisePatternsValid()
    ensures forall k :: 0 <= k < |NoisePatterns| ==> PatternValid(NoisePatterns[k])
  {
  }

  /** The three clause labels of clean_affiliation_text qualify for ClauseRemovalLeavesNoLabel. */
  lemma CorrespondingAuthorKey()
    ensures ClauseKey("corresponding author")
  {
    var a, b := "corresponding", " author";
    assert NoDelimiters(a) && NoDelimiters(b);
    NoDelimitersConcat(a, b);
    assert a + b == "corresponding author";
  }

  lemma ArrowKey()
    ensures ClauseKey("↑")
  {
  }

  lemma AddressedKey()
    ensures ClauseKey("author to whom correspondence should be addressed")
  {
    var a, b := "author to whom", " correspondence should be addressed";
    AddressedKeyHead();
    AddressedKeyTail();
    NoDelimitersConcat(a, b);
    AddressedKeyHalves();
  }

  lemma AddressedKeyHead()
    ensures NoDelimiters("author to whom")
  {
    var a, b := "author", " to whom";
    assert NoDelimiters(a) && NoDelimiters(b);
    NoDelimitersConcat(a, b);
    assert a + b == "author to whom";
  }

  lemma AddressedKeyTail()
    ensures NoDelimiters(" correspondence should be addressed")
  {
    var c, d := " correspondence", " should be addressed";
    assert NoDelimiters(c) && NoDelimiters(d);
    NoDelimitersConcat(c, d);
    assert c + d == " correspondence should be addressed";
  }

  lemma AddressedKeyHalves()
    ensures "author to whom" + " correspondence should be addressed"
      == "author to whom correspondence should be addressed"
  {
  }

  /**
   * Where a match of `p` that starts at position 0 of `s` ends. The leading `\s*`
   * takes the whole whitespace run, since no pattern goes on with whitespace; the
   * greedy character classes take their whole run, and `[^\s;,\.]+` needs one
   * character of it.
   */
  function NoiseEnd(s: string, p: NoisePattern): (e: Option<nat>)
    requires PatternValid(p)
    ensures e.Some? ==> 0 < e.value <= |s|
    ensures e.Some? && !p.LabelledValue? ==> e.value == |s| || IsDelimiter(s[e.value])
  {
    var w := Span(s, 0, Space);
    match p
    case LabelledValue(key) =>
      if KeywordAt(s, w, key) then
        var q := Span(s, w + |key|, Space);
        if q < |s| && InClass(s[q], AddressChar) then Some(Span(s, q, AddressChar)) else None
      else None
    case LabelledClause(key) =>
      if KeywordAt(s, w, key) then Some(Span(s, w + |key|, NotDelimiter)) else None
    case StarredCorrespondence =>
      if w < |s| && s[w] == '*' then
        var d := Span(s, w + 1, NotDelimiter);
        if OccursBetween(s, w + 1, d, "correspondence") then Some(d) else None
      else None
  }

  /** re.sub(p, '', s, flags=re.IGNORECASE). */
  function RemoveNoise(s: string, p: NoisePattern): (r: string)
    requires PatternValid(p)
    ensures |r| <= |s|
    decreases |s|
  {
    if s == [] then []
    else match NoiseEnd(s, p)
      case Some(e) => RemoveNoise(s[e..], p)
      case None => [s[0]] + RemoveNoise(s[1..], p)
  }

  lemma RemoveNoiseMatch(s: string, p: NoisePattern, e: nat)
    requires PatternValid(p) && s != [] && NoiseEnd(s, p) == Some(e)
    ensures RemoveNoise(s, p) == RemoveNoise(s[e..], p)
  {
  }

  lemma RemoveNoiseCopy(s: string, p: NoisePattern)
    requires PatternValid(p) && s != [] && NoiseEnd(s, p) == None
    ensures RemoveNoise(s, p) == [s[0]] + RemoveNoise(s[1..], p)
  {
  }

  /** A text in which the pattern matches nowhere comes back unchanged. */
  lemma {:induction false} RemoveNoiseOfNoiseFree(s: string, p: NoisePattern)
    requires PatternValid(p)
    requires forall i :: 0 <= i < |s| ==> NoiseEnd(s[i..], p).None?
    ensures RemoveNoise(s, p) == s
    decreases |s|
  {
    if s != [] {
      assert NoiseEnd(s[0..], p).None?;
      assert s[0..] == s;
      forall i | 0 <= i < |s[1..]| ensures NoiseEnd(s[1..][i..], p).None? {
        assert s[1..][i..] == s[i + 1..];
      }
      RemoveNoiseOfNoiseFree(s[1..], p);
      assert s == [s[0]] + s[1..];
    }
  }

  lemma AddressMatch(key: string, address: string, rest: string)
    requires key != [] && 'a' <= key[0] <= 'z'
    requires address != [] && forall m :: 0 <= m < |address| ==> InClass(address[m], AddressChar)
    ensures NoiseEnd(key + address + "." + rest, LabelledValue(key)) == Some(|key| + |address|)
  {
    var s := key + address + "." + rest;
    AddressLayout(key, address, rest);
    AddressSpans(s, key, address);
    LabelledValueEnd(s, key, |key| + |address|);
  }

  /** Where the label, the value and the dot sit in `key + address + "." + rest`. */
  lemma AddressLayout(key: string, address: string, rest: string)
    ensures var s, n := key + address + "." + rest, |key|;
      && |s| > n + |address|
      && (forall m :: 0 <= m < n ==> s[m] == key[m])
      && (forall m :: n <= m < n + |address| ==> s[m] == address[m - n])
      && s[n + |address|] == '.'
  {
  }

  /** The spans the address pattern takes over a label, a value and a dot. */
  lemma AddressSpans(s: string, key: string, address: string)
    requires key != [] && 'a' <= key[0] <= 'z'
    requires address != [] && forall m :: 0 <= m < |address| ==> InClass(address[m], AddressChar)
    requires |s| > |key| + |address|
    requires forall m :: 0 <= m < |key| ==> s[m] == key[m]
    requires forall m :: |key| <= m < |key| + |address| ==> s[m] == address[m - |key|]
    requires s[|key| + |address|] == '.'
    ensures Span(s, 0, Space) == 0 && KeywordAt(s, 0, key)
    ensures Span(s, |key|, Space) == |key| && InClass(s[|key|], AddressChar)
    ensures Span(s, |key|, AddressChar) == |key| + |address|
  {
    var n, e := |key|, |key| + |address|;
    assert s[0] == key[0];
    assert KeywordAt(s, 0, key) by {
      forall m | 0 <= m < |key| ensures FoldsTo(s[m], key[m]) {
        assert s[m] == key[m];
      }
    }
    assert s[n] == address[0];
    SpanIs(s, n, AddressChar, e);
  }

  /** The address pattern on a text whose label sits at 0 with the value right behind it. */
  lemma LabelledValueEnd(s: string, key: string, e: nat)
    requires key != [] && |key| < |s|
    requires Span(s, 0, Space) == 0 && KeywordAt(s, 0, key)
    requires Span(s, |key|, Space) == |key| && InClass(s[|key|], AddressChar)
    requires Span(s, |key|, AddressChar) == e
    ensures NoiseEnd(s, LabelledValue(key)) == Some(e)
  {
  }

  /** A text that starts with a delimiter keeps it: no pattern starts on one. */
  lemma DelimiterKept(v: string, p: NoisePattern)
    requires PatternValid(p) && p != StarredCorrespondence && !IsDelimiter(p.key[0])
    requires v != [] && IsDelimiter(v[0])
    ensures RemoveNoise(v, p) == [v[0]] + RemoveNoise(v[1..], p)
  {
    assert Span(v, 0, Space) == 0;
    FoldKindDelimiter(v[0], p.key[0]);
    assert !KeywordAt(v, 0, p.key);
  }

  lemma AddressTail(x: string, rest: string)
    ensures (x + "." + rest)[|x|..] == "." + rest && ("." + rest)[1..] == rest
  {
    ConcatAssoc(x, ".", rest);
  }

  /** The address pattern stops at the first '.', ',' or ';': what follows is kept. */
  lemma AddressStopsAtDot(key: string, address: string, rest: string)
    requires key != [] && 'a' <= key[0] <= 'z'
    requires address != [] && forall m :: 0 <= m < |address| ==> InClass(address[m], AddressChar)
    ensures RemoveNoise(key + address + "." + rest, LabelledValue(key))
      == "." + RemoveNoise(rest, LabelledValue(key))
  {
    var p := LabelledValue(key);
    var s := key + address + "." + rest;
    AddressMatch(key, address, rest);
    var t := s[|key| + |address|..];
    RemoveNoiseMatch(s, p, |key| + |address|);
    AddressTail(key + address, rest);
    assert !IsDelimiter(key[0]);
    DelimiterKept(t, p);
  }

  /** What a delimiter-bounded removal leaves: the text as it was, up to the first delimiter. */
  lemma {:induction false} ClauseRemovalPrefix(u: string, key: string, k: nat)
    requires ClauseKey(key)
    requires k <= |RemoveNoise(u, LabelledClause(key))|
    ensures var r := RemoveNoise(u, LabelledClause(key));
      || (k <= |u| && r[..k] == u[..k])
      || exists j :: 0 <= j < k && IsDelimiter(r[j])
    decreases |u|
  {
    var p := LabelledClause(key);
    var r := RemoveNoise(u, p);
    if u != [] && k > 0 {
      var ne := NoiseEnd(u, p);
      if ne.Some? {
        var v := u[ne.value..];
        assert r == RemoveNoise(v, p);
        DelimiterKept(v, p);
        assert IsDelimiter(r[0]);
      } else {
        ClauseRemovalPrefix(u[1..], key, k - 1);
        var t := RemoveNoise(u[1..], p);
        assert r == [u[0]] + t;
        if k - 1 <= |u[1..]| && t[..k - 1] == u[1..][..k - 1] {
          assert r[..k] == u[..k];
        } else {
          var j :| 0 <= j < k - 1 && IsDelimiter(t[j]);
          assert IsDelimiter(r[j + 1]);
        }
      }
    }
  }

  lemma FoldKindDelimiter(c: char, p: char)
    requires IsDelimiter(c) && !IsDelimiter(p)
    ensures !FoldsTo(c, p)
  {
  }

  lemma KeywordAtCons(c: char, t: string, i: nat, key: string)
    requires 0 < i
    ensures KeywordAt([c] + t, i, key) <==> KeywordAt(t, i - 1, key)
  {
    var r := [c] + t;
    if KeywordAt(t, i - 1, key) {
      forall m | 0 <= m < |key| ensures FoldsTo(r[i + m], key[m]) {
        assert r[i + m] == t[i - 1 + m];
      }
    }
    if KeywordAt(r, i, key) {
      forall m | 0 <= m < |key| ensures FoldsTo(t[i - 1 + m], key[m]) {
        assert r[i + m] == t[i - 1 + m];
      }
    }
  }

  lemma KeywordAtSamePrefix(r: string, s: string, n: nat, key: string)
    requires |key| <= n <= |r| && n <= |s| && r[..n] == s[..n]
    ensures KeywordAt(r, 0, key) <==> KeywordAt(s, 0, key)
  {
    assert forall m :: 0 <= m < |key| ==> r[m] == r[..n][m] && s[m] == s[..n][m];
  }

  /** After removing a labelled clause, the key occurs nowhere in the text, in any case. */
  lemma {:induction false} ClauseRemovalLeavesNoLabel(s: string, key: string, i: nat)
    requires ClauseKey(key)
    ensures !KeywordAt(RemoveNoise(s, LabelledClause(key)), i, key)
    decreases |s|
  {
    var p := LabelledClause(key);
    if s != [] {
      var ne := NoiseEnd(s, p);
      if ne.Some? {
        RemoveNoiseMatch(s, p, ne.value);
        ClauseRemovalLeavesNoLabel(s[ne.value..], key, i);
      } else if i > 0 {
        RemoveNoiseCopy(s, p);
        ClauseRemovalLeavesNoLabel(s[1..], key, i - 1);
        KeywordAtCons(s[0], RemoveNoise(s[1..], p), i, key);
      } else {
        NoLabelAtStart(s, key);
      }
    }
  }

  /** Where no clause starts, the first characters kept cannot spell the key. */
  lemma NoLabelAtStart(s: string, key: string)
    requires ClauseKey(key) && s != [] && NoiseEnd(s, LabelledClause(key)).None?
    ensures !KeywordAt(RemoveNoise(s, LabelledClause(key)), 0, key)
  {
    var p := LabelledClause(key);
    var t := RemoveNoise(s[1..], p);
    RemoveNoiseCopy(s, p);
    if IsSpace(s[0]) {
      FoldKindSpace(s[0], key[0]);
      assert ([s[0]] + t)[0] == s[0];
    } else if |key| <= 1 + |t| {
      assert Span(s, 0, Space) == 0;
      ClauseRemovalPrefix(s[1..], key, |key| - 1);
      NoLabelAfterCopy(s, t, key);
    }
  }

  /**
   * The key does not start a text; a copy of its first character followed by `t`,
   * that agrees with the text up to the key's length or holds a delimiter by then,
   * does not start with the key either.
   */
  lemma NoLabelAfterCopy(s: string, t: string, key: string)
    requires ClauseKey(key) && s != [] && !KeywordAt(s, 0, key) && |key| - 1 <= |t|
    requires || (|key| - 1 <= |s[1..]| && t[..|key| - 1] == s[1..][..|key| - 1])
             || exists j :: 0 <= j < |key| - 1 && IsDelimiter(t[j])
    ensures !KeywordAt([s[0]] + t, 0, key)
  {
    var r := [s[0]] + t;
    if |key| - 1 <= |s[1..]| && t[..|key| - 1] == s[1..][..|key| - 1] {
      ConsPrefix(s, t, |key|);
      KeywordAtSamePrefix(r, s, |key|, key);
    } else {
      var j :| 0 <= j < |key| - 1 && IsDelimiter(t[j]);
      assert r[j + 1] == t[j];
      FoldKindDelimiter(r[j + 1], key[j + 1]);
    }
  }

  lemma ConsPrefix(s: string, t: string, n: nat)
    requires 1 <= n <= |s| && n - 1 <= |t| && t[..n - 1] == s[1..][..n - 1]
    ensures ([s[0]] + t)[..n] == s[..n]
  {
    var r := [s[0]] + t;
    forall m | 1 <= m < n ensures r[m] == s[m] {
      assert r[m] == t[..n - 1][m - 1] && s[m] == s[1..][..n - 1][m - 1];
    }
  }

  lemma FoldKindSpace(c: char, p: char)
    requires IsSpace(c) && !IsSpace(p)
    ensures !FoldsTo(c, p)
  {
  }

  /** The loop over the noise patterns, applied in order. */
  function RemoveAllNoise(s: string, patterns: seq<NoisePattern>): (r: string)
    requires forall k :: 0 <= k < |patterns| ==> PatternValid(patterns[k])
    ensures |r| <= |s|
  {
    if patterns == [] then s
    else RemoveNoise(RemoveAllNoise(s, patterns[..|patterns| - 1]), patterns[|patterns| - 1])
  }

  /** One more pass of the pattern loop. */
  lemma RemoveAllNoiseStep(s: string, patterns: seq<NoisePattern>, k: nat)
    requires k < |patterns| && forall i :: 0 <= i < |patterns| ==> PatternValid(patterns[i])
    ensures RemoveAllNoise(s, patterns[..k + 1]) == RemoveNoise(RemoveAllNoise(s, patterns[..k]), patterns[k])
  {
    assert patterns[..k + 1][..k] == patterns[..k];
  }

  // ---------------------------------------------------------------------------
  // Separator and whitespace normalisation of clean_affiliation_text

  /** A run of whitespace (possibly empty) at the start of `s` is followed by a ';'. */
  predicate SemicolonAhead(s: string) {
    var w := Span(s, 0, Space);
    w < |s| && s[w] == ';'
  }

  /** re.sub(r'\s*;\s*', ';', s). */
  function JoinSemicolons(s: string): string
    decreases |s|
  {
    if s == [] then []
    else if SemicolonAhead(s) then
      ";" + JoinSemicolons(s[Span(s, Span(s, 0, Space) + 1, Space)..])
    else [s[0]] + JoinSemicolons(s[1..])
  }

  lemma JoinHead(s: string)
    requires s != []
    ensures JoinSemicolons(s) != []
    ensures SemicolonAhead(s) ==> JoinSemicolons(s)[0] == ';'
    ensures !SemicolonAhead(s) ==> JoinSemicolons(s)[0] == s[0]
  {
  }

  /** A leading whitespace character does not change whether a ';' is ahead. */
  lemma SemicolonAheadPastSpace(s: string)
    requires |s| > 1 && IsSpace(s[0])
    ensures SemicolonAhead(s[1..]) <==> SemicolonAhead(s)
  {
    SpanDrop(s, 1, Space);
    assert Span(s, 0, Space) == Span(s, 1, Space);
    var w := Span(s, 0, Space);
    if w < |s| {
      assert s[1..][w - 1] == s[w];
    }
  }

  /** After the ';' rewrite, no whitespace character touches a ';'. */
  lemma {:induction false} JoinLeavesNoSpaceBeside(s: string)
    ensures NoSpaceBeside(JoinSemicolons(s), ';')
    decreases |s|
  {
    if s != [] {
      if SemicolonAhead(s) {
        var u := s[Span(s, Span(s, 0, Space) + 1, Space)..];
        JoinLeavesNoSpaceBeside(u);
        JoinAheadStep(s, u);
      } else {
        JoinLeavesNoSpaceBeside(s[1..]);
        JoinCopyStep(s);
      }
    }
  }

  /** The ';' case: a ';' in front of a text with no whitespace beside a ';' and none at its head. */
  lemma JoinAheadStep(s: string, u: string)
    requires s != [] && SemicolonAhead(s)
    requires u == s[Span(s, Span(s, 0, Space) + 1, Space)..]
    requires NoSpaceBeside(JoinSemicolons(u), ';')
    ensures NoSpaceBeside(JoinSemicolons(s), ';')
  {
    if u != [] {
      JoinHead(u);
    }
    NoSpaceBesideCons(';', JoinSemicolons(u), ';');
  }

  /** The copy case: the first character is kept, and it is neither ';' nor whitespace before one. */
  lemma JoinCopyStep(s: string)
    requires s != [] && !SemicolonAhead(s)
    requires NoSpaceBeside(JoinSemicolons(s[1..]), ';')
    ensures NoSpaceBeside(JoinSemicolons(s), ';')
  {
    var t := JoinSemicolons(s[1..]);
    assert JoinSemicolons(s) == [s[0]] + t;
    SemicolonNotSpace();
    if !IsSpace(s[0]) {
      NonSpaceAhead(s);
    } else if t != [] {
      SemicolonAheadPastSpace(s);
      JoinHead(s[1..]);
      if !IsSpace(s[1]) {
        NonSpaceAhead(s[1..]);
      }
    }
    NoSpaceBesideCons(s[0], t, ';');
  }

  lemma SemicolonNotSpace()
    ensures !IsSpace(';')
  {
  }

  /** A text that starts with a non-space character has a ';' ahead when it starts with one. */
  lemma NonSpaceAhead(s: string)
    requires s != [] && !IsSpace(s[0])
    ensures SemicolonAhead(s) <==> s[0] == ';'
  {
    assert Span(s, 0, Space) == 0;
  }

  /** The final normalisation: the ';' rewrite, whitespace collapse, then strip(), strip(';'), strip(). */
  function TidyAffiliation(s: string): string {
    StripSpaces(Strip(StripSpaces(CollapseSpaces(JoinSemicolons(s))), Semicolon))
  }

  /** strip(';') of a trimmed text with no whitespace beside a ';' leaves nothing for the last strip(). */
  lemma StripSemicolonsOfTidy(x: string)
    requires TrimmedEnds(x) && NoSpaceBeside(x, ';')
    ensures var y := Strip(x, Semicolon); y != [] ==> !IsSpace(y[0]) && !IsSpace(y[|y| - 1])
  {
    var y := Strip(x, Semicolon);
    var a := Span(x, 0, Semicolon);
    if y != [] {
      var b := a + |y|;
      assert y[0] == x[a];
      if a > 0 {
        assert x[a - 1] == ';';
      }
      assert y[|y| - 1] == x[b - 1];
      if b < |x| {
        assert x[b] == ';';
      }
    }
  }

  lemma TidyAffiliationShape(s: string)
    ensures var r := TidyAffiliation(s);
      && TrimmedEnds(r) && OnlyPlainSpaces(r) && NoDoubleSpace(r) && NoSpaceBeside(r, ';')
      && (r != [] ==> r[0] != ';' && r[|r| - 1] != ';')
  {
    var j := JoinSemicolons(s);
    JoinLeavesNoSpaceBeside(s);
    var c := CollapseSpaces(j);
    CollapseShape(j);
    CollapseKeepsSemicolons(j);
    var x := StripSpaces(c);
    StripKeeps(c);
    var y := Strip(x, Semicolon);
    StripSemicolonsKeeps(x);
    StripSemicolonsOfTidy(x);
    if y != [] {
      StripOfTrimmed(y);
    }
  }

  // ---------------------------------------------------------------------------
  // clean_affiliation_text

  /** The values the first check of clean_affiliation_text turns into None. */
  predicate IsBlank(v: Cell) {
    v.Missing? || v.s == "" || StripSpaces(v.s) == ""
  }

  /**
   * clean_affiliation_text: None for missing, empty and blank values; otherwise the
   * text without its noise, with no whitespace around ';', single plain spaces, and
   * no whitespace or ';' at either end; None when nothing is left.
   */
  function CleanAffiliation(v: Cell): (r: Option<string>)
    ensures IsBlank(v) ==> r == None
    ensures r.Some? ==> r.value != [] && Tidy(r.value) && NoSpaceBeside(r.value, ';')
    ensures r.Some? ==> r.value[0] != ';' && r.value[|r.value| - 1] != ';'
  {
    if IsBlank(v) then None
    else
      NoisePatternsValid();
      var t := TidyAffiliation(RemoveAllNoise(v.s, NoisePatterns));
      TidyAffiliationShape(RemoveAllNoise(v.s, NoisePatterns));
      if t == [] then None else Some(t)
  }

  /** The loop of clean_affiliation_text over its noise patterns, then the normalisation. */
  method CleanAffiliationText(v: Cell) returns (r: Option<string>)
    ensures r == CleanAffiliation(v)
    ensures IsBlank(v) ==> r == None
    ensures r.Some? ==> r.value != [] && Tidy(r.value) && NoSpaceBeside(r.value, ';')
  {
    if IsBlank(v) {
      return None;
    }
    NoisePatternsValid();
    var text := v.s;
    for k := 0 to |NoisePatterns|
      invariant text == RemoveAllNoise(v.s, NoisePatterns[..k])
    {
      RemoveAllNoiseStep(v.s, NoisePatterns, k);
      text := RemoveNoise(text, NoisePatterns[k]);
    }
    assert NoisePatterns[..|NoisePatterns|] == NoisePatterns;
    ghost var denoised := text;
    text := JoinSemicolons(text);
    text := CollapseSpaces(text);
    text := StripSpaces(Strip(StripSpaces(text), Semicolon));
    assert text == TidyAffiliation(denoised);
    if text == [] {
      return None;
    }
    return Some(text);
  }
}
