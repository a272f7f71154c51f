/**
 * The label step of the pipeline: a suggested label per topic from its
 * heaviest terms, and the overrides file written over the suggestions key by
 * key. The table and the overrides file's entries are parameters; writing
 * topic_labels.json is not part of this model.
 */
module LabelTopics {
  import opened Wrappers
  import opened PyStrings
  import opened PyTables
  import opened LabelMaps
  import opened TopicTerms

  // ---------------------------------------------------------------------------
  // generate_labels_suggestion
  // ---------------------------------------------------------------------------

  function RowTerm(row: TermRow): string {
    row.term
  }

  /** ' / '.join of the terms of the topk heaviest rows of one topic, heaviest first. */
  function SuggestedLabel(rows: seq<TermRow>, id: int, topk: int): string {
    Join(Map(Largest(Group(rows, id), topk), RowTerm), " / ")
  }

  /** The dict after the loop has visited `ids` in order. */
  function SuggestFor(rows: seq<TermRow>, ids: seq<int>, topk: int): map<int, string> {
    if ids == [] then map[]
    else
      var id := ids[|ids| - 1];
      SuggestFor(rows, ids[..|ids| - 1], topk)[id := SuggestedLabel(rows, id, topk)]
  }

  function Suggestion(rows: seq<TermRow>, topk: int): map<int, string> {
    SuggestFor(rows, TopicIds(rows), topk)
  }

  lemma {:induction false} SuggestForKeys(rows: seq<TermRow>, ids: seq<int>, topk: int)
    ensures forall k :: k in SuggestFor(rows, ids, topk) <==> k in ids
    ensures forall k :: k in SuggestFor(rows, ids, topk) ==>
      SuggestFor(rows, ids, topk)[k] == SuggestedLabel(rows, k, topk)
  {
    if ids != [] {
      var init := ids[..|ids| - 1];
      SuggestForKeys(rows, init, topk);
      assert ids == init + [ids[|ids| - 1]];
    }
  }

  /** Exactly one label per distinct topic id of the table, each that topic's suggestion. */
  lemma SuggestionSpec(rows: seq<TermRow>, topk: int)
    ensures forall k :: k in Suggestion(rows, topk) <==> exists i :: 0 <= i < |rows| && rows[i].topicId == k
    ensures forall k :: k in Suggestion(rows, topk) ==> Suggestion(rows, topk)[k] == SuggestedLabel(rows, k, topk)
  {
    SuggestForKeys(rows, TopicIds(rows), topk);
  }

  /**
   * A suggested label for a topic with rows starts with the term of a heaviest
   * row of that topic, and joins min(topk, rows of the topic) terms.
   */
  lemma SuggestedLabelShape(rows: seq<TermRow>, id: int, topk: int, j: nat)
    requires 1 <= topk && j < |rows| && rows[j].topicId == id
    ensures var kept := Largest(Group(rows, id), topk);
      && |kept| == (if topk < |Group(rows, id)| then topk else |Group(rows, id)|)
      && StartsWith(SuggestedLabel(rows, id, topk), kept[0].term)
      && rows[j].weight <= kept[0].weight
  {
    var group := Group(rows, id);
    LargestSpec(group, topk);
    LargestHead(group, topk, rows[j]);
    JoinHead(Map(Largest(group, topk), RowTerm), " / ");
  }

  /** A join of at least one part starts with the first part. */
  lemma JoinHead(parts: seq<string>, sep: string)
    requires |parts| >= 1
    ensures StartsWith(Join(parts, sep), parts[0])
  {
    if |parts| > 1 {
      var r := Join(parts, sep);
      assert r[..|parts[0] + sep|] == parts[0] + sep;
      assert r[..|parts[0]|] == (parts[0] + sep)[..|parts[0]|];
    }
  }

  lemma SuggestStep(rows: seq<TermRow>, ids: seq<int>, topk: int, i: nat)
    requires i < |ids|
    ensures SuggestFor(rows, ids[..i + 1], topk)
      == SuggestFor(rows, ids[..i], topk)[ids[i] := SuggestedLabel(rows, ids[i], topk)]
  {
    assert ids[..i + 1][..i] == ids[..i];
  }

  method GenerateLabelsSuggestion(rows: seq<TermRow>, topk: int) returns (labels: map<int, string>)
    ensures labels == Suggestion(rows, topk)
  {
    var ids := TopicIds(rows);
    labels := map[];
    for i := 0 to |ids|
      invariant labels == SuggestFor(rows, ids[..i], topk)
    {
      SuggestStep(rows, ids, topk, i);
      var terms := Map(Largest(Group(rows, ids[i]), topk), RowTerm);
      labels := labels[ids[i] := Join(terms, " / ")];
    }
    assert ids[..|ids|] == ids;
  }

  // ---------------------------------------------------------------------------
  // persist_labels
  // ---------------------------------------------------------------------------

  /** int(k) raised on this key. */
  datatype ValueError = ValueError(key: string)

  /** The override entries with int(k) applied to each key, stopping at the first that raises. */
  function ParseKeys(entries: seq<(string, string)>): (r: Result<seq<(int, string)>, ValueError>)
    ensures r.Success? ==> |r.value| == |entries|
    ensures r.Success? ==> forall i :: 0 <= i < |entries| ==>
      ParseInt(entries[i].0) == Some(r.value[i].0) && r.value[i].1 == entries[i].1
    ensures r.Success? <==> forall i :: 0 <= i < |entries| ==> ParseInt(entries[i].0).Some?
  {
    if entries == [] then Success([])
    else
      var init := entries[..|entries| - 1];
      var last := entries[|entries| - 1];
      assert forall i :: 0 <= i < |init| ==> init[i] == entries[i];
      match ParseKeys(init)
      case Failure(e) => Failure(e)
      case Success(pairs) =>
        match ParseInt(last.0)
        case None => Failure(ValueError(last.0))
        case Some(k) => Success(pairs + [(k, last.1)])
  }

  /** What persist_labels writes: the copy of `labels` with the overrides applied. */
  function Persisted(labels: map<int, string>, overrides: Option<seq<(string, string)>>)
    : (r: Result<map<int, string>, ValueError>)
    ensures overrides.None? ==> r == Success(labels)
  {
    match overrides
    case None => Success(labels)
    case Some(entries) =>
      match ParseKeys(entries)
      case Failure(e) => Failure(e)
      case Success(pairs) => Success(Override(labels, pairs))
  }

  /** Once a prefix raises, the whole loop raises the same error. */
  lemma {:induction false} ParseKeysFailurePersists(entries: seq<(string, string)>, i: nat)
    requires i <= |entries| && ParseKeys(entries[..i]).Failure?
    ensures ParseKeys(entries) == ParseKeys(entries[..i])
    decreases |entries| - i
  {
    if i < |entries| {
      ParseKeysFailureStep(entries, i);
      ParseKeysFailurePersists(entries, i + 1);
    } else {
      assert entries[..i] == entries;
    }
  }

  lemma ParseKeysFailureStep(entries: seq<(string, string)>, i: nat)
    requires i < |entries| && ParseKeys(entries[..i]).Failure?
    ensures ParseKeys(entries[..i + 1]) == ParseKeys(entries[..i])
  {
    assert entries[..i + 1][..i] == entries[..i];
  }

  /** One more entry of the overrides loop. */
  lemma PersistStep(labels: map<int, string>, entries: seq<(string, string)>, i: nat)
    requires i < |entries| && ParseKeys(entries[..i]).Success?
    ensures ParseInt(entries[i].0).None? ==> ParseKeys(entries[..i + 1]) == Failure(ValueError(entries[i].0))
    ensures ParseInt(entries[i].0).Some? ==>
      && ParseKeys(entries[..i + 1]).Success?
      && Override(labels, ParseKeys(entries[..i + 1]).value)
        == Override(labels, ParseKeys(entries[..i]).value)[ParseInt(entries[i].0).value := entries[i].1]
  {
    assert entries[..i + 1][..i] == entries[..i];
    if ParseInt(entries[i].0).Some? {
      var pairs := ParseKeys(entries[..i]).value;
      var next := pairs + [(ParseInt(entries[i].0).value, entries[i].1)];
      assert ParseKeys(entries[..i + 1]).value == next;
      assert next[..|next| - 1] == pairs;
    }
  }

  method PersistLabels(labels: map<int, string>, overrides: Option<seq<(string, string)>>)
    returns (r: Result<map<int, string>, ValueError>)
    ensures r == Persisted(labels, overrides)
  {
    var finalLabels := labels;
    if overrides.Some? {
      var entries := overrides.value;
      for i := 0 to |entries|
        invariant ParseKeys(entries[..i]).Success?
        invariant finalLabels == Override(labels, ParseKeys(entries[..i]).value)
      {
        var k := ParseInt(entries[i].0);
        PersistStep(labels, entries, i);
        if k.None? {
          ParseKeysFailurePersists(entries, i + 1);
          return Failure(ValueError(entries[i].0));
        }
        finalLabels := finalLabels[k.value := entries[i].1];
      }
      assert entries[..|entries|] == entries;
    }
    return Success(finalLabels);
  }

  /**
   * With overrides that all convert: the keys are the suggested keys plus the
   * converted override keys, the last override of a key wins, and every key
   * without an override keeps its suggested label.
   */
  lemma PersistedSpec(labels: map<int, string>, entries: seq<(string, string)>)
    requires forall i :: 0 <= i < |entries| ==> ParseInt(entries[i].0).Some?
    ensures Persisted(labels, Some(entries)).Success?
    ensures forall k :: k in Persisted(labels, Some(entries)).value <==>
      k in labels || exists i :: 0 <= i < |entries| && ParseInt(entries[i].0) == Some(k)
    ensures forall i :: (0 <= i < |entries| &&
      (forall j :: i < j < |entries| ==> ParseInt(entries[j].0) != ParseInt(entries[i].0))) ==>
      Persisted(labels, Some(entries)).value[ParseInt(entries[i].0).value] == entries[i].1
    ensures forall k :: k in labels && (forall i :: 0 <= i < |entries| ==> ParseInt(entries[i].0) != Some(k)) ==>
      Persisted(labels, Some(entries)).value[k] == labels[k]
  {
    var pairs := ParseKeys(entries).value;
    var m := Override(labels, pairs);
    forall k ensures k in m <==> k in labels || exists i :: 0 <= i < |entries| && ParseInt(entries[i].0) == Some(k) {
      if k in KeysOf(pairs) {
        var i :| 0 <= i < |pairs| && pairs[i].0 == k;
        assert ParseInt(entries[i].0) == Some(k);
      }
    }
    forall i | 0 <= i < |entries| && (forall j :: i < j < |entries| ==> ParseInt(entries[j].0) != ParseInt(entries[i].0))
      ensures m[ParseInt(entries[i].0).value] == entries[i].1
    {
      assert forall j :: i < j < |pairs| ==> pairs[j].0 != pairs[i].0 by {
        forall j | i < j < |pairs| ensures pairs[j].0 != pairs[i].0 {
          assert ParseInt(entries[j].0) == Some(pairs[j].0);
        }
      }
      OverrideLastWins(labels, pairs, i);
    }
    forall k | k in labels && (forall i :: 0 <= i < |entries| ==> ParseInt(entries[i].0) != Some(k))
      ensures m[k] == labels[k]
    {
      assert forall i :: 0 <= i < |pairs| ==> ParseInt(entries[i].0) == Some(pairs[i].0);
      OverrideUntouched(labels, pairs, k);
    }
  }
}
