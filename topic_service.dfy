/**
 * The read-only topic service of the backend: a lazily filled cache of the
 * label dictionary and of the model's tables, and the queries answered from
 * it (the topic list, one topic, the yearly trends, and the detail of one
 * topic in one year). The contents of each file the service would read are
 * passed to the loader as a parameter; `None` stands for a file that does not
 * exist. Weights and trend values are integers.
 */
module TopicServices {
  import opened Wrappers
  import opened PyStrings
  import opened PyTables
  import opened LabelMaps
  import opened TopicTerms

  // ---------------------------------------------------------------------------
  // Labels
  // ---------------------------------------------------------------------------

  /** The hand-written labels of topics 0..14, in the order of their dict literal. */
  const CustomLabels: seq<(int, string)> := [
    (0, "人工智能基础 / AI Fundamentals"),
    (1, "计算机视觉 / Computer Vision"),
    (2, "自然语言处理 / Natural Language Processing"),
    (3, "语音与多模态 / Speech & Multimodal"),
    (4, "机器学习算法与优化 / ML Algorithms & Optimization"),
    (5, "深度学习架构 / Deep Learning Architectures"),
    (6, "数据挖掘与知识图谱 / Data Mining & Knowledge Graph"),
    (7, "推荐系统 / Recommender Systems"),
    (8, "强化学习与规划 / Reinforcement Learning & Planning"),
    (9, "医疗智能 / Healthcare AI"),
    (10, "金融科技智能 / FinTech AI"),
    (11, "智能制造与机器人 / Robotics & Smart Manufacturing"),
    (12, "网络与安全 / Networking & Security"),
    (13, "大模型与AIGC / Foundation Models & AIGC"),
    (14, "云计算与大数据 / Cloud & Big Data")
  ]

  /** The custom labels are keyed 0..14, in order. */
  lemma CustomLabelKeys()
    ensures |CustomLabels| == 15
    ensures forall k :: 0 <= k < 15 ==> CustomLabels[k].0 == k
  {
  }

  /** The dictionary the merge starts from: the file is read only into an empty cache. */
  function LabelBase(current: map<int, string>, file: Option<map<int, string>>): map<int, string> {
    if current == map[] && file.Some? then file.value else current
  }

  /** The labels after `_load_labels`: the custom labels written over the base. */
  function MergedLabels(current: map<int, string>, file: Option<map<int, string>>): map<int, string> {
    Override(LabelBase(current, file), CustomLabels)
  }

  /**
   * After the merge, ids 0..14 carry the custom labels whatever the file or the
   * cache held, every other id keeps its value, and no other id is added.
   */
  lemma MergedLabelsSpec(current: map<int, string>, file: Option<map<int, string>>)
    ensures forall k :: 0 <= k < 15 ==>
      k in MergedLabels(current, file) && MergedLabels(current, file)[k] == CustomLabels[k].1
    ensures forall k :: k in LabelBase(current, file) && !(0 <= k < 15) ==>
      MergedLabels(current, file)[k] == LabelBase(current, file)[k]
    ensures forall k :: k in MergedLabels(current, file) <==> k in LabelBase(current, file) || 0 <= k < 15
  {
    CustomLabelKeys();
    OverrideKeyed(LabelBase(current, file), CustomLabels);
  }

  /** Writing fifteen pairs keyed 0..14 over a dictionary. */
  lemma OverrideKeyed(base: map<int, string>, custom: seq<(int, string)>)
    requires |custom| == 15 && forall k :: 0 <= k < 15 ==> custom[k].0 == k
    ensures forall k :: 0 <= k < 15 ==> k in Override(base, custom) && Override(base, custom)[k] == custom[k].1
    ensures forall k :: k in base && !(0 <= k < 15) ==> Override(base, custom)[k] == base[k]
    ensures forall k :: k in Override(base, custom) <==> k in base || 0 <= k < 15
  {
    forall k | 0 <= k < 15
      ensures k in Override(base, custom) && Override(base, custom)[k] == custom[k].1
    {
      assert custom[k].0 in KeysOf(custom);
      OverrideLastWins(base, custom, k);
    }
    forall k | k in base && !(0 <= k < 15) ensures Override(base, custom)[k] == base[k] {
      OverrideUntouched(base, custom, k);
    }
    forall k | k in KeysOf(custom) ensures 0 <= k < 15 {
      var i :| 0 <= i < |custom| && custom[i].0 == k;
    }
  }

  /** Merging again, whatever the file now holds, changes nothing: the cache is no longer empty. */
  lemma MergeTwice(current: map<int, string>, file: Option<map<int, string>>, file': Option<map<int, string>>)
    ensures MergedLabels(MergedLabels(current, file), file') == MergedLabels(current, file)
  {
    var merged := MergedLabels(current, file);
    assert 0 in KeysOf(CustomLabels) by {
      CustomLabelKeys();
      assert CustomLabels[0].0 in KeysOf(CustomLabels);
    }
    assert merged != map[];
    OverrideAgain(LabelBase(current, file), CustomLabels);
  }

  // ---------------------------------------------------------------------------
  // get_topics and get_topic
  // ---------------------------------------------------------------------------

  /** One entry of `top_terms`. */
  datatype Term = Term(term: string, weight: int)

  datatype Topic = Topic(id: int, topicLabel: string, topTerms: seq<Term>)

  function AsTerm(row: TermRow): Term {
    Term(row.term, row.weight)
  }

  function TermText(t: Term): string {
    t.term
  }

  /** ' / '.join of the first (up to) three terms. */
  function DefaultLabel(terms: seq<Term>): string {
    Join(Map(PyTake(terms, 3), TermText), " / ")
  }

  /** The topic the loop body builds for one group. */
  function MakeTopic(rows: seq<TermRow>, labels: map<int, string>, id: int): Topic {
    var terms := Map(Largest(Group(rows, id), 10), AsTerm);
    Topic(id, Get(labels, id, DefaultLabel(terms)), terms)
  }

  lemma MakeTopicId(rows: seq<TermRow>, labels: map<int, string>, id: int)
    ensures TopicMaker(rows, labels)(id).id == id
  {
  }

  function TopicMaker(rows: seq<TermRow>, labels: map<int, string>): int -> Topic {
    id => MakeTopic(rows, labels, id)
  }

  function TopicKey(t: Topic): int {
    t.id
  }

  /** get_topics: one topic per group, sorted by id, the first fifteen kept. */
  function TopicList(rows: seq<TermRow>, labels: map<int, string>): seq<Topic> {
    PyTake(SortBy(Map(TopicIds(rows), TopicMaker(rows, labels)), TopicKey), 15)
  }

  /** Topics built from ascending ids, one per id, are already in id order. */
  lemma {:induction false} SortedTopics(ids: seq<int>, make: int -> Topic)
    requires StrictlyIncreasing(ids)
    requires forall x :: make(x).id == x
    ensures var r := PyTake(SortBy(Map(ids, make), TopicKey), 15);
      && |r| == (if |ids| < 15 then |ids| else 15)
      && forall i :: 0 <= i < |r| ==> r[i] == make(ids[i]) && r[i].id == ids[i]
  {
    var built := Map(ids, make);
    assert Ascending(built, TopicKey);
    SortByOfAscending(built, TopicKey);
  }

  /** Each id's topic carries that id. */
  lemma MakerKeepsIds(rows: seq<TermRow>, labels: map<int, string>)
    ensures forall x :: TopicMaker(rows, labels)(x).id == x
  {
    forall x ensures TopicMaker(rows, labels)(x).id == x {
      MakeTopicId(rows, labels, x);
    }
  }

  /** The list holds the (up to) fifteen smallest topic ids of the table, ascending. */
  lemma TopicListIds(rows: seq<TermRow>, labels: map<int, string>)
    ensures |TopicList(rows, labels)| == if |TopicIds(rows)| < 15 then |TopicIds(rows)| else 15
    ensures forall i :: 0 <= i < |TopicList(rows, labels)| ==> TopicList(rows, labels)[i].id == TopicIds(rows)[i]
    ensures forall i, j :: 0 <= i < j < |TopicList(rows, labels)| ==>
      TopicList(rows, labels)[i].id < TopicList(rows, labels)[j].id
  {
    var ids, r := TopicIds(rows), TopicList(rows, labels);
    MakerKeepsIds(rows, labels);
    SortedTopics(ids, TopicMaker(rows, labels));
    assert forall i :: 0 <= i < |r| ==> r[i].id == ids[i];
    forall i, j | 0 <= i < j < |r| ensures r[i].id < r[j].id {
      assert r[i].id == ids[i] && r[j].id == ids[j];
    }
  }

  /** Entry i of the list is the topic built from the i-th smallest id. */
  lemma TopicListAt(rows: seq<TermRow>, labels: map<int, string>, i: nat)
    requires i < |TopicList(rows, labels)|
    ensures i < |TopicIds(rows)|
    ensures TopicList(rows, labels)[i] == MakeTopic(rows, labels, TopicIds(rows)[i])
  {
    MakerKeepsIds(rows, labels);
    SortedTopics(TopicIds(rows), TopicMaker(rows, labels));
  }

  /** The terms of the n heaviest rows, as `top_terms` and `terms` list them. */
  lemma TermsOfLargest(group: seq<TermRow>, n: nat)
    ensures var kept := Largest(group, n);
      var terms := Map(kept, AsTerm);
      && |terms| <= n
      && (forall a, b :: 0 <= a < b < |terms| ==> terms[b].weight <= terms[a].weight)
      && (forall y, a :: y in multiset(group) - multiset(kept) && 0 <= a < |terms| ==> y.weight <= terms[a].weight)
  {
    LargestSpec(group, n);
  }

  /**
   * The terms of a listed topic are the ten heaviest rows of its group,
   * heaviest first, and no row of the group left out is heavier than one kept.
   */
  lemma TopicTermsAreLargest(rows: seq<TermRow>, labels: map<int, string>, i: nat)
    requires i < |TopicList(rows, labels)|
    ensures var t := TopicList(rows, labels)[i];
      var kept := Largest(Group(rows, t.id), 10);
      && t.topTerms == Map(kept, AsTerm)
      && |t.topTerms| <= 10
      && (forall a, b :: 0 <= a < b < |t.topTerms| ==> t.topTerms[b].weight <= t.topTerms[a].weight)
      && (forall y, a :: y in multiset(Group(rows, t.id)) - multiset(kept) && 0 <= a < |t.topTerms| ==>
            y.weight <= t.topTerms[a].weight)
  {
    TopicListAt(rows, labels, i);
    MadeTopicTerms(rows, labels, TopicIds(rows)[i]);
  }

  lemma MadeTopicTerms(rows: seq<TermRow>, labels: map<int, string>, id: int)
    ensures var t := MakeTopic(rows, labels, id);
      var kept := Largest(Group(rows, id), 10);
      && t.id == id
      && t.topTerms == Map(kept, AsTerm)
      && |t.topTerms| <= 10
      && (forall a, b :: 0 <= a < b < |t.topTerms| ==> t.topTerms[b].weight <= t.topTerms[a].weight)
      && (forall y, a :: y in multiset(Group(rows, id)) - multiset(kept) && 0 <= a < |t.topTerms| ==>
            y.weight <= t.topTerms[a].weight)
  {
    TermsOfLargest(Group(rows, id), 10);
  }

  /**
   * The label of a listed topic: the custom label for ids 0..14, else the
   * cached label, else its first three terms.
   */
  lemma TopicLabel(current: map<int, string>, file: Option<map<int, string>>, rows: seq<TermRow>, i: nat)
    requires i < |TopicList(rows, MergedLabels(current, file))|
    ensures var t := TopicList(rows, MergedLabels(current, file))[i];
      var base := LabelBase(current, file);
      && (0 <= t.id < 15 ==> t.topicLabel == CustomLabels[t.id].1)
      && (!(0 <= t.id < 15) && t.id in base ==> t.topicLabel == base[t.id])
      && (!(0 <= t.id < 15) && t.id !in base ==> t.topicLabel == DefaultLabel(t.topTerms))
  {
    var labels := MergedLabels(current, file);
    TopicListAt(rows, labels, i);
    MergedLabelsSpec(current, file);
  }

  datatype KeyError = KeyError(message: string)

  /** The first topic of the list with the id, or KeyError. */
  function FindTopic(topics: seq<Topic>, id: int): (r: Result<Topic, KeyError>)
    ensures r.Success? <==> exists i :: 0 <= i < |topics| && topics[i].id == id
    ensures r.Success? ==> r.value.id == id && r.value in topics
    ensures r.Failure? ==> r.error == KeyError("Topic " + IntToString(id) + " not found")
  {
    if topics == [] then Failure(KeyError("Topic " + IntToString(id) + " not found"))
    else if topics[0].id == id then Success(topics[0])
    else
      var r := FindTopic(topics[1..], id);
      assert forall i :: 0 < i < |topics| ==> topics[i] == topics[1..][i - 1];
      r
  }

  /** The search at position i: found there, or carried on from i + 1. */
  lemma FindFrom(topics: seq<Topic>, id: int, i: nat)
    requires i < |topics|
    ensures topics[i].id == id ==> FindTopic(topics[i..], id) == Success(topics[i])
    ensures topics[i].id != id ==> FindTopic(topics[i..], id) == FindTopic(topics[i + 1..], id)
  {
    assert topics[i..][0] == topics[i];
    assert topics[i..][1..] == topics[i + 1..];
  }

  /** With distinct ids, the topic found is the one with that id. */
  lemma FindTopicUnique(topics: seq<Topic>, i: nat)
    requires i < |topics|
    requires forall a, b :: 0 <= a < b < |topics| ==> topics[a].id < topics[b].id
    ensures FindTopic(topics, topics[i].id) == Success(topics[i])
  {
    var r := FindTopic(topics, topics[i].id);
    var j :| 0 <= j < |topics| && topics[j] == r.value;
    assert i == j by {
      assert topics[j].id == topics[i].id;
    }
  }

  // ---------------------------------------------------------------------------
  // The routes' ids: /api/topics shows t.id + 1, /api/topics/<id> looks <id> up
  // ---------------------------------------------------------------------------

  /** The id the list route shows for a topic (1-based). */
  function ListedId(t: Topic): int {
    t.id + 1
  }

  /** The detail route as written: the id from the URL goes to get_topic unchanged. */
  function DetailRouteAsWritten(topics: seq<Topic>, urlId: int): Result<Topic, KeyError> {
    FindTopic(topics, urlId)
  }

  /** The detail route with the listed id turned back into the service's 0-based id. */
  function DetailRoute(topics: seq<Topic>, urlId: int): Result<Topic, KeyError> {
    FindTopic(topics, urlId - 1)
  }

  /** Asking for a listed id never returns that topic as written, but always does after the fix. */
  lemma DetailRouteAsWrittenMisses(topics: seq<Topic>, i: nat)
    requires i < |topics|
    requires forall a, b :: 0 <= a < b < |topics| ==> topics[a].id < topics[b].id
    ensures DetailRouteAsWritten(topics, ListedId(topics[i])) != Success(topics[i])
  {
    var r := FindTopic(topics, ListedId(topics[i]));
    if r.Success? {
      assert r.value.id == topics[i].id + 1;
    }
  }

  lemma DetailRouteFinds(topics: seq<Topic>, i: nat)
    requires i < |topics|
    requires forall a, b :: 0 <= a < b < |topics| ==> topics[a].id < topics[b].id
    ensures DetailRoute(topics, ListedId(topics[i])) == Success(topics[i])
  {
    FindTopicUnique(topics, i);
  }

  // ---------------------------------------------------------------------------
  // get_trends
  // ---------------------------------------------------------------------------

  /** A named column of a frame. */
  datatype Column = Column(name: string, values: seq<int>)

  /** yearly_trends.parquet: its year column and its other columns. */
  datatype TrendsFrame = TrendsFrame(years: seq<int>, columns: seq<Column>)

  predicate TrendsValid(f: TrendsFrame) {
    forall c :: 0 <= c < |f.columns| ==> |f.columns[c].values| == |f.years|
  }

  predicate IsTopicColumn(c: Column) {
    StartsWith(c.name, "topic_")
  }

  datatype TrendTopic = TrendTopic(id: int, topicLabel: string, series: seq<int>)

  datatype Trends = Trends(years: seq<int>, topics: seq<TrendTopic>)

  /** The entries of the enumerate loop over the topic columns. */
  function TrendTopics(cols: seq<Column>, labels: map<int, string>): (r: seq<TrendTopic>)
    ensures |r| == |cols|
  {
    if cols == [] then []
    else
      var i := |cols| - 1;
      TrendTopics(cols[..i], labels) + [TrendTopic(i + 1, Get(labels, i, "Topic " + IntToString(i + 1)), cols[i].values)]
  }

  /** The topic columns, the first fifteen kept. */
  function TrendColumns(f: TrendsFrame): seq<Column> {
    PyTake(Filter(f.columns, IsTopicColumn), 15)
  }

  function TrendsOf(f: TrendsFrame, labels: map<int, string>): Trends {
    Trends(f.years, TrendTopics(TrendColumns(f), labels))
  }

  /** Entry i of the loop: 1-based id, label looked up by the 0-based index, the column's values. */
  lemma {:induction false} TrendTopicsAt(cols: seq<Column>, labels: map<int, string>, i: nat)
    requires i < |cols|
    ensures TrendTopics(cols, labels)[i]
      == TrendTopic(i + 1, Get(labels, i, "Topic " + IntToString(i + 1)), cols[i].values)
  {
    if i < |cols| - 1 {
      TrendTopicsAt(cols[..|cols| - 1], labels, i);
    }
  }

  /**
   * get_trends returns ids 1..k for k = min(15, number of topic columns), in
   * column order, with the 0-based label lookup, and series as long as `years`.
   */
  lemma TrendsSpec(f: TrendsFrame, labels: map<int, string>)
    requires TrendsValid(f)
    ensures var r := TrendsOf(f, labels);
      var n := Count(f.columns, IsTopicColumn);
      && r.years == f.years
      && |r.topics| == (if n < 15 then n else 15)
      && (forall i :: 0 <= i < |r.topics| ==>
            && r.topics[i].id == i + 1
            && r.topics[i].topicLabel == Get(labels, i, "Topic " + IntToString(i + 1))
            && |r.topics[i].series| == |f.years|)
  {
    var cols := TrendColumns(f);
    var topicCols := Filter(f.columns, IsTopicColumn);
    FilterCount(f.columns, IsTopicColumn);
    forall i | 0 <= i < |cols| ensures |cols[i].values| == |f.years| {
      assert cols[i] == topicCols[i];
      assert topicCols[i] in f.columns;
    }
    forall i | 0 <= i < |cols| ensures TrendTopics(cols, labels)[i]
      == TrendTopic(i + 1, Get(labels, i, "Topic " + IntToString(i + 1)), cols[i].values)
    {
      TrendTopicsAt(cols, labels, i);
    }
  }

  // ---------------------------------------------------------------------------
  // get_topic_year_detail
  // ---------------------------------------------------------------------------

  /** doc_meta.parquet: the number of rows and, when the file has one, its year column. */
  datatype MetaFrame = MetaFrame(rowCount: nat, years: Option<seq<int>>)

  predicate MetaValid(m: MetaFrame) {
    m.years.Some? ==> |m.years.value| == m.rowCount
  }

  /** doc_topics.parquet, column by column. */
  datatype DocTopicsFrame = DocTopicsFrame(rowCount: nat, columns: seq<Column>)

  predicate DocTopicsValid(d: DocTopicsFrame) {
    forall c :: 0 <= c < |d.columns| ==> |d.columns[c].values| == d.rowCount
  }

  /** idxmax(axis=1) for one row: the first of the columns holding the row's largest value. */
  function FirstMax(cols: seq<Column>, row: nat): (k: nat)
    requires cols != []
    requires forall c :: 0 <= c < |cols| ==> row < |cols[c].values|
    ensures k < |cols|
    ensures forall c :: 0 <= c < |cols| ==> cols[c].values[row] <= cols[k].values[row]
    ensures forall c :: 0 <= c < k ==> cols[c].values[row] < cols[k].values[row]
  {
    if |cols| == 1 then 0
    else
      var k := FirstMax(cols[..|cols| - 1], row);
      if cols[k].values[row] < cols[|cols| - 1].values[row] then |cols| - 1 else k
  }

  /** The topic number of a column name: int(name.replace('topic_', '')), None where int() raises. */
  function ColumnTopic(name: string): Option<int> {
    ParseInt(ReplaceAll(name, "topic_", ""))
  }

  /** The argmax topic of rows 0..n-1; None as soon as one name does not convert. */
  function ArgmaxTopics(cols: seq<Column>, n: nat): (r: Option<seq<int>>)
    requires cols != []
    requires forall c :: 0 <= c < |cols| ==> n <= |cols[c].values|
    ensures r.Some? ==> |r.value| == n
    ensures r.Some? ==> forall i :: 0 <= i < n ==>
      ColumnTopic(cols[FirstMax(cols, i)].name) == Some(r.value[i])
  {
    if n == 0 then Some([])
    else
      match ArgmaxTopics(cols, n - 1)
      case None => None
      case Some(ts) =>
        match ColumnTopic(cols[FirstMax(cols, n - 1)].name)
        case None => None
        case Some(t) => Some(ts + [t])
  }

  /** The number of rows i < n whose argmax topic is `topic` and whose year is `year`. */
  function CountMatches(topics: seq<int>, years: seq<int>, topic: int, year: int, n: nat): (c: nat)
    requires n <= |topics| && n <= |years|
  {
    if n == 0 then 0
    else CountMatches(topics, years, topic, year, n - 1) + (if topics[n - 1] == topic && years[n - 1] == year then 1 else 0)
  }

  function YearIs(year: int): int -> bool {
    y => y == year
  }

  /** Each matched row is a row of that year. */
  lemma {:induction false} CountMatchesBound(topics: seq<int>, years: seq<int>, topic: int, year: int, n: nat)
    requires n <= |topics| && n <= |years|
    ensures CountMatches(topics, years, topic, year, n) <= Count(years[..n], YearIs(year))
  {
    if n > 0 {
      CountMatchesBound(topics, years, topic, year, n - 1);
      assert years[..n][..n - 1] == years[..n - 1];
    }
  }

  /** The document count from the two optional frames; 0 where the source leaves doc_count at 0. */
  function DocCount(meta: MetaFrame, doc: DocTopicsFrame, topic: int, year: int): nat
    requires MetaValid(meta) && DocTopicsValid(doc)
  {
    if meta.rowCount != doc.rowCount || meta.years.None? then 0
    else
      var cols := Filter(doc.columns, IsTopicColumn);
      if cols == [] then 0
      else
        assert forall c :: 0 <= c < |cols| ==> cols[c] in doc.columns;
        match ArgmaxTopics(cols, doc.rowCount)
        case None => 0
        case Some(ts) => CountMatches(ts, meta.years.value, topic, year, doc.rowCount)
  }

  /** The count never exceeds the number of documents of that year. */
  lemma DocCountBound(meta: MetaFrame, doc: DocTopicsFrame, topic: int, year: int)
    requires MetaValid(meta) && DocTopicsValid(doc) && meta.years.Some?
    ensures DocCount(meta, doc, topic, year) <= Count(meta.years.value, YearIs(year))
  {
    var ys := meta.years.value;
    assert ys[..|ys|] == ys;
    if meta.rowCount == doc.rowCount {
      var cols := Filter(doc.columns, IsTopicColumn);
      if cols != [] {
        assert forall c :: 0 <= c < |cols| ==> cols[c] in doc.columns;
        var r := ArgmaxTopics(cols, doc.rowCount);
        if r.Some? {
          CountMatchesBound(r.value, ys, topic, year, doc.rowCount);
        }
      }
    }
  }

  /** f'topic_{k}' for a topic number. */
  function TopicColumnName(k: int): string {
    "topic_" + IntToString(k)
  }

  /** The columns written as topic_0, topic_1, ... convert back to their numbers. */
  lemma ColumnTopicOfName(k: int)
    ensures ColumnTopic(TopicColumnName(k)) == Some(k)
  {
    var digits := IntToString(k);
    var pattern := "topic_";
    assert forall i :: 0 <= i < |digits| ==> digits[i] != 't' by {
      if k < 0 {
        assert digits == "-" + PadDigits(-k, 0);
        assert forall i :: 0 <= i < |digits| ==> digits[i] == '-' || IsDigit(digits[i]) by {
          assert forall i :: 1 <= i < |digits| ==> digits[i] == PadDigits(-k, 0)[i - 1];
        }
      }
    }
    assert StartsWith(pattern + digits, pattern) by {
      assert (pattern + digits)[..|pattern|] == pattern;
    }
    assert (pattern + digits)[|pattern|..] == digits;
    ReplaceAllUntouched(digits, pattern, "");
    assert ReplaceAll(pattern + digits, pattern, "") == "" + ReplaceAll(digits, pattern, "");
    assert TopicColumnName(k) == pattern + digits;
    assert "" + digits == digits;
    ParseIntOfIntToString(k);
    assert ColumnTopic(TopicColumnName(k)) == ParseInt(digits);
  }

  /** The value of the trends column `topic_{topic}` in the first row of that year. */
  function FirstColumnNamed(cols: seq<Column>, name: string): (r: Option<nat>)
    ensures r.Some? ==> r.value < |cols| && cols[r.value].name == name
    ensures r.None? ==> forall c :: 0 <= c < |cols| ==> cols[c].name != name
  {
    if cols == [] then None
    else if cols[0].name == name then Some(0)
    else
      match FirstColumnNamed(cols[1..], name)
      case None => None
      case Some(c) => Some(c + 1)
  }

  function FirstIndexOf(ys: seq<int>, y: int): (r: Option<nat>)
    ensures r.Some? ==> r.value < |ys| && ys[r.value] == y && forall i :: 0 <= i < r.value ==> ys[i] != y
    ensures r.None? ==> forall i :: 0 <= i < |ys| ==> ys[i] != y
  {
    if ys == [] then None
    else if ys[0] == y then Some(0)
    else
      match FirstIndexOf(ys[1..], y)
      case None => None
      case Some(i) => Some(i + 1)
  }

  /** round(max(val, 0)) of the trends value, or 0 when the column or the year is absent. */
  function TrendsFallback(f: TrendsFrame, topic: int, year: int): (n: nat)
    requires TrendsValid(f)
  {
    match FirstColumnNamed(f.columns, TopicColumnName(topic))
    case None => 0
    case Some(c) =>
      match FirstIndexOf(f.years, year)
      case None => 0
      case Some(row) => var v := f.columns[c].values[row]; if v < 0 then 0 else v
  }

  datatype YearDetail = YearDetail(id: int, year: int, topicLabel: string, docCount: nat, terms: seq<Term>)

  /** The terms of a topic in the detail: the thirty heaviest rows of its group, none for an unknown topic. */
  function DetailTerms(rows: seq<TermRow>, topic: int): seq<Term> {
    var group := Group(rows, topic);
    if group == [] then [] else Map(Largest(group, 30), AsTerm)
  }

  /** The document count of the detail, before and after the trends fallback. */
  function DetailCount(meta: Option<MetaFrame>, doc: Option<DocTopicsFrame>, topic: int, year: int): (n: nat)
    requires meta.Some? ==> MetaValid(meta.value)
    requires doc.Some? ==> DocTopicsValid(doc.value)
  {
    if meta.Some? && doc.Some? then DocCount(meta.value, doc.value, topic, year) else 0
  }

  function YearDetailOf(id1: int, year: int, labels: map<int, string>, rows: seq<TermRow>,
                        meta: Option<MetaFrame>, doc: Option<DocTopicsFrame>, trends: TrendsFrame): (d: YearDetail)
    requires meta.Some? ==> MetaValid(meta.value)
    requires doc.Some? ==> DocTopicsValid(doc.value)
    requires TrendsValid(trends)
  {
    var topic := id1 - 1;
    var counted := DetailCount(meta, doc, topic, year);
    var count := if counted != 0 then counted else TrendsFallback(trends, topic, year);
    YearDetail(id1, year, Get(labels, topic, "Topic " + IntToString(id1)), count, DetailTerms(rows, topic))
  }

  /**
   * The detail answers with the 1-based id it was given, looks the topic up
   * 0-based, falls back to 'Topic {id}', and lists at most thirty terms,
   * heaviest first, none for a topic without rows.
   */
  lemma YearDetailSpec(id1: int, year: int, labels: map<int, string>, rows: seq<TermRow>,
                       meta: Option<MetaFrame>, doc: Option<DocTopicsFrame>, trends: TrendsFrame)
    requires meta.Some? ==> MetaValid(meta.value)
    requires doc.Some? ==> DocTopicsValid(doc.value)
    requires TrendsValid(trends)
    ensures var d := YearDetailOf(id1, year, labels, rows, meta, doc, trends);
      && d.id == id1 && d.year == year
      && (id1 - 1 in labels ==> d.topicLabel == labels[id1 - 1])
      && (id1 - 1 !in labels ==> d.topicLabel == "Topic " + IntToString(id1))
      && HeaviestTerms(rows, id1 - 1, 30, d.terms)
  {
    var d := YearDetailOf(id1, year, labels, rows, meta, doc, trends);
    assert d.terms == DetailTerms(rows, id1 - 1);
    DetailTermsSpec(rows, id1 - 1);
  }

  /**
   * `terms` are the n heaviest rows of the topic's group, as terms:
   * min(n, group size) of them, heaviest first, each the term of a row of
   * that topic, no row of the group left out heavier than one kept, and none
   * exactly when the topic has no rows.
   */
  ghost predicate HeaviestTerms(rows: seq<TermRow>, topic: int, n: nat, terms: seq<Term>) {
    var g := Group(rows, topic);
    var kept := Largest(g, n);
    && terms == Map(kept, AsTerm)
    && |terms| == (if |g| < n then |g| else n)
    && (forall a, b :: 0 <= a < b < |terms| ==> terms[b].weight <= terms[a].weight)
    && (forall a :: 0 <= a < |terms| ==>
          exists i :: 0 <= i < |rows| && rows[i].topicId == topic && terms[a] == AsTerm(rows[i]))
    && (forall y, a :: y in multiset(g) - multiset(kept) && 0 <= a < |terms| ==> y.weight <= terms[a].weight)
    && (terms == [] <==> forall i :: 0 <= i < |rows| ==> rows[i].topicId != topic)
  }

  /** The detail terms are the thirty heaviest rows of the topic's group. */
  lemma DetailTermsSpec(rows: seq<TermRow>, topic: int)
    ensures HeaviestTerms(rows, topic, 30, DetailTerms(rows, topic))
  {
    var g := Group(rows, topic);
    var kept := Largest(g, 30);
    assert DetailTerms(rows, topic) == Map(kept, AsTerm) by {
      if g == [] {
        LargestSpec(g, 30);
      }
    }
    HeaviestOfGroup(rows, topic, g, 30);
  }

  /**
   * The n heaviest rows of a group of one topic, as terms: min(n, size) of
   * them, heaviest first, each the term of a row of that topic, and no row of
   * the group left out heavier than one kept.
   */
  lemma HeaviestOfGroup(rows: seq<TermRow>, topic: int, g: seq<TermRow>, n: nat)
    requires forall j :: 0 <= j < |g| ==> g[j].topicId == topic && g[j] in rows
    ensures var kept := Largest(g, n);
      var terms := Map(kept, AsTerm);
      && |terms| == (if |g| < n then |g| else n)
      && (forall a, b :: 0 <= a < b < |terms| ==> terms[b].weight <= terms[a].weight)
      && (forall a :: 0 <= a < |terms| ==>
            exists i :: 0 <= i < |rows| && rows[i].topicId == topic && terms[a] == AsTerm(rows[i]))
      && (forall y, a :: y in multiset(g) - multiset(kept) && 0 <= a < |terms| ==> y.weight <= terms[a].weight)
  {
    var kept := Largest(g, n);
    TermsOfLargest(g, n);
    LargestSpec(g, n);
    KeptRowsOfTopic(rows, topic, g, kept);
  }

  /** Each row of a sub-multiset of a topic's group, as a term, is the term of a row of that topic. */
  lemma KeptRowsOfTopic(rows: seq<TermRow>, topic: int, g: seq<TermRow>, kept: seq<TermRow>)
    requires forall j :: 0 <= j < |g| ==> g[j].topicId == topic && g[j] in rows
    requires multiset(kept) <= multiset(g)
    ensures var terms := Map(kept, AsTerm);
      forall a :: 0 <= a < |terms| ==>
        exists i :: 0 <= i < |rows| && rows[i].topicId == topic && terms[a] == AsTerm(rows[i])
  {
    var terms := Map(kept, AsTerm);
    forall a | 0 <= a < |terms|
      ensures exists i :: 0 <= i < |rows| && rows[i].topicId == topic && terms[a] == AsTerm(rows[i])
    {
      assert kept[a] in multiset(kept);
      var j :| 0 <= j < |g| && g[j] == kept[a];
      var i :| 0 <= i < |rows| && rows[i] == g[j];
      assert terms[a] == AsTerm(rows[i]);
    }
  }

  /** The loop of get_topics over the groups, before the sort and the cut. */
  method BuildTopics(rows: seq<TermRow>, labels: map<int, string>) returns (built: seq<Topic>)
    ensures built == Map(TopicIds(rows), TopicMaker(rows, labels))
  {
    var ids := TopicIds(rows);
    built := [];
    for i := 0 to |ids|
      invariant built == Map(ids[..i], TopicMaker(rows, labels))
    {
      BuildStep(rows, labels, ids, i);
      built := built + [MakeTopic(rows, labels, ids[i])];
    }
    assert ids[..|ids|] == ids;
  }

  lemma BuildStep(rows: seq<TermRow>, labels: map<int, string>, ids: seq<int>, i: nat)
    requires i < |ids|
    ensures Map(ids[..i + 1], TopicMaker(rows, labels))
      == Map(ids[..i], TopicMaker(rows, labels)) + [MakeTopic(rows, labels, ids[i])]
  {
    assert ids[..i + 1] == ids[..i] + [ids[i]];
    MapSnoc(ids[..i], ids[i], TopicMaker(rows, labels));
  }

  /** The loop of get_topic: the first listed topic with the id, or KeyError. */
  method SearchTopics(topics: seq<Topic>, id: int) returns (r: Result<Topic, KeyError>)
    ensures r == FindTopic(topics, id)
  {
    var i := 0;
    while i < |topics|
      invariant 0 <= i <= |topics|
      invariant FindTopic(topics, id) == FindTopic(topics[i..], id)
    {
      FindFrom(topics, id, i);
      if topics[i].id == id {
        return Success(topics[i]);
      }
      i := i + 1;
    }
    assert topics[i..] == [];
    return Failure(KeyError("Topic " + IntToString(id) + " not found"));
  }

  // ---------------------------------------------------------------------------
  // The service
  // ---------------------------------------------------------------------------

  class TopicService {
    var labels: map<int, string>
    var topicTerms: Option<seq<TermRow>>
    var trends: Option<TrendsFrame>
    var meta: Option<MetaFrame>
    var docTopics: Option<DocTopicsFrame>

    /** The cached frames are well formed. */
    predicate Valid()
      reads this
    {
      && (trends.Some? ==> TrendsValid(trends.value))
      && (meta.Some? ==> MetaValid(meta.value))
      && (docTopics.Some? ==> DocTopicsValid(docTopics.value))
    }

    constructor()
      ensures Valid()
      ensures labels == map[] && topicTerms == None && trends == None && meta == None && docTopics == None
    {
      labels := map[];
      topicTerms := None;
      trends := None;
      meta := None;
      docTopics := None;
    }

    /** _load_labels, given what topic_labels.json holds (None when it does not exist). */
    method LoadLabels(file: Option<map<int, string>>)
      modifies this
      ensures labels == MergedLabels(old(labels), file)
      ensures topicTerms == old(topicTerms) && trends == old(trends)
      ensures meta == old(meta) && docTopics == old(docTopics)
    {
      if labels == map[] && file.Some? {
        labels := file.value;
      }
      ghost var base := labels;
      var custom := CustomLabels;
      for i := 0 to |custom|
        invariant labels == Override(base, custom[..i])
        invariant topicTerms == old(topicTerms) && trends == old(trends)
        invariant meta == old(meta) && docTopics == old(docTopics)
      {
        OverrideStep(base, custom, i);
        labels := labels[custom[i].0 := custom[i].1];
      }
      assert custom[..|custom|] == custom;
    }

    /** _load_topic_terms: read the table once. */
    method LoadTopicTerms(file: seq<TermRow>)
      modifies this
      ensures topicTerms == Some(old(topicTerms).GetOr(file))
      ensures labels == old(labels) && trends == old(trends)
      ensures meta == old(meta) && docTopics == old(docTopics)
    {
      if topicTerms.None? {
        topicTerms := Some(file);
      }
    }

    /** _load_trends: read the frame once. */
    method LoadTrends(file: TrendsFrame)
      requires Valid() && TrendsValid(file)
      modifies this
      ensures Valid()
      ensures trends == Some(old(trends).GetOr(file))
      ensures labels == old(labels) && topicTerms == old(topicTerms)
      ensures meta == old(meta) && docTopics == old(docTopics)
    {
      if trends.None? {
        trends := Some(file);
      }
    }

    /** _load_meta: read the frame once, if the file exists. */
    method LoadMeta(file: Option<MetaFrame>)
      requires Valid() && (file.Some? ==> MetaValid(file.value))
      modifies this
      ensures Valid()
      ensures meta == if old(meta).Some? then old(meta) else file
      ensures labels == old(labels) && topicTerms == old(topicTerms)
      ensures trends == old(trends) && docTopics == old(docTopics)
    {
      if meta.None? && file.Some? {
        meta := file;
      }
    }

    /** _load_doc_topics: read the frame once, if the file exists. */
    method LoadDocTopics(file: Option<DocTopicsFrame>)
      requires Valid() && (file.Some? ==> DocTopicsValid(file.value))
      modifies this
      ensures Valid()
      ensures docTopics == if old(docTopics).Some? then old(docTopics) else file
      ensures labels == old(labels) && topicTerms == old(topicTerms)
      ensures trends == old(trends) && meta == old(meta)
    {
      if docTopics.None? && file.Some? {
        docTopics := file;
      }
    }

    method GetTopics(labelsFile: Option<map<int, string>>, termsFile: seq<TermRow>) returns (topics: seq<Topic>)
      modifies this
      ensures labels == MergedLabels(old(labels), labelsFile)
      ensures topicTerms == Some(old(topicTerms).GetOr(termsFile))
      ensures trends == old(trends) && meta == old(meta) && docTopics == old(docTopics)
      ensures topics == TopicList(topicTerms.value, labels)
    {
      LoadLabels(labelsFile);
      LoadTopicTerms(termsFile);
      var built := BuildTopics(topicTerms.value, labels);
      built := SortBy(built, TopicKey);
      topics := PyTake(built, 15);
    }

    method GetTopic(id: int, labelsFile: Option<map<int, string>>, termsFile: seq<TermRow>)
      returns (r: Result<Topic, KeyError>)
      modifies this
      ensures labels == MergedLabels(old(labels), labelsFile)
      ensures topicTerms == Some(old(topicTerms).GetOr(termsFile))
      ensures trends == old(trends) && meta == old(meta) && docTopics == old(docTopics)
      ensures r == FindTopic(TopicList(topicTerms.value, labels), id)
    {
      var topics := GetTopics(labelsFile, termsFile);
      r := SearchTopics(topics, id);
    }

    /** get_trends reads the trends frame but not the labels file: it uses the cached labels. */
    method GetTrends(trendsFile: TrendsFrame) returns (r: Trends)
      requires Valid() && TrendsValid(trendsFile)
      modifies this
      ensures Valid()
      ensures trends == Some(old(trends).GetOr(trendsFile))
      ensures labels == old(labels) && topicTerms == old(topicTerms)
      ensures meta == old(meta) && docTopics == old(docTopics)
      ensures r == TrendsOf(trends.value, labels)
    {
      LoadTrends(trendsFile);
      var frame := trends.value;
      var cols := TrendColumns(frame);
      var topics: seq<TrendTopic> := [];
      for i := 0 to |cols|
        invariant topics == TrendTopics(cols[..i], labels)
      {
        assert cols[..i + 1][..i] == cols[..i];
        var topicLabel := Get(labels, i, "Topic " + IntToString(i + 1));
        topics := topics + [TrendTopic(i + 1, topicLabel, cols[i].values)];
      }
      assert cols[..|cols|] == cols;
      r := Trends(frame.years, topics);
    }

    method GetTopicYearDetail(id1: int, year: int, labelsFile: Option<map<int, string>>,
                              termsFile: seq<TermRow>, metaFile: Option<MetaFrame>,
                              docTopicsFile: Option<DocTopicsFrame>, trendsFile: TrendsFrame)
      returns (d: YearDetail)
      requires Valid() && TrendsValid(trendsFile)
      requires metaFile.Some? ==> MetaValid(metaFile.value)
      requires docTopicsFile.Some? ==> DocTopicsValid(docTopicsFile.value)
      modifies this
      ensures Valid()
      ensures labels == MergedLabels(old(labels), labelsFile)
      ensures topicTerms == Some(old(topicTerms).GetOr(termsFile))
      ensures meta == if old(meta).Some? then old(meta) else metaFile
      ensures docTopics == if old(docTopics).Some? then old(docTopics) else docTopicsFile
      ensures DetailCount(meta, docTopics, id1 - 1, year) != 0 ==> trends == old(trends)
      ensures DetailCount(meta, docTopics, id1 - 1, year) == 0 ==> trends == Some(old(trends).GetOr(trendsFile))
      ensures d == YearDetailOf(id1, year, labels, topicTerms.value, meta, docTopics,
                                if trends.Some? then trends.value else trendsFile)
    {
      var topic := id1 - 1;
      LoadLabels(labelsFile);
      LoadTopicTerms(termsFile);
      var terms := DetailTerms(topicTerms.value, topic);
      LoadMeta(metaFile);
      LoadDocTopics(docTopicsFile);
      var count := DetailCount(meta, docTopics, topic, year);
      if count == 0 {
        LoadTrends(trendsFile);
        count := TrendsFallback(trends.value, topic, year);
      }
      var topicLabel := Get(labels, topic, "Topic " + IntToString(id1));
      d := YearDetail(id1, year, topicLabel, count, terms);
    }
  }
}
