/**
 * The table building of extract_and_process_data: records are extracted from
 * the parsed JSON files, their text fields cleaned, and three tables built
 * from them: the main table, the papers table (records with a cleaned title
 * and abstract) and the authors table (one row per author entry, kept when its
 * cleaned name and affiliation are both present). Reading the files and eval
 * of string-valued author lists are inputs here: a file is given already
 * parsed or as unreadable, an author string already evaluated or as one whose
 * evaluation raises.
 */
module PreprocessTables {
  import opened Wrappers
  import opened PyStrings
  import opened PyTables
  import opened Preprocess

  // ---------------------------------------------------------------------------
  // Input

  /** One entry of an author list: a dict (its 'Name' and 'Affiliation', '' when absent) or any other value. */
  datatype AuthorEntry = AuthorDict(name: Cell, affiliation: Cell) | NotADict

  /** What eval makes of a string-valued author list. */
  datatype Evaluated = Raises | EvalList(entries: seq<AuthorEntry>) | EvalOther

  /** A record's 'Authors' value ([] when the key is absent). */
  datatype AuthorsValue = AuthorList(entries: seq<AuthorEntry>) | AuthorsText(evaluated: Evaluated) | OtherValue

  /** The fields extract_and_process_data takes from a record. */
  datatype RawRecord = RawRecord(
    articleId: Cell, title: Cell, abstractText: Cell, pubYear: Cell, doi: Cell,
    journalTitle: Cell, issn: Cell, eissn: Cell, authors: AuthorsValue, keywords: Cell)

  /** An element of a file's top-level list: a dict, or a value on which record.get raises. */
  datatype RecordItem = Mapping(record: RawRecord) | NotAMapping

  /** A file as json.load leaves it: unreadable (the call raises), a list, or another value. */
  datatype JsonFile = Unreadable | RecordArray(items: seq<RecordItem>) | NotAList

  /** KeyError raised for a column an empty DataFrame does not have. */
  datatype KeyError = KeyError(column: string)

  // ---------------------------------------------------------------------------
  // Output

  /** A row of the main table after cleaning. */
  datatype MainRecord = MainRecord(
    articleId: Cell, title: Option<string>, abstractText: Option<string>, pubYear: Cell, doi: Cell,
    journalTitle: Option<string>, issn: Cell, eissn: Cell, authors: AuthorsValue, keywords: Option<string>)

  /** A row of the papers table. */
  datatype Paper = Paper(articleId: Cell, title: Option<string>, abstractText: Option<string>, year: Cell)

  /** A row of the authors table, before and after cleaning. */
  datatype RawAuthor = RawAuthor(articleId: Cell, name: Cell, affiliation: Cell)
  datatype Author = Author(articleId: Cell, name: Option<string>, affiliation: Option<string>)

  datatype Tables = Tables(main: seq<MainRecord>, papers: seq<Paper>, authors: seq<Author>)

  // ---------------------------------------------------------------------------
  // Specification

  /** The records of one file's list: every dict up to the first element that is not one. */
  function LeadingRecords(items: seq<RecordItem>): (r: seq<RawRecord>)
    ensures |r| <= |items|
    ensures forall i :: 0 <= i < |r| ==> items[i] == Mapping(r[i])
    ensures |r| < |items| ==> items[|r|] == NotAMapping
  {
    if items == [] then []
    else match items[0]
      case Mapping(rec) => [rec] + LeadingRecords(items[1..])
      case NotAMapping => []
  }

  function FileRecords(f: JsonFile): seq<RawRecord> {
    match f
    case RecordArray(items) => LeadingRecords(items)
    case _ => []
  }

  /** all_records: the records of every file, file by file. */
  function CollectRecords(files: seq<JsonFile>): seq<RawRecord> {
    if files == [] then []
    else CollectRecords(files[..|files| - 1]) + FileRecords(files[|files| - 1])
  }

  /** The main table's cleaning of title, abstract, keywords and journal title. */
  function CleanRecord(r: RawRecord, unescape: string -> string): MainRecord {
    MainRecord(r.articleId, CleanText(r.title, unescape), CleanText(r.abstractText, unescape),
      r.pubYear, r.doi, CleanText(r.journalTitle, unescape), r.issn, r.eissn, r.authors,
      CleanText(r.keywords, unescape))
  }

  /** The condition of both dropna calls on the main and papers tables. */
  predicate Complete(m: MainRecord) {
    m.title.Some? && m.abstractText.Some?
  }

  predicate PaperComplete(p: Paper) {
    p.title.Some? && p.abstractText.Some?
  }

  function ToPaper(m: MainRecord): Paper {
    Paper(m.articleId, m.title, m.abstractText, m.pubYear)
  }

  /** The author list of a record, when it is one: a list, or a string that evaluates to one. */
  function AuthorEntries(a: AuthorsValue): seq<AuthorEntry> {
    match a
    case AuthorList(es) => es
    case AuthorsText(EvalList(es)) => es
    case _ => []
  }

  /** One row per dict entry, in order. */
  function EntryRows(id: Cell, es: seq<AuthorEntry>): seq<RawAuthor> {
    if es == [] then []
    else
      var e := es[|es| - 1];
      EntryRows(id, es[..|es| - 1]) + (if e.AuthorDict? then [RawAuthor(id, e.name, e.affiliation)] else [])
  }

  /** authors_records: the author rows of every record of the main table, record by record. */
  function RawAuthorRows(main: seq<MainRecord>): seq<RawAuthor> {
    if main == [] then []
    else
      var m := main[|main| - 1];
      RawAuthorRows(main[..|main| - 1]) + EntryRows(m.articleId, AuthorEntries(m.authors))
  }

  function CleanAuthor(a: RawAuthor, unescape: string -> string): Author {
    Author(a.articleId, CleanText(a.name, unescape), CleanAffiliation(a.affiliation))
  }

  /** The cleaning applied to every record, and to every author row. */
  function Cleaner(unescape: string -> string): RawRecord -> MainRecord {
    (r: RawRecord) => CleanRecord(r, unescape)
  }

  function AuthorCleaner(unescape: string -> string): RawAuthor -> Author {
    (a: RawAuthor) => CleanAuthor(a, unescape)
  }

  predicate AuthorComplete(a: Author) {
    a.name.Some? && a.affiliation.Some?
  }

  /**
   * extract_and_process_data. With no records the selection of the papers columns
   * raises KeyError; with no author rows the author-name column is missing.
   */
  function ExtractAndProcess(files: seq<JsonFile>, unescape: string -> string): Result<Tables, KeyError> {
    var records := CollectRecords(files);
    if records == [] then Failure(KeyError("ArticleId"))
    else
      var main := Map(records, Cleaner(unescape));
      var papers := Filter(Map(main, ToPaper), PaperComplete);
      var raw := RawAuthorRows(main);
      if raw == [] then Failure(KeyError("author_name"))
      else
        var authors := Filter(Map(raw, AuthorCleaner(unescape)), AuthorComplete);
        Success(Tables(Filter(main, Complete), papers, authors))
  }

  // ---------------------------------------------------------------------------
  // Properties

  /** An author row belongs to a record's author list. */
  predicate RowOf(m: MainRecord, row: RawAuthor) {
    exists j :: 0 <= j < |AuthorEntries(m.authors)|
      && AuthorEntries(m.authors)[j] == AuthorDict(row.name, row.affiliation)
      && row.articleId == m.articleId
  }

  lemma {:induction false} EntryRowsMeans(id: Cell, es: seq<AuthorEntry>, row: RawAuthor)
    ensures row in EntryRows(id, es) <==>
      row.articleId == id && exists j :: 0 <= j < |es| && es[j] == AuthorDict(row.name, row.affiliation)
  {
    if es != [] {
      var init := es[..|es| - 1];
      EntryRowsMeans(id, init, row);
      if exists j :: 0 <= j < |es| && es[j] == AuthorDict(row.name, row.affiliation) {
        var j :| 0 <= j < |es| && es[j] == AuthorDict(row.name, row.affiliation);
        if j < |es| - 1 {
          assert init[j] == es[j];
        }
      }
      forall j | 0 <= j < |init| ensures init[j] == es[j] {
      }
    }
  }

  /** A row is in the author table before cleaning exactly when some record's author list holds that dict entry. */
  lemma {:induction false} RawAuthorRowsMeans(main: seq<MainRecord>, row: RawAuthor)
    ensures row in RawAuthorRows(main) <==> exists i :: 0 <= i < |main| && RowOf(main[i], row)
  {
    if main != [] {
      var init := main[..|main| - 1];
      var m := main[|main| - 1];
      RawAuthorRowsMeans(init, row);
      RowOfEntries(m, row);
      assert RawAuthorRows(main) == RawAuthorRows(init) + EntryRows(m.articleId, AuthorEntries(m.authors));
      if row in RawAuthorRows(main) {
        if row in RawAuthorRows(init) {
          var i :| 0 <= i < |init| && RowOf(init[i], row);
          assert main[i] == init[i];
        } else {
          assert RowOf(main[|main| - 1], row);
        }
      }
      if exists i :: 0 <= i < |main| && RowOf(main[i], row) {
        var i :| 0 <= i < |main| && RowOf(main[i], row);
        if i < |main| - 1 {
          assert init[i] == main[i];
        }
      }
    }
  }

  /** The rows of one record are the dict entries of its author list. */
  lemma RowOfEntries(m: MainRecord, row: RawAuthor)
    ensures RowOf(m, row) <==> row in EntryRows(m.articleId, AuthorEntries(m.authors))
  {
    EntryRowsMeans(m.articleId, AuthorEntries(m.authors), row);
  }

  /** The main and papers tables end up with the same ArticleId sequence. */
  lemma SameArticleIds(files: seq<JsonFile>, unescape: string -> string)
    requires ExtractAndProcess(files, unescape).Success?
    ensures var t := ExtractAndProcess(files, unescape).value;
      Map(t.main, (m: MainRecord) => m.articleId) == Map(t.papers, (p: Paper) => p.articleId)
  {
    var records := CollectRecords(files);
    var main := Map(records, Cleaner(unescape));
    FilterThenMap(main, Complete, ToPaper, PaperComplete);
    MapAgree(Filter(main, Complete), ToPaper, (p: Paper) => p.articleId, (m: MainRecord) => m.articleId);
  }

  /**
   * The papers table is the projection of exactly the main-table rows whose cleaned
   * title and abstract are both present, in their original order; the main table
   * keeps the same rows.
   */
  lemma PapersAreCompleteRecords(files: seq<JsonFile>, unescape: string -> string)
    requires ExtractAndProcess(files, unescape).Success?
    ensures var t := ExtractAndProcess(files, unescape).value;
      && t.papers == Map(t.main, ToPaper)
      && (forall i :: 0 <= i < |t.main| ==> t.main[i].title.Some? && t.main[i].abstractText.Some?)
      && |t.papers| == Count(Map(CollectRecords(files), Cleaner(unescape)), Complete)
  {
    var main := Map(CollectRecords(files), Cleaner(unescape));
    var t := ExtractAndProcess(files, unescape).value;
    assert t.main == Filter(main, Complete) && t.papers == Filter(Map(main, ToPaper), PaperComplete);
    CompleteProjection(main);
  }

  /** The complete rows of a main table and the complete rows of its projection agree. */
  lemma CompleteProjection(main: seq<MainRecord>)
    ensures Filter(Map(main, ToPaper), PaperComplete) == Map(Filter(main, Complete), ToPaper)
    ensures forall i :: 0 <= i < |Filter(main, Complete)| ==>
      Filter(main, Complete)[i].title.Some? && Filter(main, Complete)[i].abstractText.Some?
    ensures |Filter(main, Complete)| == Count(main, Complete)
  {
    FilterThenMap(main, Complete, ToPaper, PaperComplete);
    FilterCount(main, Complete);
  }

  /** Every kept author row has a cleaned name (three characters or more) and a cleaned affiliation. */
  lemma AuthorsAreClean(files: seq<JsonFile>, unescape: string -> string)
    requires ExtractAndProcess(files, unescape).Success?
    ensures var t := ExtractAndProcess(files, unescape).value;
      forall i :: 0 <= i < |t.authors| ==>
        && t.authors[i].name.Some? && 3 <= |t.authors[i].name.value| && Tidy(t.authors[i].name.value)
        && t.authors[i].affiliation.Some? && t.authors[i].affiliation.value != []
  {
    var raw := RawAuthorRows(Map(CollectRecords(files), Cleaner(unescape)));
    assert ExtractAndProcess(files, unescape).value.authors
      == Filter(Map(raw, AuthorCleaner(unescape)), AuthorComplete);
    CleanAuthorsAreClean(raw, unescape);
  }

  lemma CleanAuthorsAreClean(raw: seq<RawAuthor>, unescape: string -> string)
    ensures var authors := Filter(Map(raw, AuthorCleaner(unescape)), AuthorComplete);
      forall i :: 0 <= i < |authors| ==>
        && authors[i].name.Some? && 3 <= |authors[i].name.value| && Tidy(authors[i].name.value)
        && authors[i].affiliation.Some? && authors[i].affiliation.value != []
  {
    var cleaned := Map(raw, AuthorCleaner(unescape));
    var authors := Filter(cleaned, AuthorComplete);
    forall i | 0 <= i < |authors|
      ensures && authors[i].name.Some? && 3 <= |authors[i].name.value| && Tidy(authors[i].name.value)
              && authors[i].affiliation.Some? && authors[i].affiliation.value != []
    {
      assert authors[i] in cleaned;
      var j :| 0 <= j < |cleaned| && cleaned[j] == authors[i];
      assert authors[i] == CleanAuthor(raw[j], unescape);
    }
  }

  /** Failure exactly when there are no records, or no author rows. */
  lemma FailsOnlyWhenEmpty(files: seq<JsonFile>, unescape: string -> string)
    ensures ExtractAndProcess(files, unescape).Failure? <==>
      CollectRecords(files) == [] ||
      RawAuthorRows(Map(CollectRecords(files), Cleaner(unescape))) == []
  {
  }

  // ---------------------------------------------------------------------------
  // The procedure

  /** The file loop: the records of each file, file by file. */
  method ReadRecords(files: seq<JsonFile>) returns (allRecords: seq<RawRecord>)
    ensures allRecords == CollectRecords(files)
  {
    allRecords := [];
    for f := 0 to |files|
      invariant allRecords == CollectRecords(files[..f])
    {
      assert files[..f + 1][..f] == files[..f];
      var records := ReadFile(files[f]);
      allRecords := allRecords + records;
    }
    assert files[..|files|] == files;
  }

  /** The record loop of one file: its list up to the first element that is not a dict. */
  method ReadFile(file: JsonFile) returns (records: seq<RawRecord>)
    ensures records == FileRecords(file)
  {
    records := [];
    if file.RecordArray? {
      var items := file.items;
      var k := 0;
      while k < |items| && items[k].Mapping?
        invariant k <= |items|
        invariant forall i :: 0 <= i < k ==> items[i].Mapping?
        invariant k <= |LeadingRecords(items)|
        invariant records == LeadingRecords(items)[..k]
      {
        LeadingPrefix(items, k);
        records := records + [items[k].record];
        k := k + 1;
      }
      LeadingAll(items, k);
    }
  }

  /** The progress_apply of ultra_clean_text to the four text columns. */
  method CleanMainTable(records: seq<RawRecord>, unescape: string -> string) returns (main: seq<MainRecord>)
    ensures main == Map(records, Cleaner(unescape))
  {
    main := [];
    for i := 0 to |records|
      invariant main == Map(records[..i], Cleaner(unescape))
    {
      assert records[..i + 1][..i] == records[..i];
      var title := UltraCleanText(records[i].title, unescape);
      var abstractText := UltraCleanText(records[i].abstractText, unescape);
      var keywords := UltraCleanText(records[i].keywords, unescape);
      var journal := UltraCleanText(records[i].journalTitle, unescape);
      var r := records[i];
      main := main + [MainRecord(r.articleId, title, abstractText, r.pubYear, r.doi, journal,
        r.issn, r.eissn, r.authors, keywords)];
    }
    assert records[..|records|] == records;
  }

  /** The papers table: its four columns, then dropna on title and abstract. */
  method BuildPapers(main: seq<MainRecord>) returns (papers: seq<Paper>)
    ensures papers == Filter(Map(main, ToPaper), PaperComplete)
  {
    papers := [];
    for i := 0 to |main|
      invariant papers == Filter(Map(main[..i], ToPaper), PaperComplete)
    {
      assert main[..i + 1][..i] == main[..i];
      assert Map(main[..i + 1], ToPaper)[..i] == Map(main[..i], ToPaper);
      var p := ToPaper(main[i]);
      if p.title.Some? && p.abstractText.Some? {
        papers := papers + [p];
      }
    }
    assert main[..|main|] == main;
  }

  /** The iterrows loop: one row per dict entry of each record's author list. */
  method CollectAuthorRows(main: seq<MainRecord>) returns (raw: seq<RawAuthor>)
    ensures raw == RawAuthorRows(main)
  {
    raw := [];
    for i := 0 to |main|
      invariant raw == RawAuthorRows(main[..i])
    {
      RawAuthorRowsStep(main, i);
      var rows := RecordAuthorRows(main[i].articleId, AuthorEntries(main[i].authors));
      raw := raw + rows;
    }
    assert main[..|main|] == main;
  }

  lemma RawAuthorRowsStep(main: seq<MainRecord>, i: nat)
    requires i < |main|
    ensures RawAuthorRows(main[..i + 1])
      == RawAuthorRows(main[..i]) + EntryRows(main[i].articleId, AuthorEntries(main[i].authors))
  {
    assert main[..i + 1][..i] == main[..i];
  }

  /** The inner loop over one record's author list: a row for each dict entry. */
  method RecordAuthorRows(id: Cell, entries: seq<AuthorEntry>) returns (rows: seq<RawAuthor>)
    ensures rows == EntryRows(id, entries)
  {
    rows := [];
    for j := 0 to |entries|
      invariant rows == EntryRows(id, entries[..j])
    {
      EntryRowsStep(id, entries, j);
      if entries[j].AuthorDict? {
        rows := rows + [RawAuthor(id, entries[j].name, entries[j].affiliation)];
      }
    }
    assert entries[..|entries|] == entries;
  }

  lemma EntryRowsStep(id: Cell, entries: seq<AuthorEntry>, j: nat)
    requires j < |entries|
    ensures EntryRows(id, entries[..j + 1]) == EntryRows(id, entries[..j])
      + (if entries[j].AuthorDict? then [RawAuthor(id, entries[j].name, entries[j].affiliation)] else [])
  {
    assert entries[..j + 1][..j] == entries[..j];
  }

  /** Cleaning the two author columns, then dropna on both. */
  method CleanAuthors(raw: seq<RawAuthor>, unescape: string -> string) returns (authors: seq<Author>)
    ensures authors == Filter(Map(raw, AuthorCleaner(unescape)), AuthorComplete)
  {
    authors := [];
    for i := 0 to |raw|
      invariant authors == Filter(Map(raw[..i], AuthorCleaner(unescape)), AuthorComplete)
    {
      assert raw[..i + 1][..i] == raw[..i];
      assert Map(raw[..i + 1], AuthorCleaner(unescape))[..i]
        == Map(raw[..i], AuthorCleaner(unescape));
      var name := UltraCleanText(raw[i].name, unescape);
      var affiliation := CleanAffiliationText(raw[i].affiliation);
      if name.Some? && affiliation.Some? {
        authors := authors + [Author(raw[i].articleId, name, affiliation)];
      }
    }
    assert raw[..|raw|] == raw;
  }

  /** dropna on the main table's title and abstract. */
  method DropIncomplete(main: seq<MainRecord>) returns (kept: seq<MainRecord>)
    ensures kept == Filter(main, Complete)
  {
    kept := [];
    for i := 0 to |main|
      invariant kept == Filter(main[..i], Complete)
    {
      assert main[..i + 1][..i] == main[..i];
      if main[i].title.Some? && main[i].abstractText.Some? {
        kept := kept + [main[i]];
      }
    }
    assert main[..|main|] == main;
  }

  /** extract_and_process_data, stage by stage. */
  method ExtractAndProcessData(files: seq<JsonFile>, unescape: string -> string)
    returns (r: Result<Tables, KeyError>)
    ensures r == ExtractAndProcess(files, unescape)
  {
    var allRecords := ReadRecords(files);
    if allRecords == [] {
      return Failure(KeyError("ArticleId"));
    }
    var main := CleanMainTable(allRecords, unescape);
    var papers := BuildPapers(main);
    var raw := CollectAuthorRows(main);
    if raw == [] {
      return Failure(KeyError("author_name"));
    }
    var authors := CleanAuthors(raw, unescape);
    var kept := DropIncomplete(main);
    return Success(Tables(kept, papers, authors));
  }

  lemma LeadingPrefix(items: seq<RecordItem>, k: nat)
    requires k < |items| && forall i :: 0 <= i <= k ==> items[i].Mapping?
    requires k <= |LeadingRecords(items)|
    ensures k < |LeadingRecords(items)|
    ensures LeadingRecords(items)[..k + 1] == LeadingRecords(items)[..k] + [items[k].record]
  {
  }

  lemma LeadingAll(items: seq<RecordItem>, k: nat)
    requires k <= |items| && (forall i :: 0 <= i < k ==> items[i].Mapping?)
    requires k <= |LeadingRecords(items)|
    requires k == |items| || !items[k].Mapping?
    ensures LeadingRecords(items)[..k] == LeadingRecords(items)
  {
  }
}
