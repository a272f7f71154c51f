/**
 * Tokenisation of abstracts and the batching of token records into numbered
 * parquet parts: `normalize_text`, the abstract-column choice of
 * `iter_tokens_from_csv` and the buffer-and-flush loop of
 * `build_normalized_text_parquet`.
 */
module PreprocessNlp {
  import opened Wrappers
  import opened PyStrings
  import opened PyTables

  // ---------------------------------------------------------------------------
  // `[a-zA-Z]+` with findall: the maximal runs of ASCII letters, left to right.
  // ---------------------------------------------------------------------------

  predicate IsLetter(c: char) {
    InClass(c, AsciiLetter)
  }

  /** A non-empty string of ASCII letters. */
  predicate IsLetterRun(t: string) {
    t != [] && forall m :: 0 <= m < |t| ==> IsLetter(t[m])
  }

  /** The letter runs of s[i..], found by scanning from position i. */
  function RunsFrom(s: string, i: nat): (runs: seq<string>)
    requires i <= |s|
    ensures forall k :: 0 <= k < |runs| ==> IsLetterRun(runs[k])
    decreases |s| - i
  {
    if i == |s| then []
    else if IsLetter(s[i]) then
      var j := Span(s, i, AsciiLetter);
      [s[i..j]] + RunsFrom(s, j)
    else RunsFrom(s, i + 1)
  }

  /** _word_re.findall(s). */
  function LetterRuns(s: string): seq<string> {
    RunsFrom(s, 0)
  }

  /** Position i does not fall strictly inside a run of letters. */
  predicate AtRunBoundary(s: string, i: nat)
    requires i <= |s|
  {
    i == 0 || i == |s| || !IsLetter(s[i - 1]) || !IsLetter(s[i])
  }

  /** `t` is a run of letters of `s` that cannot be extended on either side. */
  ghost predicate MaximalRun(s: string, t: string) {
    exists a, b :: 0 <= a < b <= |s| && t == s[a..b]
      && (forall m :: a <= m < b ==> IsLetter(s[m]))
      && (a == 0 || !IsLetter(s[a - 1]))
      && (b == |s| || !IsLetter(s[b]))
  }

  lemma {:induction false} RunsAreMaximal(s: string, i: nat)
    requires i <= |s| && AtRunBoundary(s, i)
    ensures forall k :: 0 <= k < |RunsFrom(s, i)| ==> MaximalRun(s, RunsFrom(s, i)[k])
    decreases |s| - i
  {
    if i < |s| {
      if IsLetter(s[i]) {
        var j := Span(s, i, AsciiLetter);
        RunsAreMaximal(s, j);
        assert i == 0 || !IsLetter(s[i - 1]);
        assert MaximalRun(s, s[i..j]);
      } else {
        RunsAreMaximal(s, i + 1);
      }
    }
  }

  /** The runs, concatenated, are exactly the letters of the text, in order. */
  lemma {:induction false} RunsCoverLetters(s: string, i: nat)
    requires i <= |s|
    ensures Flatten(RunsFrom(s, i)) == Filter(s[i..], IsLetter)
    decreases |s| - i
  {
    if i == |s| {
      assert s[i..] == [];
    } else if IsLetter(s[i]) {
      var j := Span(s, i, AsciiLetter);
      var run, rest := s[i..j], s[j..];
      assert RunsFrom(s, i) == [run] + RunsFrom(s, j);
      RunsCoverLetters(s, j);
      FlattenCons(run, RunsFrom(s, j));
      assert s[i..] == run + rest;
      FilterConcat(run, rest, IsLetter);
      FilterAll(run, IsLetter);
    } else {
      var rest := s[i + 1..];
      assert RunsFrom(s, i) == RunsFrom(s, i + 1);
      RunsCoverLetters(s, i + 1);
      assert s[i..] == [s[i]] + rest;
      FilterConcat([s[i]], rest, IsLetter);
      assert Filter([s[i]], IsLetter) == [] by {
        assert [s[i]][..0] == [];
      }
    }
  }

  /** A string without upper-case ASCII letters has only a-z runs. */
  lemma {:induction false} RunsOfLowered(s: string, i: nat)
    requires i <= |s|
    requires forall m :: 0 <= m < |s| ==> !('A' <= s[m] <= 'Z')
    ensures forall k, m :: 0 <= k < |RunsFrom(s, i)| && 0 <= m < |RunsFrom(s, i)[k]| ==>
      'a' <= RunsFrom(s, i)[k][m] <= 'z'
    decreases |s| - i
  {
    if i < |s| {
      if IsLetter(s[i]) {
        RunsOfLowered(s, Span(s, i, AsciiLetter));
      } else {
        RunsOfLowered(s, i + 1);
      }
    }
  }

  // ---------------------------------------------------------------------------
  // normalize_text
  // ---------------------------------------------------------------------------

  /** The two filters of the token loop: long enough, and not a stop word. */
  function Kept(minLen: int, stopWords: set<string>): string -> bool {
    t => minLen <= |t| && t !in stopWords
  }

  /** What the loop appends for a kept token. */
  function Emit(lemmatize: bool, lemmatizer: string -> string): string -> string {
    t => if lemmatize then lemmatizer(t) else t
  }

  /** The tokens of the lower-cased text, before filtering. */
  function Candidates(s: string): seq<string> {
    LetterRuns(Lower(s))
  }

  /**
   * normalize_text(text, lemmatizer, stop_words) with min_token_length = minLen,
   * enable_lemmatize = lemmatize and lemmatizer.lemmatize = lemmatizer.
   */
  function Normalize(text: Cell, minLen: int, stopWords: set<string>, lemmatize: bool,
                     lemmatizer: string -> string): (r: seq<string>)
    ensures text.Missing? ==> r == []
    ensures text.Str? ==> |r| == Count(Candidates(text.s), Kept(minLen, stopWords))
    ensures !lemmatize ==> forall i :: 0 <= i < |r| ==> minLen <= |r[i]| && r[i] !in stopWords
  {
    match text
    case Missing => []
    case Str(s) =>
      FilterCount(Candidates(s), Kept(minLen, stopWords));
      Map(Filter(Candidates(s), Kept(minLen, stopWords)), Emit(lemmatize, lemmatizer))
  }

  method NormalizeText(text: Cell, minLen: int, stopWords: set<string>, lemmatize: bool,
                       lemmatizer: string -> string) returns (result: seq<string>)
    ensures result == Normalize(text, minLen, stopWords, lemmatize, lemmatizer)
  {
    if text.Missing? {
      return [];
    }
    var lowered := Lower(text.s);
    var tokens := LetterRuns(lowered);
    result := KeepTokens(tokens, minLen, stopWords, lemmatize, lemmatizer);
  }

  /** The token loop of normalize_text: skip short tokens and stop words, lemmatise the rest. */
  method KeepTokens(tokens: seq<string>, minLen: int, stopWords: set<string>, lemmatize: bool,
                    lemmatizer: string -> string) returns (result: seq<string>)
    ensures result == Map(Filter(tokens, Kept(minLen, stopWords)), Emit(lemmatize, lemmatizer))
  {
    result := [];
    for i := 0 to |tokens|
      invariant result == Map(Filter(tokens[..i], Kept(minLen, stopWords)), Emit(lemmatize, lemmatizer))
    {
      TokenStep(tokens, i, minLen, stopWords, lemmatize, lemmatizer);
      var t := tokens[i];
      if |t| < minLen {
        continue;
      }
      if t in stopWords {
        continue;
      }
      if lemmatize {
        t := lemmatizer(t);
      }
      result := result + [t];
    }
    assert tokens[..|tokens|] == tokens;
  }

  /** One more token through the loop. */
  lemma TokenStep(tokens: seq<string>, i: nat, minLen: int, stopWords: set<string>, lemmatize: bool,
                  lemmatizer: string -> string)
    requires i < |tokens|
    ensures var t := tokens[i];
      Map(Filter(tokens[..i + 1], Kept(minLen, stopWords)), Emit(lemmatize, lemmatizer))
        == Map(Filter(tokens[..i], Kept(minLen, stopWords)), Emit(lemmatize, lemmatizer))
           + (if minLen <= |t| && t !in stopWords then [if lemmatize then lemmatizer(t) else t] else [])
  {
    assert tokens[..i + 1] == tokens[..i] + [tokens[i]];
    FilterMapSnoc(tokens[..i], tokens[i], Kept(minLen, stopWords), Emit(lemmatize, lemmatizer));
  }

  /**
   * Without lemmatisation every token is a maximal run of ASCII letters of the
   * lower-cased text, made of a-z only, and the tokens keep the text's order.
   */
  lemma TokensAreLoweredRuns(s: string, minLen: int, stopWords: set<string>,
                             lemmatizer: string -> string)
    ensures var r := Normalize(Str(s), minLen, stopWords, false, lemmatizer);
      && IsSubsequence(r, LetterRuns(Lower(s)))
      && (forall i :: 0 <= i < |r| ==> MaximalRun(Lower(s), r[i]))
      && (forall i, m :: 0 <= i < |r| && 0 <= m < |r[i]| ==> 'a' <= r[i][m] <= 'z')
  {
    var runs := LetterRuns(Lower(s));
    var kept := Filter(runs, Kept(minLen, stopWords));
    MapIdentity(kept, Emit(false, lemmatizer));
    FilterIsSubsequence(runs, Kept(minLen, stopWords));
    RunsAreMaximal(Lower(s), 0);
    RunsOfLowered(Lower(s), 0);
    forall i | 0 <= i < |kept| ensures MaximalRun(Lower(s), kept[i]) {
      var k :| 0 <= k < |runs| && runs[k] == kept[i];
    }
    forall i, m | 0 <= i < |kept| && 0 <= m < |kept[i]| ensures 'a' <= kept[i][m] <= 'z' {
      var k :| 0 <= k < |runs| && runs[k] == kept[i];
    }
  }

  /** `token` is the lemma of one of the runs that passes both filters. */
  ghost predicate LemmaOfKeptRun(token: string, runs: seq<string>, minLen: int,
                                 stopWords: set<string>, lemmatizer: string -> string)
  {
    exists k :: 0 <= k < |runs| && minLen <= |runs[k]| && runs[k] !in stopWords && token == lemmatizer(runs[k])
  }

  /**
   * The length and stop-word checks look at the run before lemmatisation: each
   * token is the lemma of a kept run, whatever the lemma itself is.
   */
  lemma ChecksBeforeLemma(s: string, minLen: int, stopWords: set<string>,
                          lemmatizer: string -> string)
    ensures forall i :: 0 <= i < |Normalize(Str(s), minLen, stopWords, true, lemmatizer)| ==>
      LemmaOfKeptRun(Normalize(Str(s), minLen, stopWords, true, lemmatizer)[i], LetterRuns(Lower(s)),
                     minLen, stopWords, lemmatizer)
  {
    var runs := LetterRuns(Lower(s));
    var kept := Filter(runs, Kept(minLen, stopWords));
    var r := Normalize(Str(s), minLen, stopWords, true, lemmatizer);
    forall i | 0 <= i < |r| ensures LemmaOfKeptRun(r[i], runs, minLen, stopWords, lemmatizer) {
      assert r[i] == lemmatizer(kept[i]);
      assert Kept(minLen, stopWords)(kept[i]);
      assert kept[i] in runs;
      var k :| 0 <= k < |runs| && runs[k] == kept[i];
    }
  }

  // ---------------------------------------------------------------------------
  // The abstract column of the CSV header
  // ---------------------------------------------------------------------------

  datatype ValueError = ValueError(message: string)

  /** 'abstract_cleaned' when the header has it, else 'abstract', else ValueError. */
  function ChooseAbstractColumn(columns: seq<string>): (r: Result<string, ValueError>)
    ensures r.Success? <==> "abstract_cleaned" in columns || "abstract" in columns
    ensures r.Success? ==> r.value in columns
    ensures r == Success("abstract") ==> "abstract_cleaned" !in columns
    ensures "abstract_cleaned" in columns ==> r == Success("abstract_cleaned")
  {
    if "abstract_cleaned" in columns then Success("abstract_cleaned")
    else if "abstract" in columns then Success("abstract")
    else Failure(ValueError("Input CSV must contain 'abstract_cleaned' or 'abstract' column"))
  }

  // ---------------------------------------------------------------------------
  // build_normalized_text_parquet: buffer, flush at batch_size, number the parts
  // ---------------------------------------------------------------------------

  /** The dict appended to the buffer for each row. */
  datatype TokenRecord = TokenRecord(articleId: int, year: int, tokens: seq<string>)

  /** One written parquet file: its name and the records it holds. */
  datatype Part = Part(name: string, records: seq<TokenRecord>)

  /** f'part_{k:06d}.parquet'. */
  function PartName(k: nat): string {
    "part_" + PadDigits(k, 6) + ".parquet"
  }

  /** The buffer length at which a flush happens; below 1 it behaves as 1. */
  function Effective(batchSize: int): (b: nat)
    ensures 1 <= b
    ensures 1 <= batchSize ==> b == batchSize
  {
    if 1 <= batchSize then batchSize else 1
  }

  function PartRecords(parts: seq<Part>): seq<seq<TokenRecord>> {
    if parts == [] then [] else PartRecords(parts[..|parts| - 1]) + [parts[|parts| - 1].records]
  }

  /** The records of all parts, in part order. */
  function Written(parts: seq<Part>): seq<TokenRecord> {
    Flatten(PartRecords(parts))
  }

  lemma WrittenSnoc(parts: seq<Part>, p: Part)
    ensures Written(parts + [p]) == Written(parts) + p.records
  {
    assert (parts + [p])[..|parts|] == parts;
    assert PartRecords(parts + [p]) == PartRecords(parts) + [p.records];
    assert (PartRecords(parts) + [p.records])[..|PartRecords(parts)|] == PartRecords(parts);
  }

  /** Parts 1..|parts|, each named after its number and holding b records. */
  predicate FullParts(parts: seq<Part>, b: nat) {
    forall k :: 0 <= k < |parts| ==> parts[k].name == PartName(k + 1) && |parts[k].records| == b
  }

  /**
   * The loop of build_normalized_text_parquet over the token records; each
   * element of `parts` is one file written, in the order they are written.
   */
  method BuildParts(records: seq<TokenRecord>, batchSize: int) returns (parts: seq<Part>)
    ensures Written(parts) == records
    ensures forall k :: 0 <= k < |parts| ==> parts[k].name == PartName(k + 1)
    ensures forall k :: 0 <= k < |parts| ==> 1 <= |parts[k].records| <= Effective(batchSize)
    ensures forall k :: 0 <= k < |parts| - 1 ==> |parts[k].records| == Effective(batchSize)
    ensures (|parts| - 1) * Effective(batchSize) < |records| <= |parts| * Effective(batchSize)
    ensures records == [] <==> parts == []
  {
    var b := Effective(batchSize);
    var buffer: seq<TokenRecord> := [];
    var part: nat := 0;
    parts := [];
    for i := 0 to |records|
      invariant Batching(records, i, parts, buffer, b)
      invariant part == |parts|
    {
      ghost var before := buffer;
      buffer := buffer + [records[i]];
      if |buffer| >= batchSize {
        BufferFills(records, i, parts, before, b);
        part := part + 1;
        parts := parts + [Part(PartName(part), buffer)];
        buffer := [];
      } else {
        BufferGrows(records, i, parts, before, b);
      }
    }
    if buffer != [] {
      part := part + 1;
      LastFlush(records, parts, buffer, b);
      parts := parts + [Part(PartName(part), buffer)];
    } else {
      NoLastFlush(records, parts, b);
    }
  }

  /** The invariant of the loop after i records: full parts written, the rest in the buffer. */
  predicate Batching(records: seq<TokenRecord>, i: nat, parts: seq<Part>, buffer: seq<TokenRecord>, b: nat) {
    && i <= |records|
    && Written(parts) + buffer == records[..i]
    && |buffer| < b
    && FullParts(parts, b)
    && i == |parts| * b + |buffer|
  }

  lemma Appended(records: seq<TokenRecord>, i: nat, buffer: seq<TokenRecord>, parts: seq<Part>)
    requires i < |records| && Written(parts) + buffer == records[..i]
    ensures Written(parts) + (buffer + [records[i]]) == records[..i + 1]
  {
    assert records[..i + 1] == records[..i] + [records[i]];
  }

  /** A record that leaves the buffer short of b. */
  lemma BufferGrows(records: seq<TokenRecord>, i: nat, parts: seq<Part>, buffer: seq<TokenRecord>, b: nat)
    requires Batching(records, i, parts, buffer, b) && i < |records| && |buffer| + 1 < b
    ensures Batching(records, i + 1, parts, buffer + [records[i]], b)
  {
    Appended(records, i, buffer, parts);
  }

  /** A record that fills the buffer: it is written as the next part. */
  lemma BufferFills(records: seq<TokenRecord>, i: nat, parts: seq<Part>, buffer: seq<TokenRecord>, b: nat)
    requires Batching(records, i, parts, buffer, b) && i < |records| && |buffer| + 1 == b
    ensures Batching(records, i + 1, parts + [Part(PartName(|parts| + 1), buffer + [records[i]])], [], b)
  {
    var full := buffer + [records[i]];
    Appended(records, i, buffer, parts);
    Flush(parts, full, b, PartName(|parts| + 1));
  }

  /** After the loop, the records left in the buffer are written as the last part. */
  lemma LastFlush(records: seq<TokenRecord>, parts: seq<Part>, buffer: seq<TokenRecord>, b: nat)
    requires Batching(records, |records|, parts, buffer, b) && buffer != []
    ensures var all := parts + [Part(PartName(|parts| + 1), buffer)];
      && Written(all) == records
      && (forall k :: 0 <= k < |all| ==> all[k].name == PartName(k + 1))
      && (forall k :: 0 <= k < |all| ==> 1 <= |all[k].records| <= b)
      && (forall k :: 0 <= k < |all| - 1 ==> |all[k].records| == b)
      && (|all| - 1) * b < |records| <= |all| * b
      && all != [] && records != []
  {
    assert records[..|records|] == records;
    Flush(parts, buffer, b, PartName(|parts| + 1));
  }

  /** After the loop, an empty buffer leaves the parts as they are. */
  lemma NoLastFlush(records: seq<TokenRecord>, parts: seq<Part>, b: nat)
    requires Batching(records, |records|, parts, [], b)
    ensures && Written(parts) == records
      && (forall k :: 0 <= k < |parts| ==> parts[k].name == PartName(k + 1))
      && (forall k :: 0 <= k < |parts| ==> 1 <= |parts[k].records| <= b)
      && (forall k :: 0 <= k < |parts| - 1 ==> |parts[k].records| == b)
      && (|parts| - 1) * b < |records| <= |parts| * b
      && (records == [] <==> parts == [])
  {
    assert records[..|records|] == records;
    assert Written(parts) + [] == Written(parts);
    assert (|parts| - 1) * b == |parts| * b - b;
  }

  /** What a flush of the buffer as part |parts| + 1 does to the loop's invariants. */
  lemma Flush(parts: seq<Part>, buffer: seq<TokenRecord>, b: nat, name: string)
    requires FullParts(parts, b) && name == PartName(|parts| + 1)
    ensures Written(parts + [Part(name, buffer)]) == Written(parts) + buffer
    ensures |buffer| == b ==> FullParts(parts + [Part(name, buffer)], b)
    ensures forall k :: 0 <= k < |parts| + 1 ==> (parts + [Part(name, buffer)])[k].name == PartName(k + 1)
    ensures (|parts| + 1) * b == |parts| * b + b
  {
    WrittenSnoc(parts, Part(name, buffer));
    FlushNames(parts, Part(name, buffer), b);
    MulSucc(|parts|, b);
  }

  /** A part appended after full parts keeps the names in order, and is full when its records are. */
  lemma FlushNames(parts: seq<Part>, last: Part, b: nat)
    requires FullParts(parts, b) && last.name == PartName(|parts| + 1)
    ensures |last.records| == b ==> FullParts(parts + [last], b)
    ensures forall k :: 0 <= k < |parts| + 1 ==> (parts + [last])[k].name == PartName(k + 1)
  {
    var all := parts + [last];
    forall k | 0 <= k < |all|
      ensures all[k].name == PartName(k + 1) && (|last.records| == b ==> |all[k].records| == b)
    {
      if k < |parts| {
        assert all[k] == parts[k];
      }
    }
  }

  lemma MulSucc(n: nat, b: nat)
    ensures (n + 1) * b == n * b + b
  {
  }

  /** Past the last digit, the first digit is the first digit of n / 10. */
  lemma PadDigitsHead(n: nat, w: nat)
    requires !(n < 10 && w <= 1)
    ensures PadDigits(n, w)[0] == PadDigits(n / 10, if w == 0 then 0 else w - 1)[0]
  {
  }

  /** With fewer than 10^6 parts, sorting the file names sorts the parts by number. */
  lemma PartNamesSortByNumber(a: nat, b: nat)
    requires a < Pow10(6) && b < Pow10(6)
    ensures LexLess(PartName(a), PartName(b)) <==> a < b
  {
    var x, y := PadDigits(a, 6), PadDigits(b, 6);
    assert PartName(a) == "part_" + (x + ".parquet");
    assert PartName(b) == "part_" + (y + ".parquet");
    LexLessCommonPrefix("part_", x + ".parquet", y + ".parquet");
    if a == b {
      LexLessIrreflexive(x + ".parquet");
    } else {
      PadDigitsLength(a, 6);
      PadDigitsLength(b, 6);
      PadDigitsValue(a, 6);
      PadDigitsValue(b, 6);
      LexLessSameLength(x, y, ".parquet", ".parquet");
      DigitsOrder(x, y);
    }
  }

  /** A name whose number starts with a smaller digit sorts first, whatever the lengths. */
  lemma PartNameFirstDigit(a: nat, b: nat)
    requires PadDigits(a, 6)[0] < PadDigits(b, 6)[0]
    ensures LexLess(PartName(a), PartName(b))
  {
    var x, y := PadDigits(a, 6) + ".parquet", PadDigits(b, 6) + ".parquet";
    assert PartName(a) == "part_" + x;
    assert PartName(b) == "part_" + y;
    LexLessCommonPrefix("part_", x, y);
  }

  lemma LeadingDigits()
    ensures PadDigits(1000000, 6)[0] == '1'
    ensures PadDigits(999999, 6)[0] == '9'
  {
    PadDigitsHead(1000000, 6);
    PadDigitsHead(100000, 5);
    PadDigitsHead(10000, 4);
    PadDigitsHead(1000, 3);
    PadDigitsHead(100, 2);
    PadDigitsHead(10, 1);
    PadDigitsHead(999999, 6);
    PadDigitsHead(99999, 5);
    PadDigitsHead(9999, 4);
    PadDigitsHead(999, 3);
    PadDigitsHead(99, 2);
  }

  /** From part 1000000 on, the names no longer sort by number. */
  lemma MillionthPartSortsFirst()
    ensures LexLess(PartName(1000000), PartName(999999))
  {
    LeadingDigits();
    PartNameFirstDigit(1000000, 999999);
  }
}
