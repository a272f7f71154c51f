/**
 * The Python string built-ins the pipeline relies on (str.strip, str.lower,
 * str.startswith, str.join, str.replace, int(), str(), format with a zero-padded
 * width, `<` on str) and the character classes of its regular expressions.
 */
module PyStrings {
  import opened Wrappers

  /** A cell of the source data: a missing value (None or NaN) or its text, str(value). */
  datatype Cell = Missing | Str(s: string)

  /** The characters for which str.isspace() holds; `\s` in a str pattern matches the same set. */
  const Whitespace: set<char> := {
    '\t', '\n', '\U{0B}', '\U{0C}', '\r', '\U{1C}', '\U{1D}', '\U{1E}', '\U{1F}', ' ',
    '\U{85}', '\U{A0}', '\U{1680}', '\U{2000}', '\U{2001}', '\U{2002}', '\U{2003}',
    '\U{2004}', '\U{2005}', '\U{2006}', '\U{2007}', '\U{2008}', '\U{2009}', '\U{200A}',
    '\U{2028}', '\U{2029}', '\U{202F}', '\U{205F}', '\U{3000}'
  }

  predicate IsSpace(c: char) {
    c in Whitespace
  }

  /** The character classes that the regular expressions and strip calls work with. */
  datatype CharClass =
    | Space         // \s
    | Semicolon     // the argument of str.strip(';')
    | NotDelimiter  // [^;,\.]
    | AddressChar   // [^\s;,\.]
    | AsciiLetter   // [a-zA-Z]

  predicate InClass(c: char, k: CharClass) {
    match k
    case Space => IsSpace(c)
    case Semicolon => c == ';'
    case NotDelimiter => c != ';' && c != ',' && c != '.'
    case AddressChar => !IsSpace(c) && c != ';' && c != ',' && c != '.'
    case AsciiLetter => 'a' <= c <= 'z' || 'A' <= c <= 'Z'
  }

  /** The end of the longest run of class-`k` characters that starts at `i` (a greedy `k*`). */
  function Span(s: string, i: nat, k: CharClass): (j: nat)
    requires i <= |s|
    ensures i <= j <= |s|
    ensures forall m :: i <= m < j ==> InClass(s[m], k)
    ensures j < |s| ==> !InClass(s[j], k)
    decreases |s| - i
  {
    if i < |s| && InClass(s[i], k) then Span(s, i + 1, k) else i
  }

  /** A run end is determined by its two defining facts. */
  lemma {:induction false} SpanIs(s: string, i: nat, k: CharClass, j: nat)
    requires i <= j <= |s|
    requires forall m :: i <= m < j ==> InClass(s[m], k)
    requires j < |s| ==> !InClass(s[j], k)
    ensures Span(s, i, k) == j
    decreases |s| - i
  {
    if i < j {
      SpanIs(s, i + 1, k, j);
    }
  }

  /** Dropping the first character shifts every run end by one. */
  lemma SpanDrop(s: string, i: nat, k: CharClass)
    requires 0 < i <= |s|
    ensures Span(s[1..], i - 1, k) + 1 == Span(s, i, k)
  {
    var j := Span(s, i, k);
    forall m | i - 1 <= m < j - 1 ensures InClass(s[1..][m], k) {
      assert s[1..][m] == s[m + 1];
    }
    if j < |s| {
      assert s[1..][j - 1] == s[j];
    }
    SpanIs(s[1..], i - 1, k, j - 1);
  }

  /** The start of the longest run of class-`k` characters that ends at `j`. */
  function SpanBack(s: string, j: nat, k: CharClass): (i: nat)
    requires j <= |s|
    ensures i <= j
    ensures forall m :: i <= m < j ==> InClass(s[m], k)
    ensures 0 < i ==> !InClass(s[i - 1], k)
  {
    if 0 < j && InClass(s[j - 1], k) then SpanBack(s, j - 1, k) else j
  }

  /** str.strip(chars) where `chars` are the characters of class `k`. */
  function Strip(s: string, k: CharClass): (r: string)
    ensures Span(s, 0, k) + |r| <= |s|
    ensures r == s[Span(s, 0, k)..Span(s, 0, k) + |r|]
    ensures r != [] ==> !InClass(r[0], k) && !InClass(r[|r| - 1], k)
    ensures forall i :: Span(s, 0, k) + |r| <= i < |s| ==> InClass(s[i], k)
    ensures r == [] <==> forall i :: 0 <= i < |s| ==> InClass(s[i], k)
  {
    var a := Span(s, 0, k);
    var t := s[a..];
    var b := SpanBack(t, |t|, k);
    t[..b]
  }

  /** str.strip() with no argument. */
  function StripSpaces(s: string): (r: string) {
    Strip(s, Space)
  }

  /** str.lower() restricted to ASCII letters. */
  function LowerChar(c: char): (d: char)
    ensures 'A' <= c <= 'Z' ==> 'a' <= d <= 'z' && d as int == c as int + 32
    ensures !('A' <= c <= 'Z') ==> d == c
  {
    if 'A' <= c <= 'Z' then (c as int + 32) as char else c
  }

  function Lower(s: string): (r: string)
    ensures |r| == |s|
    ensures forall i :: 0 <= i < |s| ==> r[i] == LowerChar(s[i])
  {
    if s == [] then [] else [LowerChar(s[0])] + Lower(s[1..])
  }

  predicate StartsWith(s: string, prefix: string) {
    |prefix| <= |s| && s[..|prefix|] == prefix
  }

  /** sep.join(parts). */
  function Join(parts: seq<string>, sep: string): (r: string)
    ensures parts == [] ==> r == ""
    ensures |parts| == 1 ==> r == parts[0]
    ensures |parts| > 1 ==> StartsWith(r, parts[0] + sep)
  {
    if parts == [] then ""
    else if |parts| == 1 then parts[0]
    else parts[0] + sep + Join(parts[1..], sep)
  }

  /** str.replace(pattern, replacement): left to right, non-overlapping occurrences. */
  function ReplaceAll(s: string, pattern: string, replacement: string): string
    requires pattern != []
    decreases |s|
  {
    if s == [] then []
    else if StartsWith(s, pattern) then replacement + ReplaceAll(s[|pattern|..], pattern, replacement)
    else [s[0]] + ReplaceAll(s[1..], pattern, replacement)
  }

  /** str.replace leaves a string alone when its first letter cannot start the pattern. */
  lemma {:induction false} ReplaceAllUntouched(s: string, pattern: string, replacement: string)
    requires pattern != []
    requires forall i :: 0 <= i < |s| ==> s[i] != pattern[0]
    ensures ReplaceAll(s, pattern, replacement) == s
  {
    if s != [] {
      assert !StartsWith(s, pattern) by {
        if |pattern| <= |s| {
          assert s[..|pattern|][0] == s[0];
        }
      }
      ReplaceAllUntouched(s[1..], pattern, replacement);
      assert s == [s[0]] + s[1..];
    }
  }

  predicate IsDigit(c: char) {
    '0' <= c <= '9'
  }

  function DigitChar(d: nat): (c: char)
    requires d < 10
    ensures IsDigit(c) && c as int - '0' as int == d
  {
    "0123456789"[d]
  }

  /** format(n, '0wd') for n >= 0: the decimal digits of n, left-padded with '0' to width w. */
  function PadDigits(n: nat, w: nat): (r: string)
    ensures r != []
    ensures forall i :: 0 <= i < |r| ==> IsDigit(r[i])
    decreases n + w
  {
    if n < 10 && w <= 1 then [DigitChar(n)]
    else PadDigits(n / 10, if w == 0 then 0 else w - 1) + [DigitChar(n % 10)]
  }

  /** str(n) for an int. */
  function IntToString(n: int): string {
    if n < 0 then "-" + PadDigits(-n, 0) else PadDigits(n, 0)
  }

  /** The value of a non-empty run of decimal digits. */
  function DigitsValue(s: string): nat
    requires forall i :: 0 <= i < |s| ==> IsDigit(s[i])
  {
    if s == [] then 0
    else
      assert IsDigit(s[|s| - 1]);
      DigitsValue(s[..|s| - 1]) * 10 + (s[|s| - 1] as int - '0' as int)
  }

  /**
   * int(s) for an optional sign followed by ASCII digits; every other string is
   * a ValueError here (None).
   */
  function ParseInt(s: string): Option<int> {
    var signed := s != [] && (s[0] == '-' || s[0] == '+');
    var body := if signed then s[1..] else s;
    if body != [] && forall i :: 0 <= i < |body| ==> IsDigit(body[i]) then
      var v: int := DigitsValue(body);
      Some(if signed && s[0] == '-' then -v else v)
    else None
  }

  function Pow10(n: nat): (p: nat)
    ensures p >= 1
  {
    if n == 0 then 1 else 10 * Pow10(n - 1)
  }

  /** The padded digits read back as the number. */
  lemma {:induction false} PadDigitsValue(n: nat, w: nat)
    ensures DigitsValue(PadDigits(n, w)) == n
    decreases n + w
  {
    if !(n < 10 && w <= 1) {
      var p := PadDigits(n / 10, if w == 0 then 0 else w - 1);
      PadDigitsValue(n / 10, if w == 0 then 0 else w - 1);
      assert PadDigits(n, w) == p + [DigitChar(n % 10)];
      assert (p + [DigitChar(n % 10)])[..|p|] == p;
    } else {
      assert PadDigits(n, w)[..0] == [];
    }
  }

  /** A number below 10^w takes exactly w padded digits. */
  lemma {:induction false} PadDigitsLength(n: nat, w: nat)
    requires 1 <= w && n < Pow10(w)
    ensures |PadDigits(n, w)| == w
    decreases w
  {
    if w > 1 {
      PadDigitsLength(n / 10, w - 1);
    }
  }

  /** A run of k digits is worth less than 10^k. */
  lemma {:induction false} DigitsValueBound(x: string)
    requires forall i :: 0 <= i < |x| ==> IsDigit(x[i])
    ensures DigitsValue(x) < Pow10(|x|)
  {
    if x != [] {
      DigitsValueBound(x[..|x| - 1]);
    }
  }

  /** The value of a digit run, read from its first digit. */
  lemma {:induction false} DigitsValueFront(x: string)
    requires x != [] && forall i :: 0 <= i < |x| ==> IsDigit(x[i])
    ensures DigitsValue(x) == (x[0] as int - '0' as int) * Pow10(|x| - 1) + DigitsValue(x[1..])
  {
    if |x| > 1 {
      var init := x[..|x| - 1];
      DigitsValueFront(init);
      var d0, dl := x[0] as int - '0' as int, x[|x| - 1] as int - '0' as int;
      var p := Pow10(|x| - 2);
      var a, b := DigitsValue(init[1..]), DigitsValue(x[1..]);
      assert b == a * 10 + dl by {
        assert init[1..] == x[1..][..|x[1..]| - 1];
        assert x[1..][|x[1..]| - 1] == x[|x| - 1];
      }
      assert init[0] == x[0];
      assert DigitsValue(init) == d0 * p + a;
      assert DigitsValue(x) == DigitsValue(init) * 10 + dl;
      assert Pow10(|x| - 1) == 10 * p;
      ShiftDigit(d0, p, a, dl);
    } else {
      assert x[..0] == [];
    }
  }

  lemma ShiftDigit(d0: int, p: int, a: int, dl: int)
    ensures (d0 * p + a) * 10 + dl == d0 * (10 * p) + (a * 10 + dl)
  {
  }

  lemma FrontDominates(dx: int, dy: int, rx: int, ry: int, p: int)
    requires dy < dx && 0 <= rx && 0 <= ry < p
    ensures dy * p + ry < dx * p + rx
  {
    assert (dy + 1) * p <= dx * p;
  }

  /** On digit runs of equal length, the string order is the numeric order. */
  lemma {:induction false} DigitsOrder(x: string, y: string)
    requires |x| == |y|
    requires forall i :: 0 <= i < |x| ==> IsDigit(x[i])
    requires forall i :: 0 <= i < |y| ==> IsDigit(y[i])
    ensures LexLess(x, y) <==> DigitsValue(x) < DigitsValue(y)
  {
    if x != [] {
      DigitsValueFront(x);
      DigitsValueFront(y);
      DigitsValueBound(x[1..]);
      DigitsValueBound(y[1..]);
      var dx, dy := x[0] as int - '0' as int, y[0] as int - '0' as int;
      var p := Pow10(|x| - 1);
      if dx < dy {
        FrontDominates(dy, dx, DigitsValue(y[1..]), DigitsValue(x[1..]), p);
      } else if dy < dx {
        FrontDominates(dx, dy, DigitsValue(x[1..]), DigitsValue(y[1..]), p);
      } else {
        DigitsOrder(x[1..], y[1..]);
      }
    }
  }

  /** Python's `<` on str is irreflexive and decided after a common prefix. */
  lemma {:induction false} LexLessIrreflexive(x: string)
    ensures !LexLess(x, x)
  {
    if x != [] {
      LexLessIrreflexive(x[1..]);
    }
  }

  lemma {:induction false} LexLessCommonPrefix(p: string, x: string, y: string)
    ensures LexLess(p + x, p + y) <==> LexLess(x, y)
  {
    if p != [] {
      LexLessCommonPrefix(p[1..], x, y);
      assert (p + x)[1..] == p[1..] + x;
      assert (p + y)[1..] == p[1..] + y;
    } else {
      assert p + x == x && p + y == y;
    }
  }

  /** After two strings of the same length, what follows does not matter unless they are equal. */
  lemma {:induction false} LexLessSameLength(x: string, y: string, q: string, q': string)
    requires |x| == |y| && x != y
    ensures LexLess(x + q, y + q') <==> LexLess(x, y)
  {
    if x[0] == y[0] {
      assert x[1..] != y[1..] by {
        assert x == [x[0]] + x[1..] && y == [y[0]] + y[1..];
      }
      LexLessSameLength(x[1..], y[1..], q, q');
      assert (x + q)[1..] == x[1..] + q;
      assert (y + q')[1..] == y[1..] + q';
    }
  }

  /** int() of a digit run, with and without a minus sign. */
  lemma ParseIntOfDigits(body: string)
    requires body != [] && forall i :: 0 <= i < |body| ==> IsDigit(body[i])
    ensures ParseInt(body) == Some(DigitsValue(body))
    ensures ParseInt("-" + body) == Some(-(DigitsValue(body) as int))
  {
    assert IsDigit(body[0]);
    var minus := "-" + body;
    assert minus[0] == '-' && minus[1..] == body;
  }

  /** int(str(n)) == n: the conversion the topic-column names rely on. */
  lemma ParseIntOfIntToString(n: int)
    ensures ParseInt(IntToString(n)) == Some(n)
  {
    var m: nat := if n < 0 then -n else n;
    var digits := PadDigits(m, 0);
    PadDigitsValue(m, 0);
    ParseIntOfDigits(digits);
  }

  /** Python's `<` on str: lexicographic order by code point, a proper prefix first. */
  predicate LexLess(a: string, b: string)
    decreases |a|
  {
    if a == [] then b != []
    else b != [] && (a[0] < b[0] || (a[0] == b[0] && LexLess(a[1..], b[1..])))
  }

  /** s[:k] with Python's slice rules, negative k counting from the end. */
  function PyTake<T>(s: seq<T>, k: int): (r: seq<T>)
    ensures |r| <= |s| && r == s[..|r|]
    ensures 0 <= k ==> |r| == if k < |s| then k else |s|
    ensures k < 0 ==> |r| == if |s| + k < 0 then 0 else |s| + k
  {
    if 0 <= k then (if k < |s| then s[..k] else s)
    else if |s| + k < 0 then []
    else s[..|s| + k]
  }
}
