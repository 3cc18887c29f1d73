/** The string operations the cron parser relies on: whitespace splitting, splitting at a
    separator, stripping, partitioning at the first separator, and reading an integer. */
module Text {
  import opened Prelude

  /** The characters on which Python's `str.split()` and `str.strip()` act. */
  predicate IsSpace(c: char) {
    var n := c as int;
    || 9 <= n <= 13 || 28 <= n <= 32 || n == 0x85 || n == 0xA0 || n == 0x1680 || 0x2000 <= n <= 0x200A
    || n == 0x2028 || n == 0x2029 || n == 0x202F || n == 0x205F || n == 0x3000
  }

  predicate NoSpace(s: string) {
    forall k :: 0 <= k < |s| ==> !IsSpace(s[k])
  }

  /** The length of the word at the start of `s`. */
  function WordLength(s: string): (n: nat)
    ensures n <= |s| && NoSpace(s[..n])
    ensures n < |s| ==> IsSpace(s[n])
  {
    if s == [] || IsSpace(s[0]) then 0
    else
      var n := 1 + WordLength(s[1..]);
      assert s[..n] == [s[0]] + s[1..][..n - 1];
      n
  }

  /** `s.split()`: the maximal runs of non-space characters. */
  function Words(s: string): (r: seq<string>)
    ensures forall k :: 0 <= k < |r| ==> r[k] != "" && NoSpace(r[k])
    decreases |s|
  {
    if s == [] then []
    else if IsSpace(s[0]) then Words(s[1..])
    else [s[..WordLength(s)]] + Words(s[WordLength(s)..])
  }

  /** `s.split(sep)` for a one-character separator. */
  function Split(s: string, sep: char): (r: seq<string>)
    ensures |r| >= 1
    ensures NoSpace(s) ==> forall k :: 0 <= k < |r| ==> NoSpace(r[k])
  {
    if s == [] then [""]
    else
      var r := Split(s[1..], sep);
      if s[0] == sep then [""] + r else [[s[0]] + r[0]] + r[1..]
  }

  function StripLeft(s: string): string {
    if s != [] && IsSpace(s[0]) then StripLeft(s[1..]) else s
  }

  function StripRight(s: string): string {
    if s != [] && IsSpace(s[|s| - 1]) then StripRight(s[..|s| - 1]) else s
  }

  /** `s.strip()`. */
  function Strip(s: string): string {
    StripRight(StripLeft(s))
  }

  lemma StripNothing(s: string)
    requires NoSpace(s)
    ensures Strip(s) == s
  {
  }

  /** What stands before and after the first `sep`. */
  function Before(s: string, sep: char): (r: string)
    ensures sep !in r
  {
    if s == [] || s[0] == sep then "" else [s[0]] + Before(s[1..], sep)
  }

  function After(s: string, sep: char): string {
    if s == [] then "" else if s[0] == sep then s[1..] else After(s[1..], sep)
  }

  predicate IsDigit(c: char) {
    '0' <= c <= '9'
  }

  /** Decimal digits with single underscores between them, as Python's `int` reads ASCII text. */
  function ParseDigits(s: string): Option<nat> {
    if s == [] || !IsDigit(s[|s| - 1]) then None
    else
      var d := s[|s| - 1] as int - '0' as int;
      if |s| == 1 then Some(d)
      else
        var rest := if s[|s| - 2] == '_' then s[..|s| - 2] else s[..|s| - 1];
        match ParseDigits(rest)
        case None => None
        case Some(v) => Some(10 * v + d)
  }

  /** `int(s)`; `None` stands for ValueError. */
  function ParseInt(s: string): Option<int> {
    if s != [] && (s[0] == '+' || s[0] == '-') then
      match ParseDigits(s[1..])
      case None => None
      case Some(v) => Some(if s[0] == '-' then 0 - v else v)
    else
      match ParseDigits(s)
      case None => None
      case Some(v) => Some(v)
  }

  // ---------------------------------------------------------------- printing

  function PrintNat(n: nat): (s: string)
    ensures s != [] && forall k :: 0 <= k < |s| ==> IsDigit(s[k])
  {
    var d := [('0' as int + n % 10) as char];
    if n < 10 then d else PrintNat(n / 10) + d
  }

  lemma {:induction false} ParsePrintedDigits(n: nat)
    ensures ParseDigits(PrintNat(n)) == Some(n)
  {
    var s := PrintNat(n);
    if n >= 10 {
      ParsePrintedDigits(n / 10);
      assert s[..|s| - 1] == PrintNat(n / 10);
      assert IsDigit(s[|s| - 2]);
    }
  }

  lemma ParsePrinted(n: nat)
    ensures ParseInt(PrintNat(n)) == Some(n)
  {
    ParsePrintedDigits(n);
    assert IsDigit(PrintNat(n)[0]);
  }

  /** Signs and single underscores are read; an empty text, two underscores in a row or one at an
      end are not numbers. */
  lemma ParseForms(n: nat)
    ensures ParseInt("+" + PrintNat(n)) == Some(n) && ParseInt("-" + PrintNat(n)) == Some(0 - n)
    ensures ParseInt(PrintNat(n) + "_" + "7") == Some(10 * n + 7)
    ensures ParseInt("").None? && ParseInt("+").None? && ParseInt("-").None?
    ensures ParseInt(PrintNat(n) + "_").None? && ParseInt(PrintNat(n) + "__" + "7").None?
  {
    ParsePrintedDigits(n);
    var s := PrintNat(n);
    assert ("+" + s)[1..] == s && ("-" + s)[1..] == s;
    assert IsDigit(s[0]);
    var t := s + "_" + "7";
    assert t[|t| - 2] == '_' && t[..|t| - 2] == s;
    var u := s + "__" + "7";
    assert u[|u| - 2] == '_' && u[..|u| - 2] == s + "_";
  }

  /** `sep.join(parts)`. */
  function Join(parts: seq<string>, sep: char): string {
    if parts == [] then ""
    else if |parts| == 1 then parts[0]
    else parts[0] + [sep] + Join(parts[1..], sep)
  }

  lemma {:induction false} SplitPrefix(p: string, s: string, sep: char)
    requires sep !in p
    ensures Split(p + s, sep) == [p + Split(s, sep)[0]] + Split(s, sep)[1..]
  {
    if p == [] {
      assert p + s == s && p + Split(s, sep)[0] == Split(s, sep)[0];
    } else {
      SplitPrefix(p[1..], s, sep);
      assert (p + s)[1..] == p[1..] + s;
      var r := Split(p[1..] + s, sep);
      assert p[0] in p;
      assert [p[0]] + r[0] == p + Split(s, sep)[0];
      assert r[1..] == Split(s, sep)[1..];
    }
  }

  /** Splitting undoes joining when no part holds the separator. */
  lemma {:induction false} SplitJoined(parts: seq<string>, sep: char)
    requires parts != [] && forall k :: 0 <= k < |parts| ==> sep !in parts[k]
    ensures Split(Join(parts, sep), sep) == parts
  {
    if |parts| == 1 {
      assert parts[0] + "" == parts[0];
      SplitPrefix(parts[0], "", sep);
    } else {
      var rest := [sep] + Join(parts[1..], sep);
      SplitJoined(parts[1..], sep);
      assert rest[1..] == Join(parts[1..], sep);
      SplitPrefix(parts[0], rest, sep);
      assert Join(parts, sep) == parts[0] + rest;
      assert Split(rest, sep) == [""] + parts[1..];
      assert parts[0] + "" == parts[0];
    }
  }

  lemma {:induction false} WordLengthOf(w: string, s: string)
    requires NoSpace(w) && (s == [] || IsSpace(s[0]))
    ensures WordLength(w + s) == |w|
  {
    if w == [] {
      assert w + s == s;
    } else {
      assert (w + s)[1..] == w[1..] + s;
      WordLengthOf(w[1..], s);
    }
  }

  lemma WordsStep(w: string, s: string)
    requires w != "" && NoSpace(w) && (s == [] || IsSpace(s[0]))
    ensures Words(w + s) == [w] + Words(s)
  {
    WordLengthOf(w, s);
    assert (w + s)[..|w|] == w && (w + s)[|w|..] == s;
    assert (w + s)[0] == w[0];
  }

  lemma SpacedStep(w: string, more: string)
    requires w != "" && NoSpace(w)
    ensures Words(w + [' '] + more) == [w] + Words(more)
  {
    var s := [' '] + more;
    assert s[1..] == more;
    WordsStep(w, s);
    assert w + [' '] + more == w + s;
  }

  lemma OneWord(w: string)
    requires w != "" && NoSpace(w)
    ensures Words(w) == [w]
  {
    WordsStep(w, "");
    assert w + "" == w;
  }

  /** Blanks, tabs and line ends separate words; no visible ASCII character does. */
  lemma Separators(a: string, b: string, c: char)
    requires a != "" && b != "" && NoSpace(a) && NoSpace(b)
    ensures c in " \t\n\r" ==> Words(a + [c] + b) == [a, b]
    ensures '!' <= c <= '~' ==> Words(a + [c] + b) == [a + [c] + b]
  {
    var s := a + [c] + b;
    if c in " \t\n\r" {
      assert IsSpace(c) && s == a + ([c] + b) && ([c] + b)[1..] == b;
      WordsStep(a, [c] + b);
      OneWord(b);
    } else if '!' <= c <= '~' {
      assert !IsSpace(c);
      assert forall k :: 0 <= k < |s| ==> s[k] in a || s[k] == c || s[k] in b;
      OneWord(s);
    }
  }

  /** Whitespace splitting undoes joining non-empty words by spaces. */
  lemma {:induction false} WordsJoined(parts: seq<string>)
    requires forall k :: 0 <= k < |parts| ==> parts[k] != "" && NoSpace(parts[k])
    ensures Words(Join(parts, ' ')) == parts
  {
    if |parts| == 1 {
      OneWord(parts[0]);
    } else if |parts| > 1 {
      WordsJoined(parts[1..]);
      SpacedStep(parts[0], Join(parts[1..], ' '));
    }
  }
}
