/** Parsing of five-field cron text (panel/main.py:978-1041).

    `Denotes` says directly which values a token contributes to a field; the parser loops are
    proved to compute exactly the union of these meanings.  A step is taken on the value
    itself (`x % step == 0`), as the program does, not as an offset from the range start. */
module CronParse {
  import opened Prelude
  import opened Text
  import opened CronSearch

  /** `_cron_field_range`: the first value of a field, and the first value past it. */
  function Low(field: nat): int {
    if field == 2 || field == 3 then 1 else 0
  }

  function High(field: nat): int {
    match field
    case 0 => 60
    case 1 => 24
    case 2 => 32
    case 3 => 13
    case 4 => 7
    case _ => 0
  }

  predicate InField(field: nat, x: int) {
    Low(field) <= x < High(field)
  }

  function Allowed(field: nat): set<int> {
    set x: int | Low(field) <= x < High(field) && InField(field, x)
  }

  /** The three ways a parse ends: `None`, a ZeroDivisionError, or five sets. */
  datatype Outcome = Rejected | DivisionByZero | Parsed(cron: Cron)

  // ---------------------------------------------------------------- meaning

  /** `x` is one of the values written `7` or `2-9`. */
  predicate InRange(token: string, x: int) {
    if '-' in token then
      var lo, hi := ParseInt(Before(token, '-')), ParseInt(After(token, '-'));
      lo.Some? && hi.Some? && lo.value <= x <= hi.value
    else ParseInt(token) == Some(x)
  }

  /** `x` is among the values a stepped token starts from. */
  predicate InBase(base: string, x: int) {
    base == "*" || InRange(base, x)
  }

  predicate Divides(step: int, x: int) {
    step != 0 && x % step == 0
  }

  /** The meaning of one token of a field, for an `x` in the field's range. */
  predicate Denotes(token: string, x: int) {
    if token == "*" then true
    else if '/' in token then
      var step := ParseInt(After(token, '/'));
      step.Some? && Divides(step.value, x) && InBase(Before(token, '/'), x)
    else InRange(token, x)
  }

  /** The meaning of a whole field. */
  function Meaning(field: nat, part: string): set<int> {
    set x | x in Allowed(field) && exists k :: 0 <= k < |Split(part, ',')| && Denotes(Split(part, ',')[k], x)
  }

  /** A step of zero is tried on at least one value. */
  predicate Raises(field: nat, token: string) {
    && token != "*" && '/' in token
    && ParseInt(After(token, '/')) == Some(0)
    && exists x :: x in Allowed(field) && InBase(Before(token, '/'), x)
  }

  predicate FieldRaises(field: nat, part: string) {
    exists k :: 0 <= k < |Split(part, ',')| && Raises(field, Split(part, ',')[k])
  }

  /** What `_parse_cron` makes of a pattern. */
  function Outcomes(expr: string): Outcome {
    var w := Words(expr);
    if |w| != 5 then Rejected
    else if exists i :: 0 <= i < 5 && FieldRaises(i, w[i]) then DivisionByZero
    else if exists i :: 0 <= i < 5 && Meaning(i, w[i]) == {} then Rejected
    else Parsed(Cron(Meaning(0, w[0]), Meaning(1, w[1]), Meaning(2, w[2]), Meaning(3, w[3]), Meaning(4, w[4])))
  }

  // ---------------------------------------------------------------- the parser

  /** `_cron_range`. */
  method CronRange(token: string, field: nat) returns (r: set<int>)
    ensures forall x :: x in r <==> x in Allowed(field) && InRange(token, x)
  {
    var allowed := Allowed(field);
    if '-' in token {
      var lo, hi := ParseInt(Before(token, '-')), ParseInt(After(token, '-'));
      if lo.None? || hi.None? {
        return {};
      }
      r := {};
      var x := lo.value;
      while x < hi.value + 1
        invariant forall y :: y in r <==> y in allowed && lo.value <= y < x && y <= hi.value
      {
        if x in allowed {
          r := r + {x};
        }
        x := x + 1;
      }
    } else {
      var v := ParseInt(token);
      r := if v.Some? && v.value in allowed then {v.value} else {};
    }
  }

  /** The body of the token loop: what one token adds, or the error it raises. */
  method TokenValues(token: string, field: nat) returns (raised: bool, r: set<int>)
    ensures raised <==> Raises(field, token)
    ensures !raised ==> forall x :: x in r <==> x in Allowed(field) && Denotes(token, x)
  {
    var allowed := Allowed(field);
    raised, r := false, {};
    if token == "*" {
      r := allowed;
    } else if '/' in token {
      var base, step := Before(token, '/'), ParseInt(After(token, '/'));
      if step.None? {
        return;
      }
      var rng: set<int>;
      if base == "*" {
        rng := allowed;
      } else {
        rng := CronRange(base, field);
      }
      if step.value == 0 {
        if w :| w in rng {
          assert w in allowed && InBase(base, w);
          raised := true;
        }
      } else {
        r := set x | x in rng && x % step.value == 0;
      }
    } else {
      r := CronRange(token, field);
    }
  }

  /** One field: the loop over its comma-separated tokens. */
  method ParseField(part: string, field: nat) returns (raised: bool, values: set<int>)
    requires NoSpace(part)
    ensures raised <==> FieldRaises(field, part)
    ensures !raised ==> values == Meaning(field, part)
  {
    var tokens := Split(part, ',');
    values := {};
    for k := 0 to |tokens|
      invariant forall j :: 0 <= j < k ==> !Raises(field, tokens[j])
      invariant forall x :: x in values
                       <==> x in Allowed(field) && exists j :: 0 <= j < k && Denotes(tokens[j], x)
    {
      StripNothing(tokens[k]);
      var token := Strip(tokens[k]);
      if token == "" {
        continue;
      }
      var more;
      raised, more := TokenValues(token, field);
      if raised {
        return;
      }
      values := values + more;
    }
    raised := false;
  }

  /** `_parse_cron`. */
  method ParseCron(expr: string) returns (r: Outcome)
    ensures r == Outcomes(expr)
  {
    var parts := Words(expr);
    if |parts| != 5 {
      return Rejected;
    }
    var fields: seq<set<int>> := [];
    for i := 0 to 5
      invariant |fields| == i
      invariant forall j :: 0 <= j < i ==> !FieldRaises(j, parts[j]) && fields[j] == Meaning(j, parts[j])
    {
      var raised, values := ParseField(parts[i], i);
      if raised {
        return DivisionByZero;
      }
      fields := fields + [values];
    }
    if exists i :: 0 <= i < 5 && fields[i] == {} {
      return Rejected;
    }
    return Parsed(Cron(fields[0], fields[1], fields[2], fields[3], fields[4]));
  }

  // ---------------------------------------------------------------- properties

  /** Some token of the field denotes some value of its range. */
  ghost predicate Denoted(field: nat, part: string) {
    exists k, x :: 0 <= k < |Split(part, ',')| && InField(field, x) && Denotes(Split(part, ',')[k], x)
  }

  lemma DenotedIff(field: nat, part: string)
    ensures Denoted(field, part) <==> Meaning(field, part) != {}
  {
    var m := Meaning(field, part);
    if Denoted(field, part) {
      var k, x :| 0 <= k < |Split(part, ',')| && InField(field, x) && Denotes(Split(part, ',')[k], x);
      assert x in m;
    } else {
      assert forall x :: x !in m;
    }
  }

  /** A parse without a zero step succeeds exactly when there are five fields and each has a token
      that denotes a value in its range; the result is then five non-empty sets in range. */
  lemma ParsedIff(expr: string)
    requires forall i :: 0 <= i < |Words(expr)| ==> !FieldRaises(i, Words(expr)[i])
    ensures Outcomes(expr).Parsed?
       <==> |Words(expr)| == 5 && forall i :: 0 <= i < 5 ==> Denoted(i, Words(expr)[i])
    ensures Outcomes(expr).Parsed? ==> WellFormed(Outcomes(expr).cron)
  {
    var w := Words(expr);
    forall i | 0 <= i < |w| ensures Denoted(i, w[i]) <==> Meaning(i, w[i]) != {} {
      DenotedIff(i, w[i]);
    }
  }

  /** A step of zero raises whatever the other fields hold, if there are five. */
  lemma ZeroStepFirst(expr: string, i: nat)
    requires |Words(expr)| == 5 && i < 5 && FieldRaises(i, Words(expr)[i])
    ensures Outcomes(expr) == DivisionByZero
  {
  }

  /** Any other number of fields is rejected without looking at them. */
  lemma FiveFieldsOnly(expr: string)
    requires |Words(expr)| != 5
    ensures Outcomes(expr) == Rejected
  {
  }

  /** The order and repetition of a field's tokens do not matter: only which tokens occur. */
  lemma TokenOrderIrrelevant(field: nat, a: string, b: string)
    requires forall t :: t in Split(a, ',') <==> t in Split(b, ',')
    ensures Meaning(field, a) == Meaning(field, b) && (FieldRaises(field, a) <==> FieldRaises(field, b))
  {
    SameTokens(field, a, b);
    SameTokens(field, b, a);
  }

  lemma SameTokens(field: nat, a: string, b: string)
    requires forall t :: t in Split(a, ',') ==> t in Split(b, ',')
    ensures Meaning(field, a) <= Meaning(field, b) && (FieldRaises(field, a) ==> FieldRaises(field, b))
  {
    var p, q := Split(a, ','), Split(b, ',');
    forall x | x in Meaning(field, a) ensures x in Meaning(field, b) {
      var k :| 0 <= k < |p| && Denotes(p[k], x);
      assert p[k] in q;
    }
    if FieldRaises(field, a) {
      var k :| 0 <= k < |p| && Raises(field, p[k]);
      assert p[k] in q;
    }
  }

  // ---------------------------------------------------------------- printing

  /** Five non-empty sets, each within its field's range. */
  predicate WellFormed(c: Cron) {
    && c.minute != {} && c.minute <= Allowed(0)
    && c.hour != {} && c.hour <= Allowed(1)
    && c.dom != {} && c.dom <= Allowed(2)
    && c.month != {} && c.month <= Allowed(3)
    && c.dow != {} && c.dow <= Allowed(4)
  }

  /** The members of `s` in `[lo, hi)`, ascending, in decimal. */
  function Numerals(s: set<int>, lo: nat, hi: nat): (r: seq<string>)
    ensures forall k :: 0 <= k < |r| ==> r[k] != "" && forall j :: 0 <= j < |r[k]| ==> IsDigit(r[k][j])
    decreases hi - lo
  {
    if lo >= hi then []
    else (if lo in s then [PrintNat(lo)] else []) + Numerals(s, lo + 1, hi)
  }

  function FieldNumerals(s: set<int>, field: nat): seq<string> {
    Numerals(s, Low(field), High(field))
  }

  function PrintField(s: set<int>, field: nat): string {
    Join(FieldNumerals(s, field), ',')
  }

  function FieldSets(c: Cron): seq<set<int>> {
    [c.minute, c.hour, c.dom, c.month, c.dow]
  }

  function FieldTexts(c: Cron): seq<string> {
    seq(5, i requires 0 <= i < 5 => PrintField(FieldSets(c)[i], i))
  }

  function PrintCron(c: Cron): string {
    Join(FieldTexts(c), ' ')
  }

  lemma NumeralsAre(s: set<int>, lo: nat, hi: nat)
    ensures forall t :: t in Numerals(s, lo, hi) <==> exists v: nat :: lo <= v < hi && v in s && t == PrintNat(v)
    decreases hi - lo
  {
    if lo < hi {
      NumeralsAre(s, lo + 1, hi);
      forall t
        ensures t in Numerals(s, lo, hi) <==> exists v: nat :: lo <= v < hi && v in s && t == PrintNat(v)
      {
        if t in Numerals(s, lo, hi) && t !in Numerals(s, lo + 1, hi) {
          assert t == PrintNat(lo);
        }
        if v: nat :| lo <= v < hi && v in s && t == PrintNat(v) {
          assert v == lo || t in Numerals(s, lo + 1, hi);
        }
      }
    }
  }

  lemma NumeralDenotes(v: nat, x: int)
    ensures Denotes(PrintNat(v), x) <==> x == v
    ensures '/' !in PrintNat(v) && PrintNat(v) != "*"
  {
    ParsePrinted(v);
    var t := PrintNat(v);
    assert forall k :: 0 <= k < |t| ==> IsDigit(t[k]);
    assert t[0] != '*';
  }

  lemma DigitsOnly(t: string, c: char)
    requires forall j :: 0 <= j < |t| ==> IsDigit(t[j])
    ensures c in t ==> IsDigit(c)
  {
  }

  lemma JoinedChars(parts: seq<string>, c: char, sep: char)
    requires c in Join(parts, sep)
    ensures c == sep || exists k :: 0 <= k < |parts| && c in parts[k]
  {
    if |parts| > 1 && c !in parts[0] && c != sep {
      JoinedChars(parts[1..], c, sep);
      var k :| 0 <= k < |parts[1..]| && c in parts[1..][k];
      assert c in parts[k + 1];
    }
  }

  lemma FieldChar(s: set<int>, field: nat, c: char)
    requires c in PrintField(s, field)
    ensures c == ',' || IsDigit(c)
  {
    var r := FieldNumerals(s, field);
    JoinedChars(r, c, ',');
    if c != ',' {
      var k :| 0 <= k < |r| && c in r[k];
      DigitsOnly(r[k], c);
    }
  }

  lemma NumeralOf(s: set<int>, field: nat, k: nat) returns (v: nat)
    requires k < |FieldNumerals(s, field)|
    ensures v in s && FieldNumerals(s, field)[k] == PrintNat(v)
  {
    NumeralsAre(s, Low(field), High(field));
    assert FieldNumerals(s, field)[k] in FieldNumerals(s, field);
    v :| v in s && FieldNumerals(s, field)[k] == PrintNat(v);
  }

  lemma NumeralsDenote(s: set<int>, field: nat, y: int)
    requires InField(field, y)
    ensures y in s <==> exists k :: 0 <= k < |FieldNumerals(s, field)| && Denotes(FieldNumerals(s, field)[k], y)
  {
    var r := FieldNumerals(s, field);
    NumeralsAre(s, Low(field), High(field));
    if y in s {
      assert PrintNat(y) in r;
      var k :| 0 <= k < |r| && r[k] == PrintNat(y);
      NumeralDenotes(y, y);
    }
    if k :| 0 <= k < |r| && Denotes(r[k], y) {
      var v := NumeralOf(s, field, k);
      NumeralDenotes(v, y);
    }
  }

  lemma PrintedText(s: set<int>, field: nat)
    requires s != {} && s <= Allowed(field)
    ensures Split(PrintField(s, field), ',') == FieldNumerals(s, field)
    ensures NoSpace(PrintField(s, field)) && PrintField(s, field) != ""
  {
    var r := FieldNumerals(s, field);
    NumeralsAre(s, Low(field), High(field));
    var x: int :| x in s;
    assert x in Allowed(field);
    assert PrintNat(x) in r;
    forall k | 0 <= k < |r| ensures ',' !in r[k] {
      DigitsOnly(r[k], ',');
    }
    SplitJoined(r, ',');
    forall k | 0 <= k < |PrintField(s, field)| ensures !IsSpace(PrintField(s, field)[k]) {
      FieldChar(s, field, PrintField(s, field)[k]);
    }
  }

  lemma PrintedField(s: set<int>, field: nat)
    requires s != {} && s <= Allowed(field)
    ensures NoSpace(PrintField(s, field)) && PrintField(s, field) != ""
    ensures Meaning(field, PrintField(s, field)) == s && !FieldRaises(field, PrintField(s, field))
  {
    PrintedText(s, field);
    forall y | y in Allowed(field) ensures y in s <==> y in Meaning(field, PrintField(s, field)) {
      NumeralsDenote(s, field, y);
    }
    forall k | 0 <= k < |FieldNumerals(s, field)| ensures !Raises(field, FieldNumerals(s, field)[k]) {
      var v := NumeralOf(s, field, k);
      NumeralDenotes(v, 0);
    }
  }

  /** Round trip: printing five sets as comma lists and parsing the text gives the sets back. */
  lemma PrintParse(c: Cron)
    requires WellFormed(c)
    ensures Outcomes(PrintCron(c)) == Parsed(c)
  {
    var parts, sets := FieldTexts(c), FieldSets(c);
    forall i | 0 <= i < 5
      ensures NoSpace(parts[i]) && parts[i] != "" && Meaning(i, parts[i]) == sets[i] && !FieldRaises(i, parts[i])
    {
      assert sets[i] != {} && sets[i] <= Allowed(i);
      PrintedField(sets[i], i);
    }
    WordsJoined(parts);
    FiveFields(PrintCron(c), parts, sets);
  }

  lemma FiveFields(expr: string, parts: seq<string>, sets: seq<set<int>>)
    requires Words(expr) == parts && |parts| == |sets| == 5
    requires forall i :: 0 <= i < 5 ==> Meaning(i, parts[i]) == sets[i] != {} && !FieldRaises(i, parts[i])
    ensures Outcomes(expr) == Parsed(Cron(sets[0], sets[1], sets[2], sets[3], sets[4]))
  {
  }

  // ---------------------------------------------------------------- what is written

  /** Text with a `sep` in it splits there. */
  lemma {:induction false} Partition(a: string, sep: char, b: string)
    requires sep !in a
    ensures Before(a + [sep] + b, sep) == a && After(a + [sep] + b, sep) == b
  {
    if a == "" {
      assert a + [sep] + b == [sep] + b;
    } else {
      assert a[0] in a;
      assert (a + [sep] + b)[1..] == a[1..] + [sep] + b;
      Partition(a[1..], sep, b);
      assert [a[0]] + a[1..] == a;
    }
  }

  /** A token without a comma is a field of its own. */
  lemma OneToken(token: string)
    requires ',' !in token
    ensures Split(token, ',') == [token]
  {
    assert token + "" == token;
    SplitPrefix(token, "", ',');
  }

  lemma OneTokenMeaning(field: nat, token: string, x: int)
    requires ',' !in token
    ensures x in Meaning(field, token) <==> InField(field, x) && Denotes(token, x)
    ensures FieldRaises(field, token) <==> Raises(field, token)
  {
    OneToken(token);
    var one := Split(token, ',');
    assert one[0] == token;
  }

  /** The decimal numeral of `n` holds digits only. */
  lemma NumeralChars(n: nat, c: char)
    requires !IsDigit(c)
    ensures c !in PrintNat(n)
  {
    DigitsOnly(PrintNat(n), c);
  }

  function RangeText(a: nat, b: nat): string {
    PrintNat(a) + "-" + PrintNat(b)
  }

  function Stepped(base: string, s: nat): string {
    base + "/" + PrintNat(s)
  }

  /** `x` is a multiple of `s`. */
  ghost predicate Multiple(x: int, s: nat) {
    exists k: int :: x == k * s
  }

  lemma MultipleIff(x: int, s: nat)
    requires s > 0
    ensures Multiple(x, s) <==> Divides(s, x)
  {
    if x % s == 0 {
      assert x == (x / s) * s;
    }
    if k: int :| x == k * s {
      MultipleRest(k, s);
    }
  }

  lemma MultipleRest(k: int, s: nat)
    requires s > 0
    ensures (k * s) % s == 0
  {
    var q, r := (k * s) / s, (k * s) % s;
    assert s * (k - q) == r;
    var d := k - q;
    if d >= 1 {
      assert s * (d - 1) >= 0;
    } else if d <= -1 {
      assert s * (-d - 1) >= 0;
    }
  }

  lemma RangeToken(a: nat, b: nat, x: int)
    ensures InRange(RangeText(a, b), x) <==> a <= x <= b
    ensures ',' !in RangeText(a, b) && '/' !in RangeText(a, b) && RangeText(a, b) != "*"
  {
    var text := RangeText(a, b);
    NumeralChars(a, '-');
    Partition(PrintNat(a), '-', PrintNat(b));
    ParsePrinted(a);
    ParsePrinted(b);
    assert text[|PrintNat(a)|] == '-';
    NumeralChars(a, ',');
    NumeralChars(b, ',');
    NumeralChars(a, '/');
    NumeralChars(b, '/');
  }

  lemma SteppedToken(base: string, s: nat, x: int)
    requires ',' !in base && '/' !in base
    ensures var token := Stepped(base, s);
            && ',' !in token && '/' in token && token != "*"
            && Before(token, '/') == base && ParseInt(After(token, '/')) == Some(s)
  {
    NumeralChars(s, ',');
    Partition(base, '/', PrintNat(s));
    ParsePrinted(s);
    assert Stepped(base, s)[|base|] == '/';
  }

  lemma StepDenotes(base: string, s: nat, x: int)
    requires ',' !in base && '/' !in base && s > 0
    ensures Denotes(Stepped(base, s), x) <==> Multiple(x, s) && InBase(base, x)
  {
    SteppedToken(base, s, x);
    MultipleIff(x, s);
  }

  /** `*` stands for the whole field: minutes 0-59, hours 0-23, days 1-31, months 1-12, weekdays 0-6. */
  lemma StarMeaning(x: int)
    ensures x in Meaning(0, "*") <==> 0 <= x <= 59
    ensures x in Meaning(1, "*") <==> 0 <= x <= 23
    ensures x in Meaning(2, "*") <==> 1 <= x <= 31
    ensures x in Meaning(3, "*") <==> 1 <= x <= 12
    ensures x in Meaning(4, "*") <==> 0 <= x <= 6
  {
    forall field: nat ensures x in Meaning(field, "*") <==> InField(field, x) {
      OneTokenMeaning(field, "*", x);
    }
  }

  /** A numeral stands for its value, if the field has it. */
  lemma NumeralMeaning(field: nat, v: nat, x: int)
    ensures x in Meaning(field, PrintNat(v)) <==> x in Meaning(field, "*") && x == v
  {
    NumeralChars(v, ',');
    OneTokenMeaning(field, PrintNat(v), x);
    OneTokenMeaning(field, "*", x);
    NumeralDenotes(v, x);
  }

  /** `a-b` stands for the values of the field from `a` to `b`, both included. */
  lemma RangeMeaning(field: nat, a: nat, b: nat, x: int)
    ensures x in Meaning(field, RangeText(a, b)) <==> x in Meaning(field, "*") && a <= x <= b
  {
    RangeToken(a, b, x);
    OneTokenMeaning(field, RangeText(a, b), x);
    OneTokenMeaning(field, "*", x);
  }

  /** A step of `s` keeps the multiples of `s`, counted from 0: of the whole field after `*`, */
  lemma StepMeaning(field: nat, s: nat, x: int)
    requires s > 0
    ensures x in Meaning(field, Stepped("*", s)) <==> x in Meaning(field, "*") && Multiple(x, s)
  {
    SteppedToken("*", s, x);
    StepDenotes("*", s, x);
    OneTokenMeaning(field, Stepped("*", s), x);
    OneTokenMeaning(field, "*", x);
  }

  /** and of a range after a range. */
  lemma RangeStepMeaning(field: nat, a: nat, b: nat, s: nat, x: int)
    requires s > 0
    ensures x in Meaning(field, Stepped(RangeText(a, b), s))
       <==> x in Meaning(field, "*") && a <= x <= b && Multiple(x, s)
  {
    RangeToken(a, b, x);
    SteppedToken(RangeText(a, b), s, x);
    StepDenotes(RangeText(a, b), s, x);
    OneTokenMeaning(field, Stepped(RangeText(a, b), s), x);
    OneTokenMeaning(field, "*", x);
  }

  /** A step of zero raises exactly when the range before it meets the field. */
  lemma ZeroStepRaises(field: nat, a: nat, b: nat, s: nat)
    ensures FieldRaises(field, Stepped(RangeText(a, b), s))
       <==> s == 0 && exists x: int :: x in Meaning(field, "*") && a <= x <= b
  {
    var base := RangeText(a, b);
    RangeToken(a, b, 0);
    SteppedToken(base, s, 0);
    OneTokenMeaning(field, Stepped(base, s), 0);
    forall x: int ensures InRange(base, x) <==> a <= x <= b {
      RangeToken(a, b, x);
    }
    forall x: int ensures x in Meaning(field, "*") <==> x in Allowed(field) {
      OneTokenMeaning(field, "*", x);
    }
  }

  /** A list of tokens stands for everything that one of them stands for. */
  lemma ListMeaning(field: nat, tokens: seq<string>, x: int)
    requires tokens != [] && forall k :: 0 <= k < |tokens| ==> ',' !in tokens[k]
    ensures x in Meaning(field, Join(tokens, ',')) <==> exists k :: 0 <= k < |tokens| && x in Meaning(field, tokens[k])
  {
    SplitJoined(tokens, ',');
    forall k | 0 <= k < |tokens|
      ensures x in Meaning(field, tokens[k]) <==> InField(field, x) && Denotes(tokens[k], x)
    {
      OneTokenMeaning(field, tokens[k], x);
    }
  }

  /** Text that is not a number, such as a name of a month, stands for nothing. */
  lemma NotANumber(field: nat, token: string, x: int)
    requires ',' !in token && '/' !in token && '-' !in token && token != "*" && ParseInt(token).None?
    ensures x !in Meaning(field, token)
  {
    OneTokenMeaning(field, token, x);
  }
}
