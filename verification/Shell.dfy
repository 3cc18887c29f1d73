/** Shell quoting, and writing and reading a file through a shell in the container
    (daemon/main.go:457-460, 1823-1853).

    The reader follows sections 2.2.1, 2.2.2 and 2.3 of the POSIX.1-2017 Shell Command Language:
    backslash and single quotes, words, operators and file descriptor numbers.  Characters that
    start an expansion or another kind of quoting are not read.  A string is a Go string, each
    character standing for a byte; the output of a command comes back as a multiplexed stream. */
module Shell {
  import opened Prelude
  import opened Text
  import opened Demux
  import opened DemuxLiteral

  // ---------------------------------------------------------------- the daemon's side

  /** `strings.ReplaceAll` for a one-character pattern. */
  function ReplaceAll(s: string, c: char, repl: string): string {
    if s == "" then "" else (if s[0] == c then repl else [s[0]]) + ReplaceAll(s[1..], c, repl)
  }

  const NOTHING := ""
  const ESCAPED_QUOTE := "'\\''"

  function EscapeQuotes(s: string): string {
    ReplaceAll(s, '\'', ESCAPED_QUOTE)
  }

  /** `shQuote`. */
  function ShQuote(s: string): string {
    "'" + EscapeQuotes(s) + "'"
  }

  function DoubleBackslashes(s: string): string {
    ReplaceAll(s, '\\', "\\\\")
  }

  function TrimLeft(s: string, c: char): string {
    if s != "" && s[0] == c then TrimLeft(s[1..], c) else s
  }

  function TrimRight(s: string, c: char): string {
    if s != "" && s[|s| - 1] == c then TrimRight(s[..|s| - 1], c) else s
  }

  function AbsPath(relPath: string): string {
    "/data/" + TrimLeft(relPath, '/')
  }

  function WriteCommand(relPath: string, content: string): string {
    "printf '%s' '" + EscapeQuotes(DoubleBackslashes(content)) + "' > " + ShQuote(AbsPath(relPath))
  }

  function ReadCommand(relPath: string): string {
    "cat " + ShQuote(AbsPath(relPath)) + " 2>/dev/null || echo -n ''"
  }

  // ---------------------------------------------------------------- the shell's side

  predicate IsBlank(c: char) {
    c == ' ' || c == '\t'
  }

  predicate IsOperatorChar(c: char) {
    c == '|' || c == '&' || c == ';' || c == '<' || c == '>' || c == '(' || c == ')'
  }

  /** A character that ends an unquoted word. */
  predicate Delimits(c: char) {
    IsBlank(c) || c == '\n' || IsOperatorChar(c)
  }

  /** A character with a further meaning when unquoted, which this reader does not handle. */
  predicate Special(c: char) {
    c in "$`\"*?[#~"
  }

  datatype Reading = Reading(word: string, rest: string)

  /** Reads a word, from outside quotes up to a delimiter, or from inside single quotes. */
  function ReadWord(s: string, quoted: bool): (r: Option<Reading>)
    ensures r.Some? ==> |r.value.rest| <= |s| && (r.value.rest != "" ==> Delimits(r.value.rest[0]))
    decreases |s|
  {
    if quoted then
      if s == "" then None
      else if s[0] == '\'' then ReadWord(s[1..], false)
      else Prepend(s[0], ReadWord(s[1..], true))
    else if s == "" || Delimits(s[0]) then Some(Reading("", s))
    else if s[0] == '\'' then ReadWord(s[1..], true)
    else if s[0] == '\\' then
      if |s| == 1 then None
      else if s[1] == '\n' then ReadWord(s[2..], false)
      else Prepend(s[1], ReadWord(s[2..], false))
    else if Special(s[0]) then None
    else Prepend(s[0], ReadWord(s[1..], false))
  }

  function Prepend(c: char, r: Option<Reading>): Option<Reading> {
    match r
    case None => None
    case Some(x) => Some(Reading([c] + x.word, x.rest))
  }

  datatype Token = Word(text: string) | IoNumber(text: string) | Op(text: string)

  predicate Digits(s: string) {
    s != "" && forall k :: 0 <= k < |s| ==> '0' <= s[k] <= '9'
  }

  /** The tokens of a command line. */
  function Tokens(s: string): Option<seq<Token>>
    decreases |s|
  {
    if s == "" then Some([])
    else if IsBlank(s[0]) then Tokens(s[1..])
    else if |s| >= 2 && IsOperatorChar(s[0]) && s[1] == s[0] then Then(Op(s[..2]), Tokens(s[2..]))
    else if IsOperatorChar(s[0]) || s[0] == '\n' then Then(Op(s[..1]), Tokens(s[1..]))
    else
      match ReadWord(s, false)
      case None => None
      case Some(r) =>
        if |r.rest| >= |s| then None
        else Then(WordToken(s[..|s| - |r.rest|], r), Tokens(r.rest))
  }

  /** A word of digits right before a redirection is a file descriptor number. */
  function WordToken(raw: string, r: Reading): Token {
    if Digits(raw) && r.rest != "" && (r.rest[0] == '<' || r.rest[0] == '>') then IoNumber(r.word) else Word(r.word)
  }

  function Then(t: Token, ts: Option<seq<Token>>): Option<seq<Token>> {
    match ts
    case None => None
    case Some(rest) => Some([t] + rest)
  }

  type Path = seq<string>

  /** The file a path names, however it is spelt: empty components and `.` are dropped, and `..`
      takes the component before it away. */
  function Resolve(parts: seq<string>): Path {
    if parts == [] then []
    else
      var before, last := Resolve(parts[..|parts| - 1]), parts[|parts| - 1];
      if last == "" || last == "." then before
      else if last != ".." then before + [last]
      else if before == [] then []
      else before[..|before| - 1]
  }

  function Named(path: string): Path {
    Resolve(Split(path, '/'))
  }

  type Files = map<Path, string>

  /** `2>/dev/null || echo -n` and a last word. */
  function OrEcho(last: string): seq<Token> {
    [IoNumber("2"), Op(">")] + ([Word("/dev/null"), Op("||")] + ([Word("echo"), Word("-n")] + [Word(last)]))
  }

  /** The two commands the daemon sends: `printf '%s' x > file`, which puts x in the file, and
      `cat file 2>/dev/null || echo -n ''`, which prints the file or nothing.  The result is the
      files afterwards and the output; `None` for any other command. */
  function Execute(command: string, files: Files): Option<(Files, string)> {
    match Tokens(command)
    case None => None
    case Some(t) =>
      if |t| == 5 && t[0] == Word("printf") && t[1] == Word("%s") && t[2].Word? && t[3] == Op(">") && t[4].Word? then
        Some((files[Named(t[4].text) := t[2].text], ""))
      else if |t| == 9 && t[0] == Word("cat") && t[1].Word?
              && t[2..] == OrEcho(NOTHING) then
        Some((files, Stored(files, Named(t[1].text))))
      else None
  }

  /** What `cat` prints: the file, or nothing. */
  function Stored(files: Files, path: Path): string {
    if path in files then files[path] else NOTHING
  }

  /** `writeFileViaDocker` on a container whose commands succeed. */
  function WriteFile(files: Files, relPath: string, content: string): Option<Files> {
    match Execute(WriteCommand(relPath, content), files)
    case None => None
    case Some(r) => Some(r.0)
  }

  // ---------------------------------------------------------------- the way back

  /** Bytes as the characters of a Go string. */
  function FromBytes(b: bytes): (s: string)
    ensures |s| == |b|
  {
    seq(|b|, i requires 0 <= i < |b| => b[i] as int as char)
  }

  /** What the daemon makes of the reads: the loop of `readDemuxed` as written, then trimmed. */
  function Received(chunks: seq<bytes>): string {
    TrimRight(FromBytes(Literal([], chunks)), '\n')
  }

  /** The same with the corrected loop. */
  function ReceivedOnce(chunks: seq<bytes>): string {
    TrimRight(FromBytes(Intended([], chunks)), '\n')
  }

  /** `readFileViaDocker`, given the reads in which the output of its command arrives. */
  method ReadFileViaDocker(chunks: seq<bytes>) returns (text: string)
    ensures text == Received(chunks)
  {
    var out := ReadDemuxed(chunks);
    text := TrimRight(FromBytes(out), '\n');
  }

  /** An output, sent as the frames `fs` and read as `chunks`. */
  ghost predicate Carries(output: string, fs: seq<Frame>, chunks: seq<bytes>) {
    ValidFrames(fs) && FromBytes(Payloads(fs)) == output && Concat(chunks) == EncodeAll(fs)
  }

  /** The output of the read command, sent as the frames `fs` and read as `chunks`. */
  ghost predicate Delivers(files: Files, relPath: string, fs: seq<Frame>, chunks: seq<bytes>) {
    && Execute(ReadCommand(relPath), files).Some?
    && Carries(Execute(ReadCommand(relPath), files).value.1, fs, chunks)
  }

  // ---------------------------------------------------------------- quoting

  /** Inside quotes, the escaped quote reads as one quote and stays inside quotes. */
  lemma QuoteStep(next: string)
    ensures ReadWord(ESCAPED_QUOTE + next, true) == Prepend('\'', ReadWord(next, true))
  {
    var s := ESCAPED_QUOTE + next;
    assert s[1..] == "\\''" + next;
    EscapedStep(next);
  }

  lemma EscapedStep(next: string)
    ensures ReadWord("\\''" + next, false) == Prepend('\'', ReadWord(next, true))
  {
    var s := "\\''" + next;
    assert s[2..] == "'" + next;
    EnterQuote(next);
  }

  lemma LetterStep(c: char, next: string)
    requires c != '\''
    ensures ReadWord([c] + next, true) == Prepend(c, ReadWord(next, true))
  {
    assert ([c] + next)[1..] == next;
  }

  lemma {:induction false} QuotedRead(s: string, rest: string)
    requires rest == "" || Delimits(rest[0])
    ensures ReadWord(EscapeQuotes(s) + "'" + rest, true) == Some(Reading(s, rest))
    decreases |s|
  {
    if s == "" {
      assert (EscapeQuotes(s) + "'" + rest)[1..] == rest;
    } else {
      QuotedRead(s[1..], rest);
      var next := EscapeQuotes(s[1..]) + "'" + rest;
      var head := if s[0] == '\'' then ESCAPED_QUOTE else [s[0]];
      assert EscapeQuotes(s) + "'" + rest == head + next;
      if s[0] == '\'' {
        QuoteStep(next);
      } else {
        LetterStep(s[0], next);
      }
      assert [s[0]] + s[1..] == s;
    }
  }

  /** For every string and every continuation that does not extend the word, a POSIX shell reads
      the quoted form back as that string, one word, and nothing more. */
  lemma QuoteRoundTrip(s: string, rest: string)
    requires rest == "" || Delimits(rest[0])
    ensures ReadWord(ShQuote(s) + rest, false) == Some(Reading(s, rest))
  {
    QuotedRead(s, rest);
    var next := EscapeQuotes(s) + "'" + rest;
    assert ShQuote(s) + rest == "'" + next;
    EnterQuote(next);
  }

  lemma EnterQuote(next: string)
    ensures ReadWord("'" + next, false) == ReadWord(next, true)
  {
    assert ("'" + next)[1..] == next;
  }

  /** As a command line of its own it is exactly one word. */
  lemma QuoteIsOneWord(s: string)
    ensures Tokens(ShQuote(s)) == Some([Word(s)])
  {
    QuotedToken(s, "");
    assert ShQuote(s) + "" == ShQuote(s);
    assert Tokens("") == Some([]);
    assert [Word(s)] + [] == [Word(s)];
  }

  lemma QuotedToken(s: string, rest: string)
    requires rest == "" || Delimits(rest[0])
    ensures Tokens(ShQuote(s) + rest) == Then(Word(s), Tokens(rest))
  {
    QuoteRoundTrip(s, rest);
    var line := ShQuote(s) + rest;
    assert line[..|line| - |rest|] == ShQuote(s);
    assert ShQuote(s)[0] == '\'' && !Digits(ShQuote(s));
  }

  // ---------------------------------------------------------------- the two commands

  predicate Plain(w: string) {
    w != "" && forall k :: 0 <= k < |w| ==> !Delimits(w[k]) && !Special(w[k]) && w[k] != '\'' && w[k] != '\\'
  }

  lemma {:induction false} PlainRead(w: string, rest: string)
    requires forall k :: 0 <= k < |w| ==> !Delimits(w[k]) && !Special(w[k]) && w[k] != '\'' && w[k] != '\\'
    requires rest == "" || Delimits(rest[0])
    ensures ReadWord(w + rest, false) == Some(Reading(w, rest))
    decreases |w|
  {
    if w == "" {
      assert w + rest == rest;
    } else {
      assert (w + rest)[1..] == w[1..] + rest && [w[0]] + w[1..] == w;
      PlainRead(w[1..], rest);
    }
  }

  lemma PlainToken(w: string, rest: string)
    requires Plain(w) && (rest == "" || Delimits(rest[0]))
    ensures Tokens(w + rest)
         == Then(if Digits(w) && rest != "" && (rest[0] == '<' || rest[0] == '>') then IoNumber(w) else Word(w),
                 Tokens(rest))
  {
    PlainRead(w, rest);
    var line := w + rest;
    assert line[0] == w[0] && line[..|line| - |rest|] == w;
  }

  lemma BlankToken(rest: string)
    ensures Tokens(" " + rest) == Tokens(rest)
  {
    assert (" " + rest)[1..] == rest;
  }

  /** The shell sees the write command as printf with two arguments, redirected to the path. */
  lemma WriteTokens(relPath: string, content: string)
    ensures Tokens(WriteCommand(relPath, content))
         == Some([Word("printf"), Word("%s"), Word(DoubleBackslashes(content)), Op(">"), Word(AbsPath(relPath))])
  {
    var path, text := ShQuote(AbsPath(relPath)), ShQuote(DoubleBackslashes(content));
    var t3 := " > " + path;
    WriteShape(relPath, content);
    PlainToken("printf", " " + ("'%s'" + (" " + (text + t3))));
    BlankToken("'%s'" + (" " + (text + t3)));
    PercentS();
    QuotedToken("%s", " " + (text + t3));
    BlankToken(text + t3);
    QuotedToken(DoubleBackslashes(content), t3);
    RedirectTokens(path);
    QuoteIsOneWord(AbsPath(relPath));
    FiveTokens(Word("printf"), Word("%s"), Word(DoubleBackslashes(content)), Op(">"), Word(AbsPath(relPath)));
  }

  lemma WriteShape(relPath: string, content: string)
    ensures WriteCommand(relPath, content)
         == "printf" + (" " + ("'%s'" + (" " + (ShQuote(DoubleBackslashes(content))
                                               + (" > " + ShQuote(AbsPath(relPath)))))))
  {
    var path, e := ShQuote(AbsPath(relPath)), EscapeQuotes(DoubleBackslashes(content));
    assert "printf '%s' '" == "printf" + (" " + ("'%s'" + (" " + "'")));
    assert "' > " == "'" + " > ";
  }

  lemma FiveTokens(a: Token, b: Token, c: Token, d: Token, e: Token)
    ensures Then(a, Then(b, Then(c, Then(d, Some([e]))))) == Some([a, b, c, d, e])
  {
    assert [d] + [e] == [d, e];
    assert [c] + [d, e] == [c, d, e];
    assert [b] + [c, d, e] == [b, c, d, e];
    assert [a] + [b, c, d, e] == [a, b, c, d, e];
  }

  lemma PercentS()
    ensures ShQuote("%s") == "'%s'"
  {
    assert ReplaceAll("s", '\'', ESCAPED_QUOTE) == "s" + ReplaceAll("", '\'', ESCAPED_QUOTE);
    assert "%s"[1..] == "s";
  }

  lemma RedirectTokens(path: string)
    ensures Tokens(" > " + path) == Then(Op(">"), Tokens(path))
  {
    var s := "> " + path;
    assert " > " + path == " " + s;
    BlankToken(s);
    assert s[1..] == " " + path && s[..1] == ">";
    BlankToken(path);
  }

  /** The end of the read command, for any last word. */
  function ReadTail(last: string): string {
    " " + ("2" + (">" + ("/dev/null" + OrText(last))))
  }

  function OrText(last: string): string {
    " " + ("||" + EchoText(last))
  }

  function EchoText(last: string): string {
    " " + ("echo" + (" " + ("-n" + (" " + ShQuote(last)))))
  }

  lemma TailText()
    ensures ReadTail(NOTHING) == " 2>/dev/null || echo -n ''"
  {
    assert ShQuote(NOTHING) == "''";
    assert EchoText(NOTHING) == " echo -n ''";
    assert OrText(NOTHING) == " || echo -n ''";
  }

  lemma ReadShape(relPath: string)
    ensures ReadCommand(relPath) == "cat" + (" " + (ShQuote(AbsPath(relPath)) + ReadTail(NOTHING)))
  {
    TailText();
    Regroup(ShQuote(AbsPath(relPath)), ReadTail(NOTHING));
  }

  lemma Regroup(path: string, tail: string)
    ensures "cat " + path + tail == "cat" + (" " + (path + tail))
  {
    assert "cat " == "cat" + " ";
  }

  /** The shell sees the read command as cat on the path, its errors discarded, or else an empty echo. */
  lemma ReadTokens(relPath: string)
    ensures Tokens(ReadCommand(relPath)) == Some([Word("cat"), Word(AbsPath(relPath))] + OrEcho(NOTHING))
  {
    var path := ShQuote(AbsPath(relPath));
    ReadShape(relPath);
    TailTokens(NOTHING);
    assert ReadTail(NOTHING)[0] == ' ';
    QuotedToken(AbsPath(relPath), ReadTail(NOTHING));
    SpacedCat(path + ReadTail(NOTHING));
    TwoTokens(Word("cat"), Word(AbsPath(relPath)), OrEcho(NOTHING));
  }

  lemma SpacedCat(rest: string)
    ensures Tokens("cat" + (" " + rest)) == Then(Word("cat"), Tokens(rest))
  {
    PlainToken("cat", " " + rest);
    BlankToken(rest);
  }

  lemma TwoTokens(a: Token, b: Token, rest: seq<Token>)
    ensures Then(a, Then(b, Some(rest))) == Some([a, b] + rest)
  {
    assert [a] + ([b] + rest) == [a, b] + rest;
  }

  /** A plain word after a blank, not followed by a redirection. */
  lemma SpacedWord(w: string, rest: string)
    requires Plain(w) && !('0' <= w[0] <= '9') && (rest == "" || Delimits(rest[0]))
    ensures Tokens(" " + (w + rest)) == Then(Word(w), Tokens(rest))
  {
    BlankToken(w + rest);
    PlainToken(w, rest);
  }

  lemma LastToken(last: string)
    ensures Tokens(" " + ShQuote(last)) == Some([Word(last)])
  {
    BlankToken(ShQuote(last));
    QuoteIsOneWord(last);
  }

  lemma EchoTokens(last: string)
    ensures Tokens(EchoText(last)) == Some([Word("echo"), Word("-n")] + [Word(last)])
  {
    var end := " " + ShQuote(last);
    LastToken(last);
    SpacedWord("-n", end);
    SpacedWord("echo", " " + ("-n" + end));
    TwoTokens(Word("echo"), Word("-n"), [Word(last)]);
  }

  lemma OrTokens(rest: string)
    ensures Tokens(" " + ("||" + rest)) == Then(Op("||"), Tokens(rest))
  {
    var s := "||" + rest;
    BlankToken(s);
    assert s[2..] == rest && s[..2] == "||";
  }

  lemma DescriptorTokens(rest: string)
    requires rest != "" && rest[0] == '>'
    ensures Tokens(" " + ("2" + rest)) == Then(IoNumber("2"), Tokens(rest))
  {
    BlankToken("2" + rest);
    PlainToken("2", rest);
  }

  lemma GreaterTokens(rest: string)
    requires rest != "" && rest[0] != '>'
    ensures Tokens(">" + rest) == Then(Op(">"), Tokens(rest))
  {
    var s := ">" + rest;
    assert s[1..] == rest && s[..1] == ">";
  }

  lemma NullTokens(rest: string)
    requires rest != "" && IsBlank(rest[0])
    ensures Tokens(">" + ("/dev/null" + rest)) == Then(Op(">"), Then(Word("/dev/null"), Tokens(rest)))
  {
    assert ("/dev/null" + rest)[0] == '/';
    GreaterTokens("/dev/null" + rest);
    PlainToken("/dev/null", rest);
  }

  lemma TailTokens(last: string)
    ensures Tokens(ReadTail(last)) == Some(OrEcho(last))
  {
    var echo := [Word("echo"), Word("-n")] + [Word(last)];
    EchoTokens(last);
    OrTokens(EchoText(last));
    NullTokens(OrText(last));
    TwoTokens(Word("/dev/null"), Op("||"), echo);
    DescriptorTokens(">" + ("/dev/null" + OrText(last)));
    TwoTokens(IoNumber("2"), Op(">"), [Word("/dev/null"), Op("||")] + echo);
  }

  // ---------------------------------------------------------------- write, then read

  /** Writing stores the content with every backslash doubled and touches no other file. */
  lemma WriteStores(files: Files, relPath: string, content: string)
    ensures WriteFile(files, relPath, content) == Some(files[Named(AbsPath(relPath)) := DoubleBackslashes(content)])
  {
    WriteTokens(relPath, content);
  }

  lemma ReadPrints(files: Files, relPath: string)
    ensures Execute(ReadCommand(relPath), files) == Some((files, Stored(files, Named(AbsPath(relPath)))))
  {
    ReadTokens(relPath);
    var t := [Word("cat"), Word(AbsPath(relPath))] + OrEcho(NOTHING);
    assert t[2..] == OrEcho(NOTHING) && |OrEcho(NOTHING)| == 7;
  }

  /** An output arrives without its trailing newlines: always with the corrected loop, and with the
      loop as written when its reads are safe. */
  lemma Arrives(output: string, fs: seq<Frame>, chunks: seq<bytes>)
    requires Carries(output, fs, chunks)
    ensures ReceivedOnce(chunks) == TrimRight(output, '\n')
    ensures SafeCuts(fs, 0, chunks) ==> Received(chunks) == TrimRight(output, '\n')
  {
    BoundaryIndependence(fs, chunks);
    if SafeCuts(fs, 0, chunks) {
      SafeReads(fs, chunks);
    }
  }

  /** Reading a file gives what is stored under its path, in the same sense. */
  lemma ReadReturns(files: Files, relPath: string, fs: seq<Frame>, chunks: seq<bytes>)
    ensures var text := TrimRight(Stored(files, Named(AbsPath(relPath))), '\n');
            Delivers(files, relPath, fs, chunks) ==>
              && ReceivedOnce(chunks) == text
              && (SafeCuts(fs, 0, chunks) ==> Received(chunks) == text)
  {
    ReadPrints(files, relPath);
    if Delivers(files, relPath, fs, chunks) {
      Arrives(Stored(files, Named(AbsPath(relPath))), fs, chunks);
    }
  }

  lemma {:induction false} DoubledLength(s: string)
    ensures |DoubleBackslashes(s)| >= |s|
    ensures |DoubleBackslashes(s)| == |s| <==> '\\' !in s
    ensures '\\' !in s ==> DoubleBackslashes(s) == s
  {
    if s != "" {
      DoubledLength(s[1..]);
    }
  }

  lemma {:induction false} DoubledLast(s: string)
    requires s != ""
    ensures DoubleBackslashes(s) != "" && DoubleBackslashes(s)[|DoubleBackslashes(s)| - 1] == s[|s| - 1]
  {
    var head := if s[0] == '\\' then "\\\\" else [s[0]];
    assert DoubleBackslashes(s) == head + DoubleBackslashes(s[1..]);
    if |s| > 1 {
      DoubledLast(s[1..]);
    } else {
      assert DoubleBackslashes(s) == head;
    }
  }

  lemma {:induction false} TrimmedEnd(s: string, c: char)
    ensures var t := TrimRight(s, c); t != "" ==> t[|t| - 1] != c
  {
    if s != "" && s[|s| - 1] == c {
      TrimmedEnd(s[..|s| - 1], c);
    }
  }

  lemma DoubledTrimIff(content: string)
    ensures TrimRight(DoubleBackslashes(content), '\n') == content
       <==> '\\' !in content && (content == "" || content[|content| - 1] != '\n')
  {
    DoubledLength(content);
    TrimmedEnd(DoubleBackslashes(content), '\n');
    if content != "" {
      DoubledLast(content);
    }
  }

  predicate Unchanged(content: string) {
    '\\' !in content && (content == "" || content[|content| - 1] != '\n')
  }

  /** A text has no character 1 or 2. */
  predicate NoControl(content: string) {
    forall k :: 0 <= k < |content| ==> content[k] as int != 1 && content[k] as int != 2
  }

  /** What comes back of a content stored with its backslashes doubled: with the corrected loop or
      with safe reads the content itself if and only if it has no backslash and no newline at its end. */
  lemma {:induction false} DoubledArrives(content: string, fs: seq<Frame>, chunks: seq<bytes>)
    requires Carries(DoubleBackslashes(content), fs, chunks)
    ensures ReceivedOnce(chunks) == content <==> Unchanged(content)
    ensures SafeCuts(fs, 0, chunks) ==> (Received(chunks) == content <==> Unchanged(content))
  {
    Arrives(DoubleBackslashes(content), fs, chunks);
    DoubledTrimIff(content);
  }

  /** For a text, safe reads are also necessary. */
  lemma {:induction false} TextArrivesIff(content: string, fs: seq<Frame>, chunks: seq<bytes>)
    requires Carries(DoubleBackslashes(content), fs, chunks) && NoControl(content) && ShownCut(fs, chunks)
    ensures Received(chunks) == content <==> Unchanged(content) && SafeCuts(fs, 0, chunks)
  {
    DoubledArrives(content, fs, chunks);
    if !SafeCuts(fs, 0, chunks) {
      UnsafeReads(fs, chunks);
      HeaderStays(Literal([], chunks));
    }
  }

  /** What the read command prints after `content` was written. */
  lemma WrittenPrints(files: Files, relPath: string, content: string)
    ensures WriteFile(files, relPath, content).Some?
    ensures Execute(ReadCommand(relPath), WriteFile(files, relPath, content).value)
         == Some((WriteFile(files, relPath, content).value, DoubleBackslashes(content)))
  {
    WriteStores(files, relPath, content);
    ReadPrints(WriteFile(files, relPath, content).value, relPath);
  }

  /** With the corrected loop, or with safe reads, reading a file just written gives the content
      back if and only if it has no backslash and does not end in a newline. */
  lemma ReadAfterWriteSafe(files: Files, relPath: string, content: string, fs: seq<Frame>, chunks: seq<bytes>)
    ensures WriteFile(files, relPath, content).Some?
    ensures Delivers(WriteFile(files, relPath, content).value, relPath, fs, chunks) ==>
              && (ReceivedOnce(chunks) == content <==> Unchanged(content))
              && (SafeCuts(fs, 0, chunks) ==> (Received(chunks) == content <==> Unchanged(content)))
  {
    WrittenPrints(files, relPath, content);
    if Carries(DoubleBackslashes(content), fs, chunks) {
      DoubledArrives(content, fs, chunks);
    }
  }

  /** The exact condition for the code: reading a text just written gives it back if and only if it
      has no backslash, does not end in a newline, and no read of the output ends 8 or more bytes
      into an unfinished frame. */
  lemma ReadAfterWriteIff(files: Files, relPath: string, content: string, fs: seq<Frame>, chunks: seq<bytes>)
    requires NoControl(content) && ShownCut(fs, chunks)
    ensures WriteFile(files, relPath, content).Some?
    ensures Delivers(WriteFile(files, relPath, content).value, relPath, fs, chunks) ==>
              (Received(chunks) == content <==> Unchanged(content) && SafeCuts(fs, 0, chunks))
  {
    WrittenPrints(files, relPath, content);
    if Carries(DoubleBackslashes(content), fs, chunks) {
      TextArrivesIff(content, fs, chunks);
    }
  }

  /** Trimming newlines leaves a stream type in place. */
  lemma HeaderStays(b: bytes)
    requires HasHeader(b)
    ensures !NoControl(TrimRight(FromBytes(b), '\n'))
  {
    var p :| 0 <= p < |b| && Visible(b[p]);
    TrimKeeps(FromBytes(b), '\n', p);
  }

  lemma {:induction false} TrimKeeps(s: string, c: char, p: nat)
    requires p < |s| && s[p] != c
    ensures p < |TrimRight(s, c)| && TrimRight(s, c)[p] == s[p]
  {
    if s[|s| - 1] == c {
      TrimKeeps(s[..|s| - 1], c, p);
    }
  }

  /** A text sent in frames one of which is as long as the program's buffer never comes back. */
  lemma {:induction false} LongTextLost(content: string, fs: seq<Frame>, chunks: seq<bytes>, i: nat)
    requires Carries(DoubleBackslashes(content), fs, chunks) && NoControl(content) && ShownCut(fs, chunks)
    requires forall k :: 0 <= k < |chunks| ==> |chunks[k]| <= BUFFER
    requires i < |fs| && |fs[i].payload| >= BUFFER
    ensures Received(chunks) != content
  {
    LongFrameUnsafe(fs, chunks, i);
    TextArrivesIff(content, fs, chunks);
  }

  /** A failing input with neither a backslash nor a newline: one character, whose frame is read as
      its header and then that character. */
  lemma ReadAfterWriteFails(files: Files, relPath: string)
    ensures var content := [7 as char];
            && Unchanged(content) && NoControl(content) && WriteFile(files, relPath, content).Some?
            && Delivers(WriteFile(files, relPath, content).value, relPath, [Frame(1, [7])], [OneByteHeader(1), [7]])
            && Received([OneByteHeader(1), [7]]) == [1 as char] != content
  {
    var content := [7 as char];
    WrittenPrints(files, relPath, content);
    OneByteArrives();
  }

  lemma OneByteArrives()
    ensures Carries(DoubleBackslashes([7 as char]), [Frame(1, [7])], [OneByteHeader(1), [7]])
    ensures Received([OneByteHeader(1), [7]]) == [1 as char]
  {
    DoubledLength([7 as char]);
    LiteralFails(1, 7);
    assert FromBytes([7]) == [7 as char] && FromBytes([1]) == [1 as char];
  }

  /** Other files read as before, and the file itself does under every spelling of its path. */
  lemma ReadElsewhere(files: Files, after: Files, relPath: string, other: string, content: string)
    requires WriteFile(files, relPath, content) == Some(after)
    ensures Execute(ReadCommand(other), after).Some? && Execute(ReadCommand(other), files).Some?
    ensures Execute(ReadCommand(other), after).value.1
         == if Named(AbsPath(other)) == Named(AbsPath(relPath)) then DoubleBackslashes(content)
            else Execute(ReadCommand(other), files).value.1
  {
    WriteStores(files, relPath, content);
    ReadPrints(after, other);
    ReadPrints(files, other);
  }

  // ---------------------------------------------------------------- where files live

  lemma {:induction false} SplitTwo(a: string, b: string, sep: char)
    requires sep !in a
    ensures Split(a + [sep] + b, sep) == [a] + Split(b, sep)
  {
    var s := [sep] + b;
    assert s[1..] == b && a + [sep] + b == a + s;
    SplitPrefix(a, s, sep);
    assert a + "" == a;
  }

  lemma {:induction false} ResolveUnder(root: string, parts: seq<string>)
    requires root != "" && root != "." && root != ".." && ".." !in parts
    ensures var r := Resolve(["", root] + parts); r != [] && r[0] == root
  {
    var all := ["", root] + parts;
    if parts == [] {
      assert all[..1] == [""] && all[..1][..0] == [];
      assert Resolve([""]) == [];
      assert all == ["", root];
    } else {
      var last := |parts| - 1;
      assert parts[last] in parts;
      assert all[..|all| - 1] == ["", root] + parts[..last];
      ResolveUnder(root, parts[..last]);
    }
  }

  /** Every file read or written lies under /data, unless its path goes up. */
  lemma UnderData(relPath: string)
    requires ".." !in Split(TrimLeft(relPath, '/'), '/')
    ensures var file := Named(AbsPath(relPath)); file != [] && file[0] == "data"
  {
    var rest := TrimLeft(relPath, '/');
    SplitTwo("data", rest, '/');
    SplitTwo("", "data" + ['/'] + rest, '/');
    assert AbsPath(relPath) == "" + ['/'] + ("data" + ['/'] + rest);
    assert Split(AbsPath(relPath), '/') == ["", "data"] + Split(rest, '/');
    ResolveUnder("data", Split(rest, '/'));
  }

  /** The number of times `c` occurs. */
  function Occurs(s: string, c: char): nat {
    if s == "" then 0 else (if s[0] == c then 1 else 0) + Occurs(s[1..], c)
  }

  /** Each backslash becomes two, and nothing else changes: taking one of each pair away gives the
      content back. */
  function Halved(s: string): string {
    if s == "" then ""
    else if |s| >= 2 && s[0] == '\\' && s[1] == '\\' then "\\" + Halved(s[2..])
    else [s[0]] + Halved(s[1..])
  }

  lemma {:induction false} DoubledIs(s: string)
    ensures |DoubleBackslashes(s)| == |s| + Occurs(s, '\\') && Halved(DoubleBackslashes(s)) == s
  {
    if s != "" {
      DoubledIs(s[1..]);
      var rest := DoubleBackslashes(s[1..]);
      if s[0] == '\\' {
        assert ("\\\\" + rest)[2..] == rest;
      } else {
        assert ([s[0]] + rest)[1..] == rest;
      }
      assert [s[0]] + s[1..] == s;
    }
  }

  /** How spellings of a path meet: `.` and empty components drop out, a component followed by `..`
      cancels, and `..` at the root stays there. */
  lemma ResolveLaws(parts: seq<string>, x: string)
    ensures Resolve(parts + ["."]) == Resolve(parts) == Resolve(parts + [""])
    ensures x != "" && x != "." && x != ".." ==>
              Resolve(parts + [x]) == Resolve(parts) + [x] && Resolve(parts + [x] + [".."]) == Resolve(parts)
    ensures Resolve([".."]) == []
  {
    assert (parts + ["."])[..|parts|] == parts && (parts + [""])[..|parts|] == parts;
    assert (parts + [x])[..|parts|] == parts;
    assert (parts + [x] + [".."])[..|parts| + 1] == parts + [x];
    assert (Resolve(parts) + [x])[..|Resolve(parts)|] == Resolve(parts);
    assert [".."][..0] == [];
  }
}
