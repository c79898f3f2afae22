/** What the lexer should return, as a function of the text alone: each token is
    read off the front of the text that is left, without buffers or chunks. */
module LexText {
  import opened Wrappers

  const MAX_TOKEN_SIZE: nat := 255

  // ----- Tokens -----

  /** The kind of value an identifier names. */
  datatype IdType = NoType | RealId | StringId | IntegerId | ByteId | RecordId(name: string) | FunctionId

  datatype Kind = Rem | Proc | Fn | Rec | Other(code: nat)

  datatype Token =
    | Eof
    | Operator(text: string)
    | StringLiteral(content: string)
    | Integer(value: int, text: string)
    | RealNumber(text: string)
    | Identifier(text: string, idType: IdType)
    | Keyword(text: string, kind: Kind, supported: bool, idType: IdType)

  datatype Error =
    | NumberTooLong | UnterminatedString | BadTypeName | BadProcName | BadRecName
    | IdentifierTooLong | UnknownToken

  datatype Entry = Entry(kind: Kind, supported: bool)
  type Keywords = map<string, Entry>

  /** A token with the text left behind it and, for a minus sign, the number that
      comes next; or a remark, which is no token; or an error. */
  datatype Scan =
    | Scanned(token: Token, rest: string, next: Option<Token>)
    | Remark(rest: string)
    | Bad(error: Error)

  // ----- Characters -----

  predicate IsWhite(c: char) { c == ' ' || c == '\t' || c == '\n' || c == '\r' }

  predicate IsSimpleOperator(c: char)
  {
    c in {'/', '*', '(', ')', '=', ',', ';', '^', '[', ']', '|', '~', '?', '$', '!', '{', '}'}
  }

  predicate IsDigit(c: char) { '0' <= c <= '9' }

  predicate IsHex(c: char) { IsDigit(c) || 'a' <= c <= 'f' || 'A' <= c <= 'F' }

  predicate IsBinary(c: char) { c == '0' || c == '1' }

  predicate IsLetter(c: char) { 'A' <= c <= 'Z' || 'a' <= c <= 'z' }

  predicate IsIdChar(c: char) { IsLetter(c) || IsDigit(c) || c == '_' }

  predicate IsSuffix(c: char) { c == '$' || c == '%' || c == '&' || c == '@' }

  predicate NotNewline(c: char) { c != '\n' }

  // ----- Runs of characters -----

  /** The length of the longest prefix whose characters all satisfy p. */
  function Run(s: string, p: char -> bool): (n: nat)
    ensures n <= |s|
    ensures forall k :: 0 <= k < n ==> p(s[k])
    ensures n < |s| ==> !p(s[n])
  {
    if s != [] && p(s[0]) then
      var n := Run(s[1..], p);
      assert forall k :: 0 < k <= n ==> s[k] == s[1..][k - 1];
      1 + n
    else 0
  }

  function Take(s: string, p: char -> bool): string { s[..Run(s, p)] }

  function Drop(s: string, p: char -> bool): string { s[Run(s, p)..] }

  lemma TakeStep(s: string, p: char -> bool)
    ensures s != [] && p(s[0]) ==> Take(s, p) == [s[0]] + Take(s[1..], p) && Drop(s, p) == Drop(s[1..], p)
    ensures s == [] || !p(s[0]) ==> Take(s, p) == [] && Drop(s, p) == s
  {}

  /** A run is determined by what it is made of and what comes after it. */
  lemma {:induction false} RunIs(a: string, b: string, p: char -> bool)
    requires forall k :: 0 <= k < |a| ==> p(a[k])
    requires b == [] || !p(b[0])
    ensures Take(a + b, p) == a && Drop(a + b, p) == b
  {
    var s := a + b;
    TakeStep(s, p);
    if a == [] {
      assert s == b;
    } else {
      assert s[1..] == a[1..] + b;
      RunIs(a[1..], b, p);
    }
  }

  function Newlines(s: string): nat
  {
    if s == [] then 0 else (if s[0] == '\n' then 1 else 0) + Newlines(s[1..])
  }

  // ----- Numbers -----

  function DigitOf(c: char): nat
  {
    if IsDigit(c) then (c as int) - ('0' as int)
    else if 'a' <= c <= 'f' then (c as int) - ('a' as int) + 10
    else if 'A' <= c <= 'F' then (c as int) - ('A' as int) + 10
    else 0
  }

  function NumberOf(s: string, base: nat): nat
  {
    if s == [] then 0 else NumberOf(s[..|s| - 1], base) * base + DigitOf(s[|s| - 1])
  }

  function Signed(n: nat): int
  {
    if n < 0x8000_0000 then n else n - 0x1_0000_0000
  }

  /** Decimal numbers are signed, the others are bit patterns. */
  function IntegerToken(text: string, base: nat, rest: string): (r: Scan)
    ensures !r.Remark? && (r.Scanned? ==> r.rest == rest)
  {
    var n := NumberOf(text, base);
    if |text| > MAX_TOKEN_SIZE || (base == 10 && n > 0x7fff_ffff) || n > 0xffff_ffff then Bad(NumberTooLong)
    else Scanned(Integer(Signed(n), text), rest, None)
  }

  /** The length of a real that begins with a whole part is checked once more when
      its text has been closed with a zero. */
  function RealToken(text: string, closing: nat, rest: string): (r: Scan)
    ensures !r.Remark? && (r.Scanned? ==> r.rest == rest)
  {
    if |text| + closing > MAX_TOKEN_SIZE then Bad(NumberTooLong) else Scanned(RealNumber(text), rest, None)
  }

  /** A run of digits, with a fraction if a dot follows. */
  function Decimal(s: string): Scan
  {
    var whole, rest := Take(s, IsDigit), Drop(s, IsDigit);
    if rest != [] && rest[0] == '.' then
      RealToken(whole + "." + Take(rest[1..], IsDigit), 1, Drop(rest[1..], IsDigit))
    else IntegerToken(whole, 10, rest)
  }

  function SmallestDigits(): string { "2147483648" }

  /** A minus sign in front of a digit: the number comes next, unless the two
      together are the smallest integer. */
  function NegativeDecimal(s: string): (r: Scan)
    ensures !r.Remark?
  {
    var whole, rest := Take(s, IsDigit), Drop(s, IsDigit);
    if whole == SmallestDigits() && (rest == [] || rest[0] != '.') then
      Scanned(Integer(-2147483648, whole), rest, None)
    else
      match Decimal(s)
      case Scanned(token, r, next) => Scanned(Operator("-"), r, Some(token))
      case Remark(r) => Remark(r)
      case Bad(error) => Bad(error)
  }

  // ----- Operators -----

  function OperatorOf(s: string, n: nat): Scan
    requires n <= |s|
  {
    Scanned(Operator(s[..n]), s[n..], None)
  }

  predicate IsComplexStart(c: char) { c in {'<', '>', '+', '-', ':', '.'} }

  function ComplexOperator(s: string): (r: Scan)
    requires s != []
    ensures !r.Remark?
  {
    var c := s[0];
    if |s| == 1 then OperatorOf(s, 1)
    else if c == '-' && IsDigit(s[1]) then NegativeDecimal(s[1..])
    else if c == '.' && IsDigit(s[1]) then RealToken("." + Take(s[1..], IsDigit), 0, Drop(s[1..], IsDigit))
    else if s[1] == '=' || s[1] == '-' then OperatorOf(s, 2)
    else if s[1] == '<' then OperatorOf(s, if c == '<' then 2 else 1)
    else if s[1] == '>' then
      if c == '<' then OperatorOf(s, 2)
      else if c != '>' then OperatorOf(s, 1)
      else if |s| > 2 && s[2] == '>' then OperatorOf(s, 3)
      else OperatorOf(s, 2)
    else OperatorOf(s, 1)
  }

  // ----- Strings -----

  /** The rest of a string literal: two quotes stand for one, one quote ends it. */
  function StringBody(s: string, content: string): (r: Scan)
    ensures !r.Remark?
    decreases |s|
  {
    if s == [] then Bad(UnterminatedString)
    else if s[0] != '"' then StringBody(s[1..], content + [s[0]])
    else if |s| > 1 && s[1] == '"' then StringBody(s[2..], content + ['"'])
    else Scanned(StringLiteral(content), s[1..], None)
  }

  // ----- Identifiers and keywords -----

  predicate StartsWith(s: string, prefix: string) { prefix <= s }

  /** An identifier with its type, or an error. */
  datatype Named = Named(text: string, idType: IdType, rest: string) | NotNamed(error: Error)

  /** The name of a record, procedure or function type, after an at sign. */
  function CustomType(text: string, s: string): Named
  {
    var name := Take(s, IsIdChar);
    var whole := text + name;
    if |name| < 2 then NotNamed(BadTypeName)
    else if StartsWith(name, "REC") then Named(whole, RecordId(whole), Drop(s, IsIdChar))
    else if StartsWith(name, "FN") || StartsWith(name, "PROC") then Named(whole, FunctionId, Drop(s, IsIdChar))
    else NotNamed(BadTypeName)
  }

  function Suffixed(text: string, c: char, s: string): Named
    requires IsSuffix(c)
  {
    if c == '$' then Named(text, StringId, s)
    else if c == '%' then Named(text, IntegerId, s)
    else if c == '&' then Named(text, ByteId, s)
    else CustomType(text, s)
  }

  /** An identifier that has begun with text; its suffix may have been read already. */
  function Identify(text: string, s: string, suffix: Option<char>): Named
    requires suffix.Some? ==> IsSuffix(suffix.value)
  {
    var named :=
      if suffix.Some? then Suffixed(text, suffix.value, s)
      else
        var whole, rest := text + Take(s, IsIdChar), Drop(s, IsIdChar);
        if rest != [] && IsSuffix(rest[0]) then Suffixed(whole + [rest[0]], rest[0], rest[1..])
        else Named(whole, RealId, rest);
    CheckLength(named)
  }

  /** The name of a custom type has been closed with a zero when its length is checked. */
  function CheckLength(named: Named): Named
  {
    if named.NotNamed? then named
    else
      var closing := if named.idType.RecordId? || named.idType.FunctionId? then 1 else 0;
      if |named.text| + closing > MAX_TOKEN_SIZE then NotNamed(IdentifierTooLong) else named
  }

  function IdentifierToken(named: Named): Scan
  {
    match named
    case Named(text, idType, rest) => Scanned(Identifier(text, idType), rest, None)
    case NotNamed(error) => Bad(error)
  }

  /** The name of a procedure or a function. */
  function CallToken(named: Named, proc: bool): Scan
  {
    match named
    case NotNamed(error) => Bad(error)
    case Named(text, idType, rest) =>
      if !proc then Scanned(Keyword(text, Fn, true, idType), rest, None)
      else if idType != RealId then Bad(BadProcName)
      else Scanned(Keyword(text, Proc, true, NoType), rest, None)
  }

  function RecordToken(text: string, s: string): Scan
  {
    var whole, rest := text + Take(s, IsIdChar), Drop(s, IsIdChar);
    if rest != [] && IsSuffix(rest[0]) then Bad(BadRecName)
    else if |whole| > MAX_TOKEN_SIZE then Bad(IdentifierTooLong)
    else Scanned(Keyword(whole, Rec, true, NoType), rest, None)
  }

  /** Letters with the suffix behind them. Keywords may also end in a hash, or in
      a dollar and a hash; identifiers may not. */
  datatype WordParts = WordParts(text: string, rest: string, suffix: Option<char>, hash: bool)

  function WordOf(s: string): (w: WordParts)
    ensures w.suffix.Some? ==> IsSuffix(w.suffix.value)
    ensures s != [] && IsLetter(s[0]) ==> |w.rest| < |s| && w.text != []
  {
    var letters, r := Take(s, IsLetter), Drop(s, IsLetter);
    if r == [] then WordParts(letters, r, None, false)
    else if r[0] == '#' then WordParts(letters + [r[0]], r[1..], None, true)
    else if r[0] == '$' && r[1..] != [] && r[1..][0] == '#' then
      WordParts(letters + [r[0]] + [r[1..][0]], r[1..][1..], None, true)
    else if IsSuffix(r[0]) then WordParts(letters + [r[0]], r[1..], Some(r[0]), false)
    else WordParts(letters, r, None, false)
  }

  function Word(s: string, kws: Keywords): (r: Scan)
    requires s != [] && IsLetter(s[0])
    ensures r.Remark? ==> |r.rest| < |s|
  {
    WordToken(WordOf(s), kws)
  }

  function WordToken(w: WordParts, kws: Keywords): (r: Scan)
    requires w.suffix.Some? ==> IsSuffix(w.suffix.value)
    ensures r.Remark? ==> r.rest == w.rest
  {
    if !w.hash && (StartsWith(w.text, "PROC") || StartsWith(w.text, "FN")) then
      var proc := StartsWith(w.text, "PROC");
      if proc && w.suffix.Some? then Bad(BadProcName) else CallToken(Identify(w.text, w.rest, w.suffix), proc)
    else if !w.hash && StartsWith(w.text, "REC") && w.text != "RECTANGLE" then
      if w.suffix.Some? || |w.text| == 3 then Bad(BadRecName) else RecordToken(w.text, w.rest)
    else if w.text in kws then
      if kws[w.text].kind == Rem then Remark(w.rest)
      else Scanned(Keyword(w.text, kws[w.text].kind, kws[w.text].supported, NoType), w.rest, None)
    else if !w.hash then IdentifierToken(Identify(w.text, w.rest, w.suffix))
    else if |w.text| > MAX_TOKEN_SIZE then Bad(IdentifierTooLong)
    else Bad(UnknownToken)
  }

  // ----- Tokens -----

  /** The token at the front of a text that does not begin with white space. */
  function FrontToken(s: string, kws: Keywords): (r: Scan)
    requires s != []
    ensures r.Remark? ==> |r.rest| < |s|
  {
    var c := s[0];
    if IsSimpleOperator(c) then OperatorOf(s, 1)
    else if IsComplexStart(c) then ComplexOperator(s)
    else if c == '"' then StringBody(s[1..], "")
    else if IsDigit(c) then Decimal(s)
    else if c == '&' then IntegerToken(Take(s[1..], IsHex), 16, Drop(s[1..], IsHex))
    else if c == '%' then IntegerToken(Take(s[1..], IsBinary), 2, Drop(s[1..], IsBinary))
    else if IsLetter(c) then Word(s, kws)
    else if c == '_' then IdentifierToken(Identify([c], s[1..], None))
    else Bad(UnknownToken)
  }

  /** Where a lexer stands: the text left, the line, and a token read ahead. */
  datatype State = State(rest: string, line: nat, next: Option<Token>)

  datatype Lexed = Got(token: Token, state: State) | Failed(error: Error)

  /** What is left after the end of the line. */
  function SkipLine(s: string, line: nat): (r: State)
    ensures |r.rest| <= |s| && r.next == None
  {
    var tail := Drop(s, NotNewline);
    if tail == [] then State([], line, None) else State(tail[1..], line + 1, None)
  }

  function SkipWhite(s: string, line: nat): (r: State)
    ensures |r.rest| <= |s| && r.next == None
  {
    State(Drop(s, IsWhite), line + Newlines(Take(s, IsWhite)), None)
  }

  lemma SkipWhiteStep(s: string, line: nat)
    ensures s != [] && IsWhite(s[0]) ==> SkipWhite(s, line) == SkipWhite(s[1..], if s[0] == '\n' then line + 1 else line)
    ensures s == [] || !IsWhite(s[0]) ==> SkipWhite(s, line) == State(s, line, None)
  {
    hide Take, Drop;
    TakeStep(s, IsWhite);
    if s != [] {
      NewlinesStep(s[0], Take(s[1..], IsWhite));
    }
  }

  lemma NewlinesStep(c: char, s: string)
    ensures Newlines([c] + s) == (if c == '\n' then 1 else 0) + Newlines(s)
  {
    assert ([c] + s)[1..] == s;
  }

  /** The next token, after white space and remarks. */
  function NextToken(s: State, kws: Keywords): Lexed
    decreases |s.rest|
  {
    if s.next.Some? then Got(s.next.value, s.(next := None))
    else
      var w := SkipWhite(s.rest, s.line);
      if w.rest == [] then Got(Eof, w)
      else
        match FrontToken(w.rest, kws)
        case Scanned(token, r, next) => Got(token, State(r, w.line, next))
        case Bad(error) => Failed(error)
        case Remark(r) => NextToken(SkipLine(r, w.line), kws)
  }

  /** What a caller sees of one call: a token and the line it leaves the lexer on. */
  datatype Reading = Read(token: Token, line: nat) | Stopped(error: Error)

  /** The first n readings; lexing stops at an error. */
  function Readings(s: State, kws: Keywords, n: nat): seq<Reading>
    decreases n
  {
    if n == 0 then []
    else
      var r := NextToken(s, kws);
      if r.Failed? then [Stopped(r.error)] else [Read(r.token, r.state.line)] + Readings(r.state, kws, n - 1)
  }

  // ----- What the tokens say about the text -----

  function Doubled(s: string): string
  {
    if s == [] then [] else (if s[0] == '"' then ['"', '"'] else [s[0]]) + Doubled(s[1..])
  }

  /** A string with its quotes doubled, between quotes, is read back as it was. */
  lemma {:induction false} StringBodyRoundTrip(s: string, tail: string, content: string)
    requires tail == [] || tail[0] != '"'
    ensures StringBody(Doubled(s) + ['"'] + tail, content) == Scanned(StringLiteral(content + s), tail, None)
  {
    var text := Doubled(s) + ['"'] + tail;
    if s == [] {
      assert text == ['"'] + tail && content + s == content;
    } else {
      var more := Doubled(s[1..]) + ['"'] + tail;
      StringBodyRoundTrip(s[1..], tail, content + [s[0]]);
      assert content + [s[0]] + s[1..] == content + s;
      if s[0] == '"' {
        assert text == ['"', '"'] + more && text[2..] == more;
      } else {
        assert text == [s[0]] + more && text[1..] == more;
      }
    }
  }

  lemma StringRoundTrip(s: string, tail: string, line: nat, kws: Keywords)
    requires tail == [] || tail[0] != '"'
    ensures NextToken(State(['"'] + Doubled(s) + ['"'] + tail, line, None), kws)
         == Got(StringLiteral(s), State(tail, line, None))
  {
    var text := ['"'] + Doubled(s) + ['"'] + tail;
    StringBodyRoundTrip(s, tail, "");
    assert text[0] == '"' && text[1..] == Doubled(s) + ['"'] + tail && "" + s == s;
    FrontNext(text, line, kws);
  }

  /** A text that does not begin with white space begins with its first token. */
  lemma FrontNext(text: string, line: nat, kws: Keywords)
    requires text != [] && !IsWhite(text[0])
    ensures var f := FrontToken(text, kws);
            f.Scanned? ==> NextToken(State(text, line, None), kws) == Got(f.token, State(f.rest, line, f.next))
    ensures text[0] == '"' ==> FrontToken(text, kws) == StringBody(text[1..], "")
    ensures IsDigit(text[0]) ==> FrontToken(text, kws) == Decimal(text)
    ensures text[0] == '-' ==> FrontToken(text, kws) == ComplexOperator(text)
  {
    SkipWhiteStep(text, line);
    hide SkipWhite, StringBody, Decimal, ComplexOperator, Word, Identify, IntegerToken;
  }

  /** Digits are read as the number they denote. */
  lemma IntegerRead(digits: string, tail: string, line: nat, kws: Keywords)
    requires digits != [] && forall k :: 0 <= k < |digits| ==> IsDigit(digits[k])
    requires |digits| <= MAX_TOKEN_SIZE && NumberOf(digits, 10) <= 0x7fff_ffff
    requires tail == [] || (!IsDigit(tail[0]) && tail[0] != '.')
    ensures NextToken(State(digits + tail, line, None), kws)
         == Got(Integer(NumberOf(digits, 10), digits), State(tail, line, None))
  {
    var text := digits + tail;
    assert IsDigit(text[0]) && Signed(NumberOf(digits, 10)) == NumberOf(digits, 10);
    RunIs(digits, tail, IsDigit);
    hide Take, Drop, NumberOf;
    FrontNext(text, line, kws);
  }

  /** With a minus sign in front the sign comes first and the number next, except
      for the smallest integer, which is one token. */
  lemma NegativeRead(digits: string, tail: string, line: nat, kws: Keywords)
    requires digits != [] && forall k :: 0 <= k < |digits| ==> IsDigit(digits[k])
    requires |digits| <= MAX_TOKEN_SIZE && NumberOf(digits, 10) <= 0x7fff_ffff
    requires tail == [] || (!IsDigit(tail[0]) && tail[0] != '.')
    ensures Readings(State(['-'] + digits + tail, line, None), kws, 2)
         == [Read(Operator("-"), line), Read(Integer(NumberOf(digits, 10), digits), line)]
    ensures NextToken(State("-2147483648" + tail, line, None), kws)
         == Got(Integer(-2147483648, "2147483648"), State(tail, line, None))
  {
    MinusRead(digits, tail, line, kws);
    SmallestRead(tail, line, kws);
  }

  lemma MinusRead(digits: string, tail: string, line: nat, kws: Keywords)
    requires digits != [] && forall k :: 0 <= k < |digits| ==> IsDigit(digits[k])
    requires |digits| <= MAX_TOKEN_SIZE && NumberOf(digits, 10) <= 0x7fff_ffff
    requires tail == [] || (!IsDigit(tail[0]) && tail[0] != '.')
    ensures Readings(State(['-'] + digits + tail, line, None), kws, 2)
         == [Read(Operator("-"), line), Read(Integer(NumberOf(digits, 10), digits), line)]
  {
    var text := ['-'] + digits + tail;
    var token := Integer(NumberOf(digits, 10), digits);
    assert text[0] == '-' && text[1] == digits[0] && text[1..] == digits + tail;
    NegativeOf(digits, tail);
    MinusFront(text);
    hide NegativeDecimal, FrontToken, NumberOf, ComplexOperator;
    FrontNext(text, line, kws);
    TwoReadings(State(text, line, None), Operator("-"), token, tail, line, kws);
  }

  lemma TwoReadings(s: State, t: Token, u: Token, tail: string, line: nat, kws: Keywords)
    requires NextToken(s, kws) == Got(t, State(tail, line, Some(u)))
    ensures Readings(s, kws, 2) == [Read(t, line), Read(u, line)]
  {
    var after := State(tail, line, Some(u));
    assert NextToken(after, kws) == Got(u, State(tail, line, None));
    assert Readings(after, kws, 1) == [Read(u, line)] + Readings(State(tail, line, None), kws, 0);
  }

  lemma NegativeOf(digits: string, tail: string)
    requires digits != [] && forall k :: 0 <= k < |digits| ==> IsDigit(digits[k])
    requires |digits| <= MAX_TOKEN_SIZE && NumberOf(digits, 10) <= 0x7fff_ffff
    requires tail == [] || (!IsDigit(tail[0]) && tail[0] != '.')
    ensures NegativeDecimal(digits + tail) == Scanned(Operator("-"), tail, Some(Integer(NumberOf(digits, 10), digits)))
  {
    RunIs(digits, tail, IsDigit);
    NotSmallest(digits);
    hide Take, Drop, NumberOf, SmallestDigits;
  }

  lemma NotSmallest(digits: string)
    requires NumberOf(digits, 10) <= 0x7fff_ffff
    ensures digits != SmallestDigits()
  {
    SmallestValue();
  }

  lemma MinusFront(text: string)
    requires |text| > 1 && text[0] == '-' && IsDigit(text[1])
    ensures ComplexOperator(text) == NegativeDecimal(text[1..])
  {
    hide NegativeDecimal;
  }

  lemma SmallestRead(tail: string, line: nat, kws: Keywords)
    requires tail == [] || (!IsDigit(tail[0]) && tail[0] != '.')
    ensures NextToken(State("-2147483648" + tail, line, None), kws)
         == Got(Integer(-2147483648, "2147483648"), State(tail, line, None))
  {
    var digits := "2147483648";
    var text := "-2147483648" + tail;
    assert text[1..] == digits + tail && text[0] == '-' && text[1] == '2';
    RunIs(digits, tail, IsDigit);
    SmallestOf(digits, tail);
    MinusFront(text);
    hide Take, Drop, NegativeDecimal, ComplexOperator, FrontToken;
    FrontNext(text, line, kws);
  }

  lemma SmallestOf(digits: string, tail: string)
    requires digits == "2147483648" && Take(digits + tail, IsDigit) == digits && Drop(digits + tail, IsDigit) == tail
    requires tail == [] || tail[0] != '.'
    ensures NegativeDecimal(digits + tail) == Scanned(Integer(-2147483648, digits), tail, None)
  {
    hide Take, Drop;
  }

  lemma SmallestValue()
    ensures NumberOf("2147483648", 10) == 2147483648
  {
    assert "2147483648"[..9] == "214748364" && "214748364"[..8] == "21474836" && "21474836"[..7] == "2147483";
    assert "2147483"[..6] == "214748" && "214748"[..5] == "21474" && "21474"[..4] == "2147";
    assert "2147"[..3] == "214" && "214"[..2] == "21" && "21"[..1] == "2" && "2"[..0] == "";
    assert NumberOf("214", 10) == 214;
    assert NumberOf("214748", 10) == 214748;
    assert NumberOf("214748364", 10) == 214748364;
  }

  /** Operators are read as far as they go. */
  lemma ShiftsRead(tail: string, line: nat, kws: Keywords)
    ensures NextToken(State(">>>" + tail, line, None), kws) == Got(Operator(">>>"), State(tail, line, None))
    ensures tail == [] || tail[0] != '>' ==>
              NextToken(State(">>" + tail, line, None), kws) == Got(Operator(">>"), State(tail, line, None))
  {
    var three, two := ">>>" + tail, ">>" + tail;
    assert three[..3] == ">>>" && three[3..] == tail && two[..2] == ">>" && two[2..] == tail;
    ShiftFront(three, kws);
    ShiftFront(two, kws);
    hide FrontToken;
    FrontNext(three, line, kws);
    FrontNext(two, line, kws);
  }

  lemma ShiftFront(s: string, kws: Keywords)
    requires |s| > 1 && s[0] == '>' && s[1] == '>'
    ensures FrontToken(s, kws) == OperatorOf(s, if |s| > 2 && s[2] == '>' then 3 else 2)
  {}

  /** A word of the keyword table is read as that keyword, up to what cannot belong to it. */
  lemma KeywordRead(word: string, tail: string, line: nat, kws: Keywords)
    requires word != [] && (forall k :: 0 <= k < |word| ==> IsLetter(word[k]))
    requires word in kws && kws[word].kind != Rem
    requires !StartsWith(word, "PROC") && !StartsWith(word, "FN") && (!StartsWith(word, "REC") || word == "RECTANGLE")
    requires tail == [] || !(IsLetter(tail[0]) || tail[0] == '#' || IsSuffix(tail[0]))
    ensures NextToken(State(word + tail, line, None), kws)
         == Got(Keyword(word, kws[word].kind, kws[word].supported, NoType), State(tail, line, None))
  {
    var text := word + tail;
    assert text[0] == word[0];
    WordOfWord(word, tail);
    hide StartsWith, WordOf;
    LetterFront(text, kws);
    hide FrontToken;
    FrontNext(text, line, kws);
  }

  lemma WordOfWord(word: string, tail: string)
    requires forall k :: 0 <= k < |word| ==> IsLetter(word[k])
    requires tail == [] || !(IsLetter(tail[0]) || tail[0] == '#' || IsSuffix(tail[0]))
    ensures WordOf(word + tail) == WordParts(word, tail, None, false)
  {
    RunIs(word, tail, IsLetter);
    hide Take, Drop;
  }

  lemma LetterFront(s: string, kws: Keywords)
    requires s != [] && IsLetter(s[0])
    ensures !IsWhite(s[0]) && FrontToken(s, kws) == WordToken(WordOf(s), kws)
  {
    hide WordOf, WordToken;
  }

  predicate IsSuffixOf(r: string, s: string) { |r| <= |s| && r == s[|s| - |r|..] }

  lemma SuffixOfSuffix(a: string, b: string, c: string)
    requires IsSuffixOf(a, b) && IsSuffixOf(b, c)
    ensures IsSuffixOf(a, c)
  {}

  /** A scan leaves a proper suffix of the text: it makes progress, and nothing
      is skipped or read twice. */
  lemma FrontTokenProgress(s: string, kws: Keywords)
    requires s != []
    ensures FrontToken(s, kws).Scanned? ==>
              IsSuffixOf(FrontToken(s, kws).rest, s) && |FrontToken(s, kws).rest| < |s|
  {
    hide ComplexOperator, StringBody, Decimal, Word, Identify, Take, Drop, IsSuffixOf;
    var c, t := s[0], s[1..];
    DropProgress(s, IsHex);
    DropProgress(t, IsHex);
    DropProgress(t, IsBinary);
    ShorterSuffix(Drop(t, IsHex), s);
    ShorterSuffix(Drop(t, IsBinary), s);
    ShorterSuffix(t, s);
    if IsComplexStart(c) {
      ComplexOperatorProgress(s);
    }
    if c == '"' {
      StringBodyProgress(t, "");
      var body := StringBody(t, "");
      if body.Scanned? { ShorterSuffix(body.rest, s); }
    }
    if IsDigit(c) {
      DecimalProgress(s);
    }
    if IsLetter(c) {
      WordProgress(s, kws);
    }
    if c == '_' {
      IdentifyProgress([c], t, None);
      var named := Identify([c], t, None);
      if named.Named? { ShorterSuffix(named.rest, s); }
    }
  }

  lemma ShorterSuffix(r: string, s: string)
    requires s != [] && IsSuffixOf(r, s[1..])
    ensures IsSuffixOf(r, s) && |r| < |s|
  {}

  lemma DropProgress(s: string, p: char -> bool)
    ensures IsSuffixOf(Drop(s, p), s) && IsSuffixOf(s, s)
    ensures s != [] ==> IsSuffixOf(s[1..], s)
    ensures s != [] && p(s[0]) ==> |Drop(s, p)| < |s|
  {}

  lemma DecimalProgress(s: string)
    requires s != [] && IsDigit(s[0])
    ensures Decimal(s).Scanned? ==> IsSuffixOf(Decimal(s).rest, s) && |Decimal(s).rest| < |s|
  {
    var r := Drop(s, IsDigit);
    DropProgress(s, IsDigit);
    hide IsSuffixOf, IntegerToken, RealToken, Take, Drop;
    if r != [] {
      DropProgress(r, IsDigit);
      DropProgress(r[1..], IsDigit);
      SuffixOfSuffix(Drop(r[1..], IsDigit), r[1..], r);
      SuffixOfSuffix(Drop(r[1..], IsDigit), r, s);
      SuffixLength(Drop(r[1..], IsDigit), r[1..]);
    }
  }

  lemma SuffixLength(r: string, s: string)
    requires IsSuffixOf(r, s)
    ensures |r| <= |s|
  {}

  lemma NegativeProgress(t: string)
    requires t != [] && IsDigit(t[0])
    ensures NegativeDecimal(t).Scanned? ==> IsSuffixOf(NegativeDecimal(t).rest, t)
  {
    DecimalProgress(t);
    DropProgress(t, IsDigit);
    hide IsSuffixOf, Decimal, Take, Drop;
  }

  lemma OperatorProgress(s: string, n: nat)
    requires 0 < n <= |s|
    ensures IsSuffixOf(s[n..], s) && |s[n..]| < |s|
  {}

  lemma ComplexOperatorProgress(s: string)
    requires s != []
    ensures ComplexOperator(s).Scanned? ==> IsSuffixOf(ComplexOperator(s).rest, s) && |ComplexOperator(s).rest| < |s|
  {
    hide IsSuffixOf, NegativeDecimal, RealToken, Take, Drop, SmallestDigits;
    OperatorProgress(s, 1);
    if |s| > 1 {
      OperatorProgress(s, 2);
      if |s| > 2 { OperatorProgress(s, 3); }
      if IsDigit(s[1]) {
        SignedProgress(s);
      }
    }
  }

  lemma SignedProgress(s: string)
    requires |s| > 1 && IsDigit(s[1])
    ensures var r := NegativeDecimal(s[1..]); r.Scanned? ==> IsSuffixOf(r.rest, s) && |r.rest| < |s|
    ensures var r := Drop(s[1..], IsDigit); IsSuffixOf(r, s) && |r| < |s|
  {
    var t := s[1..];
    assert t[0] == s[1];
    hide NegativeDecimal, Drop;
    NegativeProgress(t);
    DropProgress(t, IsDigit);
    if NegativeDecimal(t).Scanned? { ShorterSuffix(NegativeDecimal(t).rest, s); }
    ShorterSuffix(Drop(t, IsDigit), s);
  }

  lemma {:induction false} StringBodyProgress(s: string, content: string)
    ensures StringBody(s, content).Scanned? ==> IsSuffixOf(StringBody(s, content).rest, s)
    decreases |s|
  {
    if s != [] && s[0] != '"' {
      StringBodyProgress(s[1..], content + [s[0]]);
    } else if |s| > 1 && s[1] == '"' {
      StringBodyProgress(s[2..], content + ['"']);
    }
  }

  lemma SuffixedProgress(text: string, c: char, s: string)
    requires IsSuffix(c)
    ensures Suffixed(text, c, s).Named? ==> IsSuffixOf(Suffixed(text, c, s).rest, s)
  {
    DropProgress(s, IsIdChar);
    hide IsSuffixOf, Drop, Take;
  }

  lemma IdentifyProgress(text: string, s: string, suffix: Option<char>)
    requires suffix.Some? ==> IsSuffix(suffix.value)
    ensures Identify(text, s, suffix).Named? ==> IsSuffixOf(Identify(text, s, suffix).rest, s)
  {
    hide IsSuffixOf, Drop, Take, Suffixed;
    var whole, r := text + Take(s, IsIdChar), Drop(s, IsIdChar);
    DropProgress(s, IsIdChar);
    if suffix.Some? {
      SuffixedProgress(text, suffix.value, s);
    } else if r != [] && IsSuffix(r[0]) {
      DropProgress(r, IsIdChar);
      SuffixedProgress(whole + [r[0]], r[0], r[1..]);
      var named := Suffixed(whole + [r[0]], r[0], r[1..]);
      if named.Named? {
        SuffixOfSuffix(named.rest, r[1..], r);
        SuffixOfSuffix(named.rest, r, s);
      }
    }
  }

  lemma WordOfProgress(s: string)
    ensures IsSuffixOf(WordOf(s).rest, s)
  {
    DropProgress(s, IsLetter);
    hide Take, Drop;
  }

  lemma WordTokenProgress(w: WordParts, kws: Keywords)
    requires w.suffix.Some? ==> IsSuffix(w.suffix.value)
    ensures WordToken(w, kws).Scanned? ==> IsSuffixOf(WordToken(w, kws).rest, w.rest)
  {
    hide IsSuffixOf, Drop, Take, Identify, StartsWith;
    DropProgress(w.rest, IsIdChar);
    IdentifyProgress(w.text, w.rest, w.suffix);
  }

  lemma WordProgress(s: string, kws: Keywords)
    requires s != [] && IsLetter(s[0])
    ensures Word(s, kws).Scanned? ==> IsSuffixOf(Word(s, kws).rest, s) && |Word(s, kws).rest| < |s|
  {
    hide IsSuffixOf, WordOf, WordToken;
    WordOfProgress(s);
    WordTokenProgress(WordOf(s), kws);
    if Word(s, kws).Scanned? {
      SuffixOfSuffix(Word(s, kws).rest, WordOf(s).rest, s);
      SuffixLength(Word(s, kws).rest, WordOf(s).rest);
    }
  }
}
