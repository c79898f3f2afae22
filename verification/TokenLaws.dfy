/** What each kind of token looks like: laws about the next token of a text, one for
    each way a token can be written, with the text behind it left over. */
module TokenLaws {
  import opened Wrappers
  import opened LexText

  // ----- Characters -----

  predicate Letter(c: char) { 'A' <= c <= 'Z' || 'a' <= c <= 'z' }

  predicate Digit(c: char) { '0' <= c <= '9' }

  predicate WordChar(c: char) { Letter(c) || Digit(c) || c == '_' }

  predicate Hex(c: char) { Digit(c) || 'A' <= c <= 'F' || 'a' <= c <= 'f' }

  predicate Binary(c: char) { c == '0' || c == '1' }

  predicate Mark(c: char) { c == '$' || c == '%' || c == '&' || c == '@' }

  predicate Letters(s: string) { forall k :: 0 <= k < |s| ==> Letter(s[k]) }

  predicate Digits(s: string) { forall k :: 0 <= k < |s| ==> Digit(s[k]) }

  predicate WordChars(s: string) { forall k :: 0 <= k < |s| ==> WordChar(s[k]) }

  predicate HexDigits(s: string) { forall k :: 0 <= k < |s| ==> Hex(s[k]) }

  predicate BinaryDigits(s: string) { forall k :: 0 <= k < |s| ==> Binary(s[k]) }

  // ----- What one call gives -----

  /** The next token of the text is the given one, with the tail left on the same line. */
  predicate Reads(text: string, kws: Keywords, line: nat, token: Token, tail: string)
  {
    NextToken(State(text, line, None), kws) == Got(token, State(tail, line, None))
  }

  predicate Fails(text: string, kws: Keywords, line: nat, error: Error)
  {
    NextToken(State(text, line, None), kws) == Failed(error)
  }

  lemma FrontOutcome(text: string, line: nat, kws: Keywords)
    requires text != [] && !IsWhite(text[0])
    ensures var f := FrontToken(text, kws);
            && (f.Scanned? ==> NextToken(State(text, line, None), kws) == Got(f.token, State(f.rest, line, f.next)))
            && (f.Bad? ==> Fails(text, kws, line, f.error))
            && (f.Remark? ==> NextToken(State(text, line, None), kws) == NextToken(SkipLine(f.rest, line), kws))
  {
    SkipWhiteStep(text, line);
    hide SkipWhite, SkipLine, FrontToken;
  }

  /** Which branch the first character takes. */
  lemma FrontBranch(text: string, kws: Keywords)
    requires text != []
    ensures IsComplexStart(text[0]) ==> FrontToken(text, kws) == ComplexOperator(text)
    ensures text[0] == '"' ==> FrontToken(text, kws) == StringBody(text[1..], "")
    ensures Digit(text[0]) ==> FrontToken(text, kws) == Decimal(text)
    ensures text[0] == '&' ==> FrontToken(text, kws) == IntegerToken(Take(text[1..], IsHex), 16, Drop(text[1..], IsHex))
    ensures text[0] == '%' ==>
              FrontToken(text, kws) == IntegerToken(Take(text[1..], IsBinary), 2, Drop(text[1..], IsBinary))
    ensures Letter(text[0]) ==> FrontToken(text, kws) == WordToken(WordOf(text), kws)
    ensures text[0] == '_' ==> FrontToken(text, kws) == IdentifierToken(Identify(['_'], text[1..], None))
  {
    hide ComplexOperator, StringBody, Decimal, IntegerToken, WordToken, WordOf, Identify, IdentifierToken, Take, Drop;
  }

  lemma Delivers(text: string, line: nat, kws: Keywords, token: Token, tail: string)
    requires text != [] && !IsWhite(text[0]) && FrontToken(text, kws) == Scanned(token, tail, None)
    ensures Reads(text, kws, line, token, tail)
  {
    hide FrontToken, NextToken;
    FrontOutcome(text, line, kws);
  }

  lemma Breaks(text: string, line: nat, kws: Keywords, error: Error)
    requires text != [] && !IsWhite(text[0]) && FrontToken(text, kws) == Bad(error)
    ensures Fails(text, kws, line, error)
  {
    hide FrontToken, NextToken;
    FrontOutcome(text, line, kws);
  }

  // ----- Between tokens -----

  /** White space is skipped, and each newline in it counts as a line. */
  lemma {:induction false} WhiteRead(white: string, text: string, line: nat, kws: Keywords)
    requires forall k :: 0 <= k < |white| ==> white[k] in {' ', '\t', '\n', '\r'}
    ensures NextToken(State(white + text, line, None), kws)
         == NextToken(State(text, line + multiset(white)['\n'], None), kws)
    decreases |white|
  {
    hide NextToken;
    if white == [] {
      assert white + text == text;
    } else {
      var next := if white[0] == '\n' then line + 1 else line;
      assert white + text == [white[0]] + (white[1..] + text);
      assert white == [white[0]] + white[1..];
      WhiteRead(white[1..], text, next, kws);
      WhiteStep(white[0], white[1..] + text, line, kws);
    }
  }

  lemma WhiteStep(c: char, s: string, line: nat, kws: Keywords)
    requires c in {' ', '\t', '\n', '\r'}
    ensures NextToken(State([c] + s, line, None), kws)
         == NextToken(State(s, if c == '\n' then line + 1 else line, None), kws)
  {
    var t := [c] + s;
    assert t[0] == c && t[1..] == s;
    SkipWhiteStep(t, line);
    SameAfterWhite(State(t, line, None), State(s, if c == '\n' then line + 1 else line, None), kws);
  }

  lemma SameAfterWhite(s: State, t: State, kws: Keywords)
    requires s.next == t.next == None && SkipWhite(s.rest, s.line) == SkipWhite(t.rest, t.line)
    ensures NextToken(s, kws) == NextToken(t, kws)
  {
    hide SkipWhite, FrontToken, SkipLine;
  }

  /** The end of the text is a token of its own, and a token read ahead comes first. */
  lemma EndRead(text: string, line: nat, kws: Keywords, token: Token)
    ensures Reads([], kws, line, Eof, [])
    ensures NextToken(State(text, line, Some(token)), kws) == Got(token, State(text, line, None))
  {
    SkipWhiteStep([], line);
  }

  /** A remark goes to the end of its line. */
  lemma RemarkRead(word: string, body: string, tail: string, line: nat, kws: Keywords)
    requires word != [] && Letters(word) && !Reserved(word) && word in kws && kws[word].kind == Rem
    requires body == [] || !(Letter(body[0]) || Mark(body[0]) || body[0] == '#')
    requires forall k :: 0 <= k < |body| ==> body[k] != '\n'
    ensures NextToken(State(word + body + ['\n'] + tail, line, None), kws) == NextToken(State(tail, line + 1, None), kws)
    ensures Reads(word + body, kws, line, Eof, [])
  {
    hide NextToken, Reserved, Letters;
    assert word + (body + ['\n'] + tail) == word + body + ['\n'] + tail;
    LineSkipped(body, tail, line);
    RemarkTo(word, body + ['\n'] + tail, line, kws);
    RemarkTo(word, body, line, kws);
    EndRead([], line, kws, Eof);
  }

  lemma LineSkipped(body: string, tail: string, line: nat)
    requires forall k :: 0 <= k < |body| ==> body[k] != '\n'
    ensures SkipLine(body + ['\n'] + tail, line) == State(tail, line + 1, None)
    ensures SkipLine(body, line) == State([], line, None)
  {
    var after := ['\n'] + tail;
    assert body + after == body + ['\n'] + tail && after[1..] == tail && body + [] == body;
    RunIs(body, after, NotNewline);
    RunIs(body, [], NotNewline);
    hide Take, Drop;
  }

  lemma RemarkTo(word: string, body: string, line: nat, kws: Keywords)
    requires word != [] && Letters(word) && !Reserved(word) && word in kws && kws[word].kind == Rem
    requires body == [] || !(Letter(body[0]) || Mark(body[0]) || body[0] == '#')
    ensures NextToken(State(word + body, line, None), kws) == NextToken(SkipLine(body, line), kws)
  {
    WordOfWord(word, body);
    hide SkipLine, NextToken, FrontToken, WordOf;
    assert (word + body)[0] == word[0];
    LetterFront(word + body, kws);
    FrontOutcome(word + body, line, kws);
  }

  // ----- Operators -----

  /** Operators of one character. */
  lemma SimpleRead(c: char, tail: string, line: nat, kws: Keywords)
    requires c in {'/', '*', '(', ')', '=', ',', ';', '^', '[', ']', '|', '~', '?', '$', '!', '{', '}'}
    ensures Reads([c] + tail, kws, line, Operator([c]), tail)
  {
    var text := [c] + tail;
    assert text[..1] == [c] && text[1..] == tail;
    Delivers(text, line, kws, Operator([c]), tail);
  }

  /** The others take a second character in these cases only. */
  predicate Joins(c: char, d: char)
  {
    d == '=' || d == '-' || (c == '<' && (d == '<' || d == '>')) || (c == '>' && d == '>')
  }

  /** How many characters such an operator takes. */
  function Taken(c: char, tail: string): (n: nat)
    ensures n <= |tail|
  {
    if tail == [] || !Joins(c, tail[0]) then 0
    else if c == '>' && |tail| > 1 && tail[0] == '>' && tail[1] == '>' then 2
    else 1
  }

  lemma ComplexRead(c: char, tail: string, line: nat, kws: Keywords)
    requires c in {'<', '>', '+', '-', ':', '.'}
    requires c == '-' || c == '.' ==> tail == [] || !Digit(tail[0])
    ensures var n := Taken(c, tail); Reads([c] + tail, kws, line, Operator([c] + tail[..n]), tail[n..])
  {
    hide ComplexOperator, Taken, FrontToken;
    var text, n := [c] + tail, Taken(c, tail);
    ComplexFront(c, tail);
    assert text[..n + 1] == [c] + tail[..n] && text[n + 1..] == tail[n..];
    assert text[0] == c;
    FrontBranch(text, kws);
    Delivers(text, line, kws, Operator([c] + tail[..n]), tail[n..]);
  }

  lemma ComplexFront(c: char, tail: string)
    requires c in {'<', '>', '+', '-', ':', '.'}
    requires c == '-' || c == '.' ==> tail == [] || !Digit(tail[0])
    ensures ComplexOperator([c] + tail) == OperatorOf([c] + tail, Taken(c, tail) + 1)
  {
    var text := [c] + tail;
    assert text[0] == c;
    assert tail != [] ==> text[1] == tail[0];
    assert |tail| > 1 ==> text[2] == tail[1];
    hide NegativeDecimal, RealToken, Take, Drop;
  }

  /** A string literal without its second quote is an error. */
  lemma StringOpen(s: string, line: nat, kws: Keywords)
    ensures Fails(['"'] + Doubled(s), kws, line, UnterminatedString)
  {
    var text := ['"'] + Doubled(s);
    assert text[1..] == Doubled(s);
    OpenBody(s, "");
    hide StringBody, FrontToken;
    FrontBranch(text, kws);
    Breaks(text, line, kws, UnterminatedString);
  }

  lemma {:induction false} OpenBody(s: string, content: string)
    ensures StringBody(Doubled(s), content) == Bad(UnterminatedString)
  {
    if s != [] {
      OpenBody(s[1..], content + [s[0]]);
      var text := Doubled(s);
      if s[0] == '"' {
        assert text == ['"', '"'] + Doubled(s[1..]) && text[2..] == Doubled(s[1..]);
      } else {
        assert text == [s[0]] + Doubled(s[1..]) && text[1..] == Doubled(s[1..]);
      }
    }
  }

  /** Other characters begin no token. */
  lemma UnknownRead(c: char, tail: string, line: nat, kws: Keywords)
    requires c in {'#', '\'', '@', '\\', '`'} || c > '~' || (c < ' ' && c !in {'\t', '\n', '\r'})
    ensures Fails([c] + tail, kws, line, UnknownToken)
  {
    Breaks([c] + tail, line, kws, UnknownToken);
  }

  // ----- Numbers -----

  /** The value of a digit by its code. */
  function DigitValue(c: char): nat
    requires Hex(c)
  {
    var code := c as int;
    if code <= 57 then code - 48 else if code <= 70 then code - 55 else code - 87
  }

  function Power(base: nat, n: nat): nat
  {
    if n == 0 then 1 else base * Power(base, n - 1)
  }

  /** The number that digits denote in a base, each digit counting by its place. */
  function Value(s: string, base: nat): nat
    requires HexDigits(s)
  {
    if s == [] then 0 else DigitValue(s[0]) * Power(base, |s| - 1) + Value(s[1..], base)
  }

  lemma {:induction false} ValueOfLast(s: string, c: char, base: nat)
    requires HexDigits(s) && Hex(c)
    ensures HexDigits(s + [c]) && Value(s + [c], base) == Value(s, base) * base + DigitValue(c)
  {
    var t := s + [c];
    assert forall k :: 0 <= k < |t| ==> t[k] == if k < |s| then s[k] else c;
    if s == [] {
      assert t[1..] == [] && Power(base, 0) == 1;
    } else {
      assert t[0] == s[0] && t[1..] == s[1..] + [c];
      ValueOfLast(s[1..], c, base);
      assert Power(base, |s|) == base * Power(base, |s| - 1);
      Carry(DigitValue(s[0]), Power(base, |s| - 1), base, Value(s[1..], base), DigitValue(c));
    }
  }

  lemma Carry(d: nat, power: nat, base: nat, value: nat, last: nat)
    ensures d * (base * power) + (value * base + last) == (d * power + value) * base + last
  {
    assert d * (base * power) == d * power * base;
  }

  /** Digits are read as the number they denote by their places. */
  lemma {:induction false} NumberIsValue(s: string, base: nat)
    requires HexDigits(s)
    ensures NumberOf(s, base) == Value(s, base)
  {
    if s != [] {
      var t, c := s[..|s| - 1], s[|s| - 1];
      assert s == t + [c];
      NumberIsValue(t, base);
      ValueOfLast(t, c, base);
    }
  }

  /** A decimal number is signed. */
  lemma DecimalRead(digits: string, tail: string, line: nat, kws: Keywords)
    requires digits != [] && Digits(digits) && (tail == [] || !(Digit(tail[0]) || tail[0] == '.'))
    ensures var n := Value(digits, 10);
            if |digits| <= 255 && n <= 0x7fff_ffff then Reads(digits + tail, kws, line, Integer(n, digits), tail)
            else Fails(digits + tail, kws, line, NumberTooLong)
  {
    hide Take, Drop, NumberOf, Value, FrontToken;
    var text := digits + tail;
    NumberIsValue(digits, 10);
    RunIs(digits, tail, IsDigit);
    assert text[0] == digits[0] && Digit(digits[0]);
    FrontBranch(text, kws);
    if |digits| <= 255 && Value(digits, 10) <= 0x7fff_ffff {
      Delivers(text, line, kws, Integer(Value(digits, 10), digits), tail);
    } else {
      Breaks(text, line, kws, NumberTooLong);
    }
  }

  /** The integer whose bit pattern is the given number. */
  function Pattern(n: nat): int { if n < 0x8000_0000 then n else n - 0x1_0000_0000 }

  /** Hexadecimal and binary numbers are bit patterns: their upper half is negative. */
  lemma HexadecimalRead(digits: string, tail: string, line: nat, kws: Keywords)
    requires HexDigits(digits) && (tail == [] || !Hex(tail[0]))
    ensures var n := Value(digits, 16);
            if |digits| <= 255 && n <= 0xffff_ffff then
              Reads(['&'] + digits + tail, kws, line, Integer(Pattern(n), digits), tail)
            else Fails(['&'] + digits + tail, kws, line, NumberTooLong)
  {
    hide Take, Drop, NumberOf, Value, FrontToken, NextToken, IntegerToken;
    var text := ['&'] + digits + tail;
    NumberIsValue(digits, 16);
    RunIs(digits, tail, IsHex);
    assert text[0] == '&' && text[1..] == digits + tail;
    FrontBranch(text, kws);
    PatternRead(text, digits, 16, tail, line, kws);
  }

  lemma BinaryRead(digits: string, tail: string, line: nat, kws: Keywords)
    requires BinaryDigits(digits) && (tail == [] || !Binary(tail[0]))
    ensures HexDigits(digits)
    ensures var n := Value(digits, 2);
            if |digits| <= 255 && n <= 0xffff_ffff then
              Reads(['%'] + digits + tail, kws, line, Integer(Pattern(n), digits), tail)
            else Fails(['%'] + digits + tail, kws, line, NumberTooLong)
  {
    hide Take, Drop, NumberOf, Value, FrontToken, NextToken, IntegerToken;
    var text := ['%'] + digits + tail;
    NumberIsValue(digits, 2);
    RunIs(digits, tail, IsBinary);
    assert text[0] == '%' && text[1..] == digits + tail;
    FrontBranch(text, kws);
    PatternRead(text, digits, 2, tail, line, kws);
  }

  lemma PatternRead(text: string, digits: string, base: nat, tail: string, line: nat, kws: Keywords)
    requires HexDigits(digits) && NumberOf(digits, base) == Value(digits, base) && base != 10
    requires text != [] && !IsWhite(text[0]) && FrontToken(text, kws) == IntegerToken(digits, base, tail)
    ensures var n := Value(digits, base);
            if |digits| <= 255 && n <= 0xffff_ffff then Reads(text, kws, line, Integer(Pattern(n), digits), tail)
            else Fails(text, kws, line, NumberTooLong)
  {
    hide FrontToken, NumberOf, Value;
    if |digits| <= 255 && Value(digits, base) <= 0xffff_ffff {
      Delivers(text, line, kws, Integer(Pattern(Value(digits, base)), digits), tail);
    } else {
      Breaks(text, line, kws, NumberTooLong);
    }
  }

  /** A real has digits in front of its dot, and one character less to be written in,
      or behind its dot only. */
  lemma RealRead(digits: string, fraction: string, tail: string, line: nat, kws: Keywords)
    requires Digits(digits) && Digits(fraction) && (tail == [] || !Digit(tail[0]))
    requires digits == [] ==> fraction != []
    ensures var number, text := digits + ['.'] + fraction, digits + ['.'] + fraction + tail;
            if |number| <= (if digits == [] then 255 else 254) then Reads(text, kws, line, RealNumber(number), tail)
            else Fails(text, kws, line, NumberTooLong)
  {
    var number, text := digits + ['.'] + fraction, digits + ['.'] + fraction + tail;
    RealFront(digits, fraction, tail, kws);
    hide FrontToken;
    assert number + tail == text;
    if |number| <= (if digits == [] then 255 else 254) {
      Delivers(text, line, kws, RealNumber(number), tail);
    } else {
      Breaks(text, line, kws, NumberTooLong);
    }
  }

  lemma RealFront(digits: string, fraction: string, tail: string, kws: Keywords)
    requires Digits(digits) && Digits(fraction) && (tail == [] || !Digit(tail[0]))
    requires digits == [] ==> fraction != []
    ensures var text := digits + ['.'] + fraction + tail;
            && !IsWhite(text[0])
            && FrontToken(text, kws) == RealToken(digits + ['.'] + fraction, if digits == [] then 0 else 1, tail)
  {
    var text, after := digits + ['.'] + fraction + tail, fraction + tail;
    RunIs(fraction, tail, IsDigit);
    if digits == [] {
      assert text[0] == '.' && text[1] == fraction[0] && Digit(fraction[0]) && text[1..] == after;
      assert ['.'] + fraction == [] + ['.'] + fraction;
      hide Take, Drop, RealToken, FrontToken;
      FrontBranch(text, kws);
    } else {
      DecimalReal(digits, fraction, tail);
      assert text[0] == digits[0] && Digit(digits[0]);
      hide Decimal, FrontToken, RealToken, Take, Drop;
      FrontBranch(text, kws);
    }
  }

  lemma DecimalReal(digits: string, fraction: string, tail: string)
    requires Digits(digits) && Digits(fraction) && (tail == [] || !Digit(tail[0])) && digits != []
    ensures Decimal(digits + ['.'] + fraction + tail) == RealToken(digits + ['.'] + fraction, 1, tail)
  {
    hide Take, Drop, RealToken;
    var after := ['.'] + fraction + tail;
    assert digits + after == digits + ['.'] + fraction + tail && after[1..] == fraction + tail;
    RunIs(digits, after, IsDigit);
    RunIs(fraction, tail, IsDigit);
  }

  /** A minus sign in front of a number comes first, with the number read ahead; the
      smallest integer is one token. */
  lemma MinusInteger(digits: string, tail: string, line: nat, kws: Keywords)
    requires digits != [] && Digits(digits) && (tail == [] || !(Digit(tail[0]) || tail[0] == '.'))
    ensures var n, text := Value(digits, 10), ['-'] + digits + tail;
            if digits == "2147483648" then Reads(text, kws, line, Integer(-2147483648, digits), tail)
            else if |digits| <= 255 && n <= 0x7fff_ffff then
              NextToken(State(text, line, None), kws) == Got(Operator("-"), State(tail, line, Some(Integer(n, digits))))
            else Fails(text, kws, line, NumberTooLong)
  {
    hide NegativeDecimal, ComplexOperator, Value, NumberOf, FrontToken, NextToken;
    var text := ['-'] + digits + tail;
    NumberIsValue(digits, 10);
    assert text[0] == '-' && text[1] == digits[0] && Digit(digits[0]) && text[1..] == digits + tail;
    NegativeInteger(digits, tail);
    MinusFront(text);
    FrontBranch(text, kws);
    FrontOutcome(text, line, kws);
  }

  lemma NegativeInteger(digits: string, tail: string)
    requires digits != [] && Digits(digits) && (tail == [] || !(Digit(tail[0]) || tail[0] == '.'))
    ensures NegativeDecimal(digits + tail)
         == if digits == "2147483648" then Scanned(Integer(-2147483648, digits), tail, None)
            else if |digits| <= 255 && NumberOf(digits, 10) <= 0x7fff_ffff then
              Scanned(Operator("-"), tail, Some(Integer(NumberOf(digits, 10), digits)))
            else Bad(NumberTooLong)
  {
    hide Take, Drop, NumberOf;
    RunIs(digits, tail, IsDigit);
  }

  lemma MinusReal(digits: string, fraction: string, tail: string, line: nat, kws: Keywords)
    requires digits != [] && Digits(digits) && Digits(fraction) && (tail == [] || !Digit(tail[0]))
    ensures var number, text := digits + ['.'] + fraction, ['-'] + digits + ['.'] + fraction + tail;
            if |number| <= 254 then
              NextToken(State(text, line, None), kws) == Got(Operator("-"), State(tail, line, Some(RealNumber(number))))
            else Fails(text, kws, line, NumberTooLong)
  {
    hide NegativeDecimal, ComplexOperator, FrontToken, NextToken;
    var text, after := ['-'] + digits + ['.'] + fraction + tail, digits + ['.'] + fraction + tail;
    assert text[0] == '-' && text[1] == digits[0] && Digit(digits[0]) && text[1..] == after;
    NegativeReal(digits, fraction, tail);
    MinusFront(text);
    FrontBranch(text, kws);
    FrontOutcome(text, line, kws);
  }

  lemma NegativeReal(digits: string, fraction: string, tail: string)
    requires digits != [] && Digits(digits) && Digits(fraction) && (tail == [] || !Digit(tail[0]))
    ensures NegativeDecimal(digits + ['.'] + fraction + tail)
         == if |digits| + 1 + |fraction| <= 254 then
              Scanned(Operator("-"), tail, Some(RealNumber(digits + ['.'] + fraction)))
            else Bad(NumberTooLong)
  {
    hide Take, Drop, Decimal;
    var number, after := digits + ['.'] + fraction, ['.'] + fraction + tail;
    assert digits + after == number + tail;
    RunIs(digits, after, IsDigit);
    DecimalReal(digits, fraction, tail);
  }

  // ----- Names -----

  /** Words that begin with the prefix of a procedure, a function or a record name. */
  predicate Reserved(word: string) { "PROC" <= word || "FN" <= word || "REC" <= word }

  predicate Custom(suffix: string) { suffix != [] && suffix[0] == '@' && WordChars(suffix[1..]) }

  /** The type a name has by its suffix; a record type is known by the whole name. */
  predicate TypeBy(name: string, suffix: string, t: IdType)
  {
    || (suffix == "" && t == RealId)
    || (suffix == "$" && t == StringId)
    || (suffix == "%" && t == IntegerId)
    || (suffix == "&" && t == ByteId)
    || (Custom(suffix) && "REC" <= suffix[1..] && t == RecordId(name))
    || (Custom(suffix) && ("FN" <= suffix[1..] || "PROC" <= suffix[1..]) && t == FunctionId)
  }

  /** The longest names of custom types have one character less. */
  predicate Fits(name: string, t: IdType) { |name| <= (if t.RecordId? || t.FunctionId? then 254 else 255) }

  /** The text goes on with something that cannot belong to the name. Letters alone may
      still become a keyword that ends in a hash. */
  predicate Over(letters: bool, suffix: string, tail: string)
  {
    tail == [] ||
      (if suffix == "" then !WordChar(tail[0]) && !Mark(tail[0]) && (letters ==> tail[0] != '#')
       else if suffix[0] == '@' then !WordChar(tail[0])
       else letters && suffix == "$" ==> tail[0] != '#')
  }

  /** A suffix by its shape. */
  predicate IsEnding(suffix: string) { suffix in {"", "$", "%", "&"} || Custom(suffix) }

  /** A name: letters, more characters that begin with a digit or an underscore, and a suffix. */
  predicate IsShaped(word: string, more: string, suffix: string, tail: string)
  {
    && word != [] && Letters(word) && WordChars(more) && (more == [] || !Letter(more[0]))
    && IsEnding(suffix) && Over(more == [], suffix, tail)
  }

  predicate IsName(word: string, more: string, suffix: string, tail: string, t: IdType)
  {
    IsShaped(word, more, suffix, tail) && TypeBy(word + more + suffix, suffix, t)
  }

  /** What is looked up among the keywords. */
  function Head(word: string, more: string, suffix: string): string
  {
    if more == [] && suffix != [] then word + [suffix[0]] else word
  }

  function Limited(name: string, t: IdType, tail: string): Named
  {
    if Fits(name, t) then Named(name, t, tail) else NotNamed(IdentifierTooLong)
  }

  lemma SuffixRead(text: string, suffix: string, tail: string, t: IdType)
    requires suffix != [] && TypeBy(text + suffix, suffix, t) && Over(false, suffix, tail)
    ensures IsSuffix(suffix[0])
    ensures Suffixed(text + [suffix[0]], suffix[0], suffix[1..] + tail) == Named(text + suffix, t, tail)
  {
    var c, name := suffix[0], suffix[1..];
    assert suffix == [c] + name && text + [c] + name == text + suffix;
    if c == '@' {
      RunIs(name, tail, IsIdChar);
      hide Take, Drop;
    } else {
      assert name == [] && name + tail == tail;
    }
  }

  lemma IdentifyMarked(text: string, suffix: string, tail: string, t: IdType)
    requires suffix != [] && TypeBy(text + suffix, suffix, t) && Over(false, suffix, tail)
    ensures IsSuffix(suffix[0])
    ensures Identify(text + [suffix[0]], suffix[1..] + tail, Some(suffix[0])) == Limited(text + suffix, t, tail)
  {
    SuffixRead(text, suffix, tail, t);
    hide Suffixed, TypeBy, Over, Take, Drop;
  }

  /** What comes right behind the characters of a name, and right behind its mark. */
  lemma AfterName(suffix: string, tail: string, letters: bool)
    requires IsEnding(suffix) && Over(letters, suffix, tail)
    ensures var after := suffix + tail;
            && (after == [] || !WordChar(after[0]))
            && (suffix == [] ==> after == tail && (tail == [] || !Mark(tail[0])))
            && (suffix == [] && letters ==> tail == [] || tail[0] != '#')
            && (suffix != [] ==> after[0] == suffix[0] && Mark(after[0]) && after[1..] == suffix[1..] + tail)
            && (suffix != [] && suffix[0] != '@' ==> after[1..] == tail)
            && (suffix != [] && suffix[0] == '$' && letters ==> tail == [] || tail[0] != '#')
  {
    if suffix != [] && suffix[0] != '@' {
      assert suffix[1..] == [] && [] + tail == tail;
    }
    hide WordChars;
  }

  lemma IdentifyLong(text: string, more: string, suffix: string, tail: string, t: IdType)
    requires WordChars(more) && TypeBy(text + more + suffix, suffix, t) && Over(false, suffix, tail)
    ensures Identify(text, more + suffix + tail, None) == Limited(text + more + suffix, t, tail)
  {
    hide Take, Drop, Suffixed, Over;
    var after := suffix + tail;
    assert more + suffix + tail == more + after;
    AfterName(suffix, tail, false);
    RunIs(more, after, IsIdChar);
    if suffix == [] {
      assert text + more + suffix == text + more;
    } else {
      hide TypeBy;
      SuffixRead(text + more, suffix, tail, t);
    }
  }

  /** A name as the lexer takes it apart. */
  function Parts(word: string, more: string, suffix: string, tail: string): (w: WordParts)
    requires suffix != [] ==> IsSuffix(suffix[0])
    ensures w.text == Head(word, more, suffix) && (w.suffix.Some? ==> IsSuffix(w.suffix.value)) && !w.hash
  {
    if more == [] && suffix != [] then WordParts(word + [suffix[0]], suffix[1..] + tail, Some(suffix[0]), false)
    else WordParts(word, more + suffix + tail, None, false)
  }

  lemma NameIdentified(word: string, more: string, suffix: string, tail: string, t: IdType)
    requires IsName(word, more, suffix, tail, t)
    ensures suffix != [] ==> IsSuffix(suffix[0])
    ensures var w := Parts(word, more, suffix, tail);
            Identify(w.text, w.rest, w.suffix) == Limited(word + more + suffix, t, tail)
  {
    hide Identify, WordChars, Letters;
    if more == [] && suffix != [] {
      assert word + more + suffix == word + suffix;
      IdentifyMarked(word, suffix, tail, t);
    } else {
      if suffix != [] {
        IdentifyMarked(word + more, suffix, tail, t);
      }
      IdentifyLong(word, more, suffix, tail, t);
    }
  }

  lemma NameParts(word: string, more: string, suffix: string, tail: string)
    requires IsShaped(word, more, suffix, tail)
    ensures suffix != [] ==> IsSuffix(suffix[0])
    ensures WordOf(word + more + suffix + tail) == Parts(word, more, suffix, tail)
  {
    hide Take, Drop, IsEnding, Over;
    var after, rest := more + suffix + tail, suffix + tail;
    assert word + after == word + more + suffix + tail && after == more + rest;
    AfterName(suffix, tail, more == []);
    assert more == [] ==> after == rest;
    assert more != [] ==> after[0] == more[0] && WordChar(more[0]);
    RunIs(word, after, IsLetter);
  }

  lemma NameFront(word: string, more: string, suffix: string, tail: string, kws: Keywords)
    requires IsShaped(word, more, suffix, tail)
    ensures suffix != [] ==> IsSuffix(suffix[0])
    ensures var text := word + more + suffix + tail;
            && text != [] && !IsWhite(text[0])
            && FrontToken(text, kws) == WordToken(Parts(word, more, suffix, tail), kws)
  {
    hide WordOf, WordToken, FrontToken, Parts, Over, IsEnding;
    var text := word + more + suffix + tail;
    NameParts(word, more, suffix, tail);
    assert text[0] == word[0] && Letter(word[0]);
    FrontBranch(text, kws);
  }

  /** The mark of a suffix is no part of a prefix. */
  lemma HeadBegins(word: string, more: string, suffix: string, prefix: string)
    requires suffix != [] ==> IsSuffix(suffix[0])
    requires Letters(prefix)
    ensures StartsWith(Head(word, more, suffix), prefix) <==> prefix <= word
  {
    var head := Head(word, more, suffix);
    assert head != word ==> !Letter(head[|word|]);
    assert forall k :: 0 <= k < |prefix| ==> Letter(prefix[k]);
  }

  lemma HeadReserved(word: string, more: string, suffix: string)
    requires suffix != [] ==> IsSuffix(suffix[0])
    ensures var head := Head(word, more, suffix);
            && (StartsWith(head, "PROC") <==> "PROC" <= word)
            && (StartsWith(head, "FN") <==> "FN" <= word)
            && (StartsWith(head, "REC") <==> "REC" <= word)
            && (head == "RECTANGLE" <==> word == "RECTANGLE" && head == word)
  {
    hide StartsWith;
    HeadBegins(word, more, suffix, "PROC");
    HeadBegins(word, more, suffix, "FN");
    HeadBegins(word, more, suffix, "REC");
    var head := Head(word, more, suffix);
    if head != word {
      assert head[|word|] == suffix[0] && "RECTANGLE"[8] == 'E';
      assert head == "RECTANGLE" ==> |word| == 8;
    }
  }

  /** A name that is no keyword is an identifier of the type its suffix gives it. */
  lemma IdentifierRead(word: string, more: string, suffix: string, tail: string, t: IdType, line: nat, kws: Keywords)
    requires IsName(word, more, suffix, tail, t) && Head(word, more, suffix) !in kws
    requires !Reserved(word) || Head(word, more, suffix) == "RECTANGLE"
    ensures var name := word + more + suffix;
            if Fits(name, t) then Reads(name + tail, kws, line, Identifier(name, t), tail)
            else Fails(name + tail, kws, line, IdentifierTooLong)
  {
    hide IsShaped, TypeBy, Head, StartsWith, Identify, FrontToken, Parts, NextToken;
    var name := word + more + suffix;
    NameFront(word, more, suffix, tail, kws);
    NameIdentified(word, more, suffix, tail, t);
    HeadReserved(word, more, suffix);
    if Fits(name, t) {
      Delivers(name + tail, line, kws, Identifier(name, t), tail);
    } else {
      Breaks(name + tail, line, kws, IdentifierTooLong);
    }
  }

  /** A function has a result type by the suffix of its name. */
  lemma FunctionRead(word: string, more: string, suffix: string, tail: string, t: IdType, line: nat, kws: Keywords)
    requires IsName(word, more, suffix, tail, t) && "FN" <= word
    ensures var name := word + more + suffix;
            if Fits(name, t) then Reads(name + tail, kws, line, Keyword(name, Fn, true, t), tail)
            else Fails(name + tail, kws, line, IdentifierTooLong)
  {
    hide IsShaped, TypeBy, Head, StartsWith, Identify, FrontToken, Parts, NextToken;
    var name := word + more + suffix;
    NameFront(word, more, suffix, tail, kws);
    NameIdentified(word, more, suffix, tail, t);
    HeadReserved(word, more, suffix);
    if Fits(name, t) {
      Delivers(name + tail, line, kws, Keyword(name, Fn, true, t), tail);
    } else {
      Breaks(name + tail, line, kws, IdentifierTooLong);
    }
  }

  /** A procedure has no type: its name may not have a suffix. */
  lemma ProcedureRead(word: string, more: string, suffix: string, tail: string, t: IdType, line: nat, kws: Keywords)
    requires IsName(word, more, suffix, tail, t) && "PROC" <= word
    ensures var name := word + more + suffix;
            if suffix != [] && (more == [] || Fits(name, t)) then Fails(name + tail, kws, line, BadProcName)
            else if Fits(name, t) then Reads(name + tail, kws, line, Keyword(name, Proc, true, NoType), tail)
            else Fails(name + tail, kws, line, IdentifierTooLong)
  {
    hide IsShaped, TypeBy, Head, StartsWith, Identify, FrontToken, NextToken;
    var name := word + more + suffix;
    NameFront(word, more, suffix, tail, kws);
    NameIdentified(word, more, suffix, tail, t);
    HeadReserved(word, more, suffix);
    TypeIsReal(word, more, suffix, tail, t);
    if suffix != [] && (more == [] || Fits(name, t)) {
      Breaks(name + tail, line, kws, BadProcName);
    } else if Fits(name, t) {
      Delivers(name + tail, line, kws, Keyword(name, Proc, true, NoType), tail);
    } else {
      Breaks(name + tail, line, kws, IdentifierTooLong);
    }
  }

  lemma TypeIsReal(word: string, more: string, suffix: string, tail: string, t: IdType)
    requires IsName(word, more, suffix, tail, t)
    ensures t == RealId <==> suffix == []
  {
    hide Letters, WordChars, Over;
  }

  /** A record name has no suffix either, and is longer than its prefix. */
  lemma RecordRead(word: string, more: string, suffix: string, tail: string, line: nat, kws: Keywords)
    requires IsShaped(word, more, suffix, tail)
    requires "REC" <= word && Head(word, more, suffix) != "RECTANGLE"
    ensures var name := word + more + suffix;
            if suffix != [] || |word| == 3 then Fails(name + tail, kws, line, BadRecName)
            else if |name| <= 255 then Reads(name + tail, kws, line, Keyword(name, Rec, true, NoType), tail)
            else Fails(name + tail, kws, line, IdentifierTooLong)
  {
    hide IsShaped, StartsWith, FrontToken, NextToken, Take, Drop, RecordToken;
    var name := word + more + suffix;
    NameFront(word, more, suffix, tail, kws);
    HeadReserved(word, more, suffix);
    RecordFront(word, more, suffix, tail);
    assert suffix == [] ==> name == word + more;
    assert !StartsWith(Head(word, more, suffix), "PROC") && !StartsWith(Head(word, more, suffix), "FN");
    if suffix != [] || |word| == 3 {
      Breaks(name + tail, line, kws, BadRecName);
    } else if |name| <= 255 {
      Delivers(name + tail, line, kws, Keyword(name, Rec, true, NoType), tail);
    } else {
      Breaks(name + tail, line, kws, IdentifierTooLong);
    }
  }

  lemma RecordFront(word: string, more: string, suffix: string, tail: string)
    requires IsShaped(word, more, suffix, tail)
    ensures RecordToken(word, more + suffix + tail)
         == if suffix != [] then Bad(BadRecName)
            else if |word + more| <= 255 then Scanned(Keyword(word + more, Rec, true, NoType), tail, None)
            else Bad(IdentifierTooLong)
  {
    hide Take, Drop, Over, IsEnding;
    var after := suffix + tail;
    assert more + suffix + tail == more + after;
    AfterName(suffix, tail, more == []);
    RunIs(more, after, IsIdChar);
  }

  /** A name may begin with an underscore. */
  lemma UnderscoreRead(more: string, suffix: string, tail: string, t: IdType, line: nat, kws: Keywords)
    requires WordChars(more) && TypeBy(['_'] + more + suffix, suffix, t) && Over(false, suffix, tail)
    ensures var name := ['_'] + more + suffix;
            if Fits(name, t) then Reads(name + tail, kws, line, Identifier(name, t), tail)
            else Fails(name + tail, kws, line, IdentifierTooLong)
  {
    hide WordChars, TypeBy, Over, Identify, FrontToken, NextToken;
    var name := ['_'] + more + suffix;
    var text := name + tail;
    assert text[0] == '_' && text[1..] == more + suffix + tail;
    IdentifyLong(['_'], more, suffix, tail, t);
    FrontBranch(text, kws);
    if Fits(name, t) {
      Delivers(text, line, kws, Identifier(name, t), tail);
    } else {
      Breaks(text, line, kws, IdentifierTooLong);
    }
  }

  /** An at sign must be followed by a name that begins as that of a record, a function
      or a procedure. */
  lemma BadTypeRead(word: string, more: string, name: string, tail: string, line: nat, kws: Keywords)
    requires IsShaped(word, more, ['@'] + name, tail) && !("REC" <= name || "FN" <= name || "PROC" <= name)
    requires var head := Head(word, more, ['@'] + name);
             && ("PROC" <= word ==> more != [])
             && ("REC" <= word ==> head == "RECTANGLE")
             && (head in kws ==> "PROC" <= word || "FN" <= word)
    ensures Fails(word + more + ['@'] + name + tail, kws, line, BadTypeName)
  {
    hide IsShaped, Head, StartsWith, Identify, FrontToken, NextToken;
    var suffix := ['@'] + name;
    var text := word + more + suffix + tail;
    assert text == word + more + ['@'] + name + tail;
    NameFront(word, more, suffix, tail, kws);
    HeadReserved(word, more, suffix);
    BadType(word, more, name, tail);
    Breaks(text, line, kws, BadTypeName);
  }

  lemma BadType(word: string, more: string, name: string, tail: string)
    requires IsShaped(word, more, ['@'] + name, tail) && !("REC" <= name || "FN" <= name || "PROC" <= name)
    ensures var w := Parts(word, more, ['@'] + name, tail); Identify(w.text, w.rest, w.suffix) == NotNamed(BadTypeName)
  {
    hide Take, Drop;
    var suffix := ['@'] + name;
    assert suffix[1..] == name;
    RunIs(name, tail, IsIdChar);
    if more != [] {
      var after := suffix + tail;
      assert more + suffix + tail == more + after && after[0] == '@' && after[1..] == name + tail;
      RunIs(more, after, IsIdChar);
    }
  }

  // ----- Keywords with a mark -----

  lemma MarkedWord(word: string, mark: string, tail: string)
    requires Letters(word) && mark in {"#", "$#", "$", "%", "&", "@"}
    requires mark == "$" ==> tail == [] || tail[0] != '#'
    ensures var hash := mark == "#" || mark == "$#";
            WordOf(word + mark + tail) == WordParts(word + mark, tail, if hash then None else Some(mark[0]), hash)
  {
    hide Take, Drop;
    var after := mark + tail;
    assert word + mark + tail == word + after && after[0] == mark[0];
    if mark == "$#" {
      assert after[1..][0] == '#' && after[1..][1..] == tail && word + ['$'] + ['#'] == word + mark;
    } else {
      assert after[1..] == tail && mark == [mark[0]];
    }
    RunIs(word, after, IsLetter);
  }

  lemma MarkedFront(word: string, mark: string, tail: string, kws: Keywords)
    requires word != [] && Letters(word) && mark in {"#", "$#", "$", "%", "&", "@"}
    requires mark == "$" ==> tail == [] || tail[0] != '#'
    ensures var text, w := word + mark + tail, WordOf(word + mark + tail);
            text != [] && !IsWhite(text[0]) && FrontToken(text, kws) == WordToken(w, kws)
  {
    hide WordOf, WordToken, FrontToken;
    var text := word + mark + tail;
    assert text[0] == word[0] && Letter(word[0]);
    FrontBranch(text, kws);
  }

  /** A word with a hash behind it is a keyword or nothing. */
  lemma HashRead(word: string, mark: string, tail: string, line: nat, kws: Keywords)
    requires word != [] && Letters(word) && (mark == "#" || mark == "$#")
    requires word + mark in kws ==> kws[word + mark].kind != Rem
    ensures var key := word + mark;
            if key in kws then
              Reads(key + tail, kws, line, Keyword(key, kws[key].kind, kws[key].supported, NoType), tail)
            else Fails(key + tail, kws, line, if |key| > 255 then IdentifierTooLong else UnknownToken)
  {
    hide WordOf, FrontToken, NextToken, Letters;
    var key := word + mark;
    MarkedWord(word, mark, tail);
    MarkedFront(word, mark, tail, kws);
    if key in kws {
      Delivers(key + tail, line, kws, Keyword(key, kws[key].kind, kws[key].supported, NoType), tail);
    } else {
      Breaks(key + tail, line, kws, if |key| > 255 then IdentifierTooLong else UnknownToken);
    }
  }

  /** A keyword may end in one of the marks that are suffixes of identifiers. */
  lemma MarkedKeywordRead(word: string, mark: string, tail: string, line: nat, kws: Keywords)
    requires word != [] && Letters(word) && !Reserved(word) && mark in {"$", "%", "&", "@"}
    requires mark == "$" ==> tail == [] || tail[0] != '#'
    requires word + mark in kws && kws[word + mark].kind != Rem
    ensures var key := word + mark;
            Reads(key + tail, kws, line, Keyword(key, kws[key].kind, kws[key].supported, NoType), tail)
  {
    hide WordOf, FrontToken, NextToken, Letters, StartsWith;
    var key := word + mark;
    MarkedWord(word, mark, tail);
    MarkedFront(word, mark, tail, kws);
    assert mark == [mark[0]] && Head(word, [], mark) == key;
    HeadReserved(word, [], mark);
    Delivers(key + tail, line, kws, Keyword(key, kws[key].kind, kws[key].supported, NoType), tail);
  }
}
