/** The lexer as it runs: characters come through a buffer that is refilled in
    the middle of tokens, from a stream that delivers pieces of any size. While
    blocks are stacked the buffer grows instead, so that the lexer can go back. */
module Lexer {
  import opened LexText
  import opened Wrappers

  const BUFFER_INCREMENT: nat := 8192
  const MAX_BLOCKS: nat := 32

  /** A source of text that delivers it in chunks; how large they are is given
      beforehand, as far as the list goes. */
  class Stream {
    var data: string
    var chunks: seq<nat>

    constructor (data: string, chunks: seq<nat>)
      ensures this.data == data
    {
      this.data, this.chunks := data, chunks;
    }

    method Read(n: nat) returns (part: string)
      requires n > 0
      modifies this
      ensures old(data) == part + data && |part| <= n
      ensures part == [] <==> old(data) == []
    {
      var size := if chunks != [] && 0 < chunks[0] < n then chunks[0] else n;
      if size > |data| {
        size := |data|;
      }
      chunks := if chunks == [] then [] else chunks[1..];
      part, data := data[..size], data[size..];
    }
  }

  datatype BlockMark = BlockMark(index: nat, token: Token, line: nat)

  datatype BlockResult = Accepted | TooManyBlocks | Refused

  datatype NameRead = Name(text: string, idType: IdType) | BadName(error: Error)

  datatype Outcome = TokenRead(token: Token) | RemarkRead | ErrorRead(error: Error)

  class Lexer {
    const keywords: Keywords
    const stream: Stream
    var buffer: array<char>
    var index: nat
    var bufEnd: nat
    var line: nat
    var next: Option<Token>
    var blocks: seq<BlockMark>
    ghost var rest: string       // the text not used up yet
    ghost var held: seq<string>  // the text that was left when each block was pushed

    ghost predicate Valid()
      reads this, buffer, stream
    {
      && index <= bufEnd <= buffer.Length && buffer.Length > 0
      && rest == buffer[index..bufEnd] + stream.data
      && |blocks| == |held| <= MAX_BLOCKS
      && forall i :: 0 <= i < |blocks| ==>
           blocks[i].index <= bufEnd && held[i] == buffer[blocks[i].index..bufEnd] + stream.data
    }

    ghost function Now(): State
      reads this
    {
      State(rest, line, next)
    }

    constructor (stream: Stream, bufSize: nat, keywords: Keywords)
      requires bufSize > 0
      ensures Valid() && fresh(buffer) && this.stream == stream && this.keywords == keywords
      ensures Now() == State(stream.data, 1, None) && blocks == []
    {
      this.stream, this.keywords := stream, keywords;
      buffer := new char[bufSize];
      index, bufEnd, line, next, blocks := 0, 0, 1, None, [];
      rest, held := stream.data, [];
    }

    // ----- The buffer -----

    /** There is input unless the text is at its end. Nothing that is buffered is
        overwritten while there are blocks. */
    method EnsureInput()
      requires Valid()
      modifies this`buffer, this`index, this`bufEnd, buffer, stream
      ensures Valid() && (buffer == old(buffer) || fresh(buffer))
      ensures index < bufEnd <==> rest != []
      ensures index < bufEnd ==> buffer[index] == rest[0]
    {
      if index < bufEnd {
        return;
      }
      if |blocks| == 0 {
        Refill();
      } else {
        Grow();
      }
    }

    /** Reads into the buffer from its start. */
    method Refill()
      requires Valid() && index == bufEnd && blocks == []
      modifies this`index, this`bufEnd, buffer, stream
      ensures Valid()
      ensures index < bufEnd <==> rest != []
    {
      var part := stream.Read(buffer.Length);
      Store(buffer, 0, part);
      bufEnd := |part|;
      index := 0;
      assert buffer[index..bufEnd] == part;
    }

    /** Makes the buffer larger and reads into the new space. */
    method Grow()
      requires Valid() && index == bufEnd
      modifies this`buffer, this`bufEnd, stream
      ensures Valid() && fresh(buffer)
      ensures index < bufEnd <==> rest != []
    {
      ghost var was, end := buffer[..], bufEnd;
      var bigger, part := ReadBehind();
      BlocksKept(blocks, held, was, bigger[..], end, part, old(stream.data), stream.data);
      buffer := bigger;
      bufEnd := bufEnd + |part|;
      ghost var now := buffer[..];
      assert forall i :: 0 <= i < |blocks| ==> buffer[blocks[i].index..bufEnd] == now[blocks[i].index..bufEnd];
    }

    /** A larger buffer with the old contents and what comes next behind them. */
    method ReadBehind() returns (bigger: array<char>, part: string)
      requires Valid() && index == bufEnd
      modifies stream
      ensures fresh(bigger) && bigger.Length > 0 && bufEnd + |part| <= bigger.Length
      ensures bigger[..bufEnd] == old(buffer[..bufEnd]) && bigger[bufEnd..bufEnd + |part|] == part
      ensures old(stream.data) == part + stream.data && (part == [] <==> old(stream.data) == [])
    {
      bigger := new char[buffer.Length + BUFFER_INCREMENT];
      Store(bigger, 0, buffer[..]);
      ghost var was := bigger[..];
      part := stream.Read(BUFFER_INCREMENT);
      Store(bigger, index, part);
      assert was[..bufEnd] == buffer[..bufEnd];
      assert bigger[..] == was[..bufEnd] + part + was[bufEnd + |part|..];
    }

    /** Uses up a character, adding it to the text of a token. */
    method SetNext(text: string) returns (more: string)
      requires Valid() && index < bufEnd
      modifies this`index, this`rest
      ensures Valid() && old(rest) != [] && more == text + [old(rest)[0]] && rest == old(rest)[1..]
    {
      more := text + [buffer[index]];
      index := index + 1;
      rest := rest[1..];
    }

    /** Reads the longest run of characters that satisfy p. */
    method TakeRun(text: string, p: char -> bool) returns (more: string)
      requires Valid()
      modifies this`buffer, this`index, this`bufEnd, this`rest, buffer, stream
      ensures Valid() && (buffer == old(buffer) || fresh(buffer))
      ensures more == text + Take(old(rest), p) && rest == Drop(old(rest), p)
      ensures index < bufEnd <==> rest != []
      ensures index < bufEnd ==> buffer[index] == rest[0]
    {
      hide Take, Drop;
      more := text;
      while true
        invariant Valid() && (buffer == old(buffer) || fresh(buffer))
        invariant more + Take(rest, p) == text + Take(old(rest), p) && Drop(rest, p) == Drop(old(rest), p)
        decreases |rest|
      {
        EnsureInput();
        TakeStep(rest, p);
        if index == bufEnd {
          break;
        }
        if !p(buffer[index]) {
          break;
        }
        more := SetNext(more);
      }
    }

    // ----- Scanners -----

    /** A scanner has done what the text asks for. */
    ghost predicate Did(r: Outcome, scan: Scan, lineBefore: nat)
      reads this
    {
      match scan
      case Scanned(token, s, n) => r == TokenRead(token) && Now() == State(s, lineBefore, n)
      case Remark(s) => r == RemarkRead && Now() == SkipLine(s, lineBefore)
      case Bad(error) => r == ErrorRead(error)
    }

    method CheckInteger(text: string, base: nat) returns (r: Outcome)
      requires base in {2, 10, 16} && next == None
      ensures Did(r, IntegerToken(text, base, rest), line)
    {
      if |text| > MAX_TOKEN_SIZE {
        return ErrorRead(NumberTooLong);
      }
      var num := NumberOf(text, base);
      if (base == 10 && num > 2147483647) || num > 0xffffffff {
        return ErrorRead(NumberTooLong);
      }
      r := TokenRead(Integer(Signed(num), text));
    }

    /** The digits of a number after those in text, and its fraction if there is one. */
    method ExtractDecimal(text: string) returns (more: string, fraction: bool)
      requires Valid()
      modifies this`buffer, this`index, this`bufEnd, this`rest, buffer, stream
      ensures Valid() && (buffer == old(buffer) || fresh(buffer))
      ensures var whole, r := text + Take(old(rest), IsDigit), Drop(old(rest), IsDigit);
              && fraction == (r != [] && r[0] == '.')
              && more == (if fraction then whole + "." + Take(r[1..], IsDigit) else whole)
              && rest == if fraction then Drop(r[1..], IsDigit) else r
    {
      hide Take, Drop;
      more := TakeRun(text, IsDigit);
      fraction := false;
      if index < bufEnd && buffer[index] == '.' {
        fraction := true;
        more := SetNext(more);
        more := TakeRun(more, IsDigit);
      }
    }

    method ProcessDecimal() returns (r: Outcome)
      requires Valid() && next == None && index < bufEnd && rest != [] && IsDigit(rest[0])
      modifies this`buffer, this`index, this`bufEnd, this`rest, buffer, stream
      ensures Valid() && (buffer == old(buffer) || fresh(buffer))
      ensures Did(r, Decimal(old(rest)), line)
    {
      hide Take, Drop, IntegerToken, NumberOf, Valid;
      TakeStep(rest, IsDigit);
      var text := SetNext("");
      assert text == [old(rest)[0]];
      var fraction;
      text, fraction := ExtractDecimal(text);
      if fraction {
        r := if |text| + 1 > MAX_TOKEN_SIZE then ErrorRead(NumberTooLong) else TokenRead(RealNumber(text));
      } else {
        r := CheckInteger(text, 10);
      }
    }

    /** Keeps a token for the next call. */
    method KeepNext(token: Token)
      requires Valid()
      modifies this`next
      ensures Valid() && next == Some(token)
    {
      next := Some(token);
    }

    /** The minus sign has been read and a digit comes next. */
    method ProcessNegativeDecimal(minus: string) returns (r: Outcome)
      requires Valid() && next == None && index < bufEnd && rest != [] && IsDigit(rest[0]) && minus == "-"
      modifies this`buffer, this`index, this`bufEnd, this`rest, this`next, buffer, stream
      ensures Valid() && (buffer == old(buffer) || fresh(buffer))
      ensures Did(r, NegativeDecimal(old(rest)), line)
    {
      hide Take, Drop, IntegerToken, NumberOf, Did, SmallestDigits, NegativeDecimal, Valid;
      TakeStep(rest, IsDigit);
      NegativeCases(rest);
      var text := SetNext("");
      assert text == [old(rest)[0]];
      var fraction;
      text, fraction := ExtractDecimal(text);
      ghost var scan := NegativeDecimal(old(rest));
      if fraction {
        if |text| + 1 > MAX_TOKEN_SIZE {
          r := ErrorRead(NumberTooLong);
        } else {
          KeepNext(RealNumber(text));
          r := TokenRead(Operator(minus));
        }
        Done(r, scan);
        return;
      }
      if text == SmallestDigits() {
        r := TokenRead(Integer(-2147483648, text));
        Done(r, scan);
        return;
      }
      r := CheckInteger(text, 10);
      Undone(r, IntegerToken(text, 10, rest));
      if r.TokenRead? {
        KeepNext(r.token);
        r := TokenRead(Operator(minus));
      }
      Done(r, scan);
    }

    /** A number in base 16 or 2 behind its sign. */
    method ProcessBits(base: nat) returns (r: Outcome)
      requires Valid() && next == None && index < bufEnd && base in {2, 16}
      modifies this`buffer, this`index, this`bufEnd, this`rest, buffer, stream
      ensures Valid() && (buffer == old(buffer) || fresh(buffer))
      ensures var p := if base == 16 then IsHex else IsBinary;
              old(rest) != [] && Did(r, IntegerToken(Take(old(rest)[1..], p), base, Drop(old(rest)[1..], p)), line)
    {
      hide Take, Drop, IntegerToken, NumberOf;
      var sign := SetNext("");
      var p := if base == 16 then IsHex else IsBinary;
      ghost var s := rest;
      var text := TakeRun("", p);
      assert text == Take(s, p);
      r := CheckInteger(text, base);
    }

    /** A dot has been read and a digit comes next. */
    method ProcessFraction(dot: string) returns (r: Outcome)
      requires Valid() && next == None && index < bufEnd && rest != [] && IsDigit(rest[0])
      modifies this`buffer, this`index, this`bufEnd, this`rest, buffer, stream
      ensures Valid() && (buffer == old(buffer) || fresh(buffer))
      ensures Did(r, RealToken(dot + Take(old(rest), IsDigit), 0, Drop(old(rest), IsDigit)), line)
    {
      hide Take, Drop;
      TakeStep(rest, IsDigit);
      var text := SetNext(dot);
      text := TakeRun(text, IsDigit);
      assert text == dot + Take(old(rest), IsDigit);
      r := if |text| > MAX_TOKEN_SIZE then ErrorRead(NumberTooLong) else TokenRead(RealNumber(text));
    }

    method ProcessComplexOperator() returns (r: Outcome)
      requires Valid() && next == None && index < bufEnd && rest != []
      modifies this`buffer, this`index, this`bufEnd, this`rest, this`next, buffer, stream
      ensures Valid() && (buffer == old(buffer) || fresh(buffer))
      ensures Did(r, ComplexOperator(old(rest)), line)
    {
      hide Take, Drop, NegativeDecimal, ComplexOperator, Did, Valid;
      ghost var s := rest;
      Current();
      var ch := buffer[index];
      var text := SetNext("");
      assert text == [ch];
      EnsureInput();
      OperatorSteps(s);
      if index == bufEnd {
        r := TokenRead(Operator(text));
        Done(r, ComplexOperator(s));
        return;
      }
      Current();
      if ch == '-' && IsDigit(buffer[index]) {
        r := ProcessNegativeDecimal(text);
      } else if ch == '.' && IsDigit(buffer[index]) {
        r := ProcessFraction(text);
      } else {
        r := ProcessOperator(ch, s);
      }
    }

    /** The first character of an operator has been read, and what follows is no number. */
    method ProcessOperator(ch: char, ghost s: string) returns (r: Outcome)
      requires Valid() && next == None && index < bufEnd && rest != [] && s == [ch] + rest
      requires !(ch in {'-', '.'} && IsDigit(rest[0]))
      modifies this`buffer, this`index, this`bufEnd, this`rest, buffer, stream
      ensures Valid() && (buffer == old(buffer) || fresh(buffer))
      ensures Did(r, ComplexOperator(s), line)
    {
      hide Take, Drop, NegativeDecimal, ComplexOperator, Did, Valid;
      Current();
      OperatorSteps(s);
      var text, ch1 := [ch], buffer[index];
      if ch1 == '=' || ch1 == '-' || (ch1 == '<' && ch == '<') || (ch1 == '>' && ch == '<') {
        text := SetNext(text);
      } else if ch1 == '>' && ch == '>' {
        text := SetNext(text);
        EnsureInput();
        if index < bufEnd && buffer[index] == '>' {
          text := SetNext(text);
        }
      }
      r := TokenRead(Operator(text));
      Done(r, ComplexOperator(s));
    }

    /** The character at the index is the next one of the text. */
    lemma Current()
      requires Valid() && index < bufEnd
      ensures index < buffer.Length && rest != [] && buffer[index] == rest[0]
    {}

    lemma Undone(r: Outcome, scan: Scan)
      requires Did(r, scan, line) && !scan.Remark?
      ensures scan.Scanned? ==> r == TokenRead(scan.token) && Now() == State(scan.rest, line, scan.next)
      ensures scan.Bad? ==> r == ErrorRead(scan.error)
    {}

    lemma Done(r: Outcome, scan: Scan)
      requires match scan
               case Scanned(token, s, n) => r == TokenRead(token) && Now() == State(s, line, n)
               case Remark(s) => false
               case Bad(error) => r == ErrorRead(error)
      ensures Did(r, scan, line)
    {}

    method ProcessString() returns (r: Outcome)
      requires Valid() && next == None && index < bufEnd && rest != []
      modifies this`buffer, this`index, this`bufEnd, this`rest, buffer, stream
      ensures Valid() && (buffer == old(buffer) || fresh(buffer))
      ensures Did(r, StringBody(old(rest)[1..], ""), line)
    {
      hide StringBody, Valid;
      var quote := SetNext("");
      var text := "";
      while true
        invariant Valid() && (buffer == old(buffer) || fresh(buffer))
        invariant StringBody(rest, text) == StringBody(old(rest)[1..], "")
        decreases |rest|
      {
        EnsureInput();
        StringStep(rest, text);
        if index == bufEnd {
          return ErrorRead(UnterminatedString);
        }
        var ch := buffer[index];
        var more := SetNext(text);
        if ch == '"' {
          EnsureInput();
          if index == bufEnd || buffer[index] != '"' {
            assert more[..|more| - 1] == text;
            return TokenRead(StringLiteral(more[..|more| - 1]));
          }
          var second := SetNext("");
        }
        text := more;
      }
    }

    // ----- Identifiers and keywords -----

    ghost predicate DidName(r: NameRead, named: Named)
      reads this
    {
      match named
      case Named(text, idType, s) => r == Name(text, idType) && rest == s
      case NotNamed(error) => r == BadName(error)
    }

    method CompleteCustomType(text: string) returns (r: NameRead)
      requires Valid()
      modifies this`buffer, this`index, this`bufEnd, this`rest, buffer, stream
      ensures Valid() && (buffer == old(buffer) || fresh(buffer))
      ensures DidName(r, CustomType(text, old(rest)))
    {
      hide Take, Drop;
      var name := TakeRun("", IsIdChar);
      assert name == Take(old(rest), IsIdChar);
      var whole := text + name;
      if |name| < 2 {
        return BadName(BadTypeName);
      }
      if StartsWith(name, "REC") {
        return Name(whole, RecordId(whole));
      }
      if !StartsWith(name, "FN") && !StartsWith(name, "PROC") {
        return BadName(BadTypeName);
      }
      r := Name(whole, FunctionId);
    }

    method SuffixType(text: string, ch: char) returns (r: NameRead)
      requires Valid() && IsSuffix(ch)
      modifies this`buffer, this`index, this`bufEnd, this`rest, buffer, stream
      ensures Valid() && (buffer == old(buffer) || fresh(buffer))
      ensures DidName(r, Suffixed(text, ch, old(rest)))
    {
      hide CustomType;
      if ch == '$' {
        r := Name(text, StringId);
      } else if ch == '%' {
        r := Name(text, IntegerId);
      } else if ch == '&' {
        r := Name(text, ByteId);
      } else {
        r := CompleteCustomType(text);
      }
    }

    /** Completes an identifier whose suffix may have been read already. */
    method ValidateIdentifier(text: string, ch: Option<char>) returns (r: NameRead)
      requires Valid() && (ch.Some? ==> IsSuffix(ch.value))
      modifies this`buffer, this`index, this`bufEnd, this`rest, buffer, stream
      ensures Valid() && (buffer == old(buffer) || fresh(buffer))
      ensures DidName(r, Identify(text, old(rest), ch))
    {
      hide Take, Drop, Suffixed;
      if ch == None {
        var more := TakeRun(text, IsIdChar);
        if index == bufEnd {
          r := Name(more, RealId);
        } else if IsSuffix(buffer[index]) {
          var suffix := buffer[index];
          more := SetNext(more);
          r := SuffixType(more, suffix);
        } else {
          r := Name(more, RealId);
        }
      } else {
        r := SuffixType(text, ch.value);
      }
      if r.Name? {
        var closing := if r.idType.RecordId? || r.idType.FunctionId? then 1 else 0;
        if |r.text| + closing > MAX_TOKEN_SIZE {
          r := BadName(IdentifierTooLong);
        }
      }
    }

    method ProcessIdentifier(text: string, ch: Option<char>) returns (r: Outcome)
      requires Valid() && next == None && (ch.Some? ==> IsSuffix(ch.value))
      modifies this`buffer, this`index, this`bufEnd, this`rest, buffer, stream
      ensures Valid() && (buffer == old(buffer) || fresh(buffer))
      ensures Did(r, IdentifierToken(Identify(text, old(rest), ch)), line)
    {
      hide Identify;
      var name := ValidateIdentifier(text, ch);
      r := if name.BadName? then ErrorRead(name.error) else TokenRead(Identifier(name.text, name.idType));
    }

    method ProcessCall(text: string, proc: bool, ch: Option<char>) returns (r: Outcome)
      requires Valid() && next == None && (ch.Some? ==> IsSuffix(ch.value))
      modifies this`buffer, this`index, this`bufEnd, this`rest, buffer, stream
      ensures Valid() && (buffer == old(buffer) || fresh(buffer))
      ensures Did(r, CallToken(Identify(text, old(rest), ch), proc), line)
    {
      hide Identify;
      var name := ValidateIdentifier(text, ch);
      if name.BadName? {
        return ErrorRead(name.error);
      }
      if proc {
        if name.idType != RealId {
          return ErrorRead(BadProcName);
        }
        return TokenRead(Keyword(name.text, Proc, true, NoType));
      }
      r := TokenRead(Keyword(name.text, Fn, true, name.idType));
    }

    method ProcessRec(text: string) returns (r: Outcome)
      requires Valid() && next == None
      modifies this`buffer, this`index, this`bufEnd, this`rest, buffer, stream
      ensures Valid() && (buffer == old(buffer) || fresh(buffer))
      ensures Did(r, RecordToken(text, old(rest)), line)
    {
      hide Take, Drop;
      var whole := TakeRun(text, IsIdChar);
      if index < bufEnd && IsSuffix(buffer[index]) {
        return ErrorRead(BadRecName);
      }
      if |whole| > MAX_TOKEN_SIZE {
        return ErrorRead(IdentifierTooLong);
      }
      r := TokenRead(Keyword(whole, Rec, true, NoType));
    }

    /** Reads letters and the suffix behind them. */
    method ReadWord() returns (text: string, suffix: Option<char>, hash: bool)
      requires Valid() && index < bufEnd && rest != [] && IsLetter(rest[0])
      modifies this`buffer, this`index, this`bufEnd, this`rest, buffer, stream
      ensures Valid() && (buffer == old(buffer) || fresh(buffer))
      ensures WordOf(old(rest)) == WordParts(text, rest, suffix, hash)
    {
      hide Take, Drop;
      TakeStep(rest, IsLetter);
      text := SetNext("");
      text := TakeRun(text, IsLetter);
      assert text == Take(old(rest), IsLetter) && rest == Drop(old(rest), IsLetter);
      suffix, hash := None, false;
      if index < bufEnd {
        var ch := buffer[index];
        if ch == '$' {
          text := SetNext(text);
          EnsureInput();
          if index < bufEnd && buffer[index] == '#' {
            hash := true;
            text := SetNext(text);
          } else {
            suffix := Some(ch);
          }
        } else if ch == '#' {
          hash := true;
          text := SetNext(text);
        } else if IsSuffix(ch) {
          text := SetNext(text);
          suffix := Some(ch);
        }
      }
    }

    method ProcessSkipLine()
      requires Valid() && next == None
      modifies this`buffer, this`index, this`bufEnd, this`rest, this`line, buffer, stream
      ensures Valid() && (buffer == old(buffer) || fresh(buffer))
      ensures Now() == SkipLine(old(rest), old(line))
    {
      hide Take, Drop;
      var skipped := TakeRun("", NotNewline);
      if index == bufEnd {
        return;
      }
      var newline := SetNext("");
      line := line + 1;
    }

    method ProcessKeyword() returns (r: Outcome)
      requires Valid() && next == None && index < bufEnd && rest != [] && IsLetter(rest[0])
      modifies this`buffer, this`index, this`bufEnd, this`rest, this`line, buffer, stream
      ensures Valid() && (buffer == old(buffer) || fresh(buffer))
      ensures Did(r, Word(old(rest), keywords), old(line))
    {
      hide WordOf, CallToken, Identify, RecordToken, SkipLine, IdentifierToken;
      var text, suffix, hash := ReadWord();
      ghost var w := WordOf(old(rest));
      if !hash {
        var possibleProc := StartsWith(text, "PROC");
        var possibleFn := StartsWith(text, "FN");
        if possibleProc || possibleFn {
          if possibleProc && suffix.Some? {
            return ErrorRead(BadProcName);
          }
          r := ProcessCall(text, possibleProc, suffix);
          return;
        }
        if StartsWith(text, "REC") && text != "RECTANGLE" {
          if suffix.Some? || |text| == 3 {
            return ErrorRead(BadRecName);
          }
          r := ProcessRec(text);
          return;
        }
      }
      if text in keywords {
        if keywords[text].kind == Rem {
          ProcessSkipLine();
          return RemarkRead;
        }
        return TokenRead(Keyword(text, keywords[text].kind, keywords[text].supported, NoType));
      }
      if !hash {
        r := ProcessIdentifier(text, suffix);
        return;
      }
      r := ErrorRead(if |text| > MAX_TOKEN_SIZE then IdentifierTooLong else UnknownToken);
    }

    /** Reads on to the end of something that is no token. */
    method ProcessUnknown() returns (r: Outcome)
      requires Valid() && index < bufEnd
      modifies this`buffer, this`index, this`bufEnd, this`rest, buffer, stream
      ensures Valid() && (buffer == old(buffer) || fresh(buffer))
      ensures r == ErrorRead(UnknownToken)
    {
      var text := SetNext("");
      text := TakeRun(text, c => !IsWhite(c) && !IsSimpleOperator(c));
      r := ErrorRead(UnknownToken);
    }

    method ProcessToken() returns (r: Outcome)
      requires Valid() && next == None && index < bufEnd && rest != [] && buffer[index] == rest[0]
      modifies this`buffer, this`index, this`bufEnd, this`rest, this`line, this`next, buffer, stream
      ensures Valid() && (buffer == old(buffer) || fresh(buffer))
      ensures Did(r, FrontToken(old(rest), keywords), old(line))
    {
      hide ComplexOperator, StringBody, Decimal, IntegerToken, Word, IdentifierToken, Take, Drop, Did;
      var ch := buffer[index];
      FrontIs(rest, keywords);
      if IsSimpleOperator(ch) {
        var text := SetNext("");
        assert text == [ch];
        r := TokenRead(Operator(text));
        Done(r, FrontToken(old(rest), keywords));
        return;
      }
      if IsComplexStart(ch) {
        r := ProcessComplexOperator();
        return;
      }
      if ch == '"' {
        r := ProcessString();
        return;
      }
      if IsDigit(ch) {
        r := ProcessDecimal();
        return;
      }
      if ch == '&' {
        r := ProcessBits(16);
        return;
      }
      if ch == '%' {
        r := ProcessBits(2);
        return;
      }
      if IsLetter(ch) {
        r := ProcessKeyword();
        return;
      }
      if ch == '_' {
        var text := SetNext("");
        assert text == [ch];
        r := ProcessIdentifier(text, None);
        return;
      }
      r := ProcessUnknown();
      Done(r, FrontToken(old(rest), keywords));
    }

    method ProcessSkipWhite()
      requires Valid() && next == None
      modifies this`buffer, this`index, this`bufEnd, this`rest, this`line, buffer, stream
      ensures Valid() && (buffer == old(buffer) || fresh(buffer))
      ensures Now() == SkipWhite(old(rest), old(line))
      ensures index < bufEnd <==> rest != []
      ensures index < bufEnd ==> buffer[index] == rest[0]
    {
      hide SkipWhite;
      while true
        invariant Valid() && (buffer == old(buffer) || fresh(buffer))
        invariant SkipWhite(rest, line) == SkipWhite(old(rest), old(line))
        decreases |rest|
      {
        EnsureInput();
        SkipWhiteStep(rest, line);
        if index == bufEnd || !IsWhite(buffer[index]) {
          break;
        }
        if buffer[index] == '\n' {
          line := line + 1;
        }
        var white := SetNext("");
      }
    }

    /** The lexer has returned what the text asks for. */
    ghost predicate Returned(r: Outcome, lexed: Lexed)
      reads this
    {
      match lexed
      case Got(token, state) => r == TokenRead(token) && Now() == state
      case Failed(error) => r == ErrorRead(error)
    }

    /** The next token. */
    method Get() returns (r: Outcome)
      requires Valid()
      modifies this`buffer, this`index, this`bufEnd, this`rest, this`line, this`next, buffer, stream
      ensures Valid() && (buffer == old(buffer) || fresh(buffer))
      ensures Returned(r, NextToken(old(Now()), keywords))
    {
      hide FrontToken, SkipWhite, SkipLine, NextToken;
      NextStep(Now(), keywords, SkipWhite(rest, line));
      if next.Some? {
        r := TokenRead(next.value);
        next := None;
        return;
      }
      while true
        invariant Valid() && (buffer == old(buffer) || fresh(buffer)) && next == None
        invariant NextToken(Now(), keywords) == NextToken(old(Now()), keywords)
        decreases |rest|
      {
        NextStep(Now(), keywords, SkipWhite(rest, line));
        ProcessSkipWhite();
        if index == bufEnd {
          return TokenRead(Eof);
        }
        r := ProcessToken();
        if r != RemarkRead {
          return;
        }
      }
    }

    /** The next n tokens, or as many as there are before an error. */
    method GetMany(n: nat) returns (readings: seq<Reading>)
      requires Valid()
      modifies this`buffer, this`index, this`bufEnd, this`rest, this`line, this`next, buffer, stream
      ensures Valid() && (buffer == old(buffer) || fresh(buffer))
      ensures readings == Readings(old(Now()), keywords, n)
    {
      hide NextToken;
      readings := [];
      var k := n;
      while k > 0
        invariant 0 <= k <= n && Valid() && (buffer == old(buffer) || fresh(buffer))
        invariant readings + Readings(Now(), keywords, k) == Readings(old(Now()), keywords, n)
      {
        ghost var was := Now();
        ghost var before := readings;
        var r := Get();
        if r.ErrorRead? {
          readings := readings + [Stopped(r.error)];
          return;
        }
        readings := readings + [Read(r.token, line)];
        assert readings + Readings(Now(), keywords, k - 1) == before + Readings(was, keywords, k);
        k := k - 1;
      }
    }

    // ----- Blocks -----

    /** Remembers where the lexer is, after the token t. */
    method PushBlock(t: Token) returns (r: BlockResult)
      requires Valid()
      modifies this`blocks, this`held
      ensures Valid()
      ensures r == if old(|blocks|) == 32 then TooManyBlocks else if next.Some? then Refused else Accepted
      ensures r == Accepted ==> held == old(held) + [rest] && blocks == old(blocks) + [BlockMark(index, t, line)]
      ensures r != Accepted ==> held == old(held) && blocks == old(blocks)
    {
      if |blocks| == MAX_BLOCKS {
        return TooManyBlocks;
      }
      if next.Some? {
        return Refused;
      }
      blocks := blocks + [BlockMark(index, t, line)];
      held := held + [rest];
      r := Accepted;
    }

    /** Goes back to the start of the innermost block. */
    method SetBlockStart() returns (r: BlockResult)
      requires Valid()
      modifies this`index, this`line, this`next, this`rest
      ensures Valid()
      ensures r == if blocks == [] then Refused else Accepted
      ensures r == Refused ==> Now() == old(Now())
      ensures r == Accepted ==>
                var b := blocks[|blocks| - 1]; Now() == State(held[|held| - 1], b.line, Some(b.token))
    {
      if |blocks| == 0 {
        return Refused;
      }
      var b := blocks[|blocks| - 1];
      index := b.index;
      line := b.line;
      next := Some(b.token);
      rest := held[|held| - 1];
      r := Accepted;
    }

    /** Forgets the innermost block. */
    method PopBlock() returns (r: BlockResult)
      requires Valid()
      modifies this`blocks, this`held
      ensures Valid()
      ensures r == if old(blocks) == [] then Refused else Accepted
      ensures r == Refused ==> blocks == old(blocks) && held == old(held)
      ensures r == Accepted ==>
                blocks == old(blocks)[..|old(blocks)| - 1] && held == old(held)[..|old(held)| - 1]
    {
      if |blocks| == 0 {
        return Refused;
      }
      blocks := blocks[..|blocks| - 1];
      held := held[..|held| - 1];
      r := Accepted;
    }
  }

  /** The tokens and lines of a text are a function of the text: the size of the
      buffer and the chunks of the stream do not matter. */
  method LexAll(text: string, bufSize: nat, chunks: seq<nat>, keywords: Keywords, n: nat) returns (readings: seq<Reading>)
    requires bufSize > 0
    ensures readings == Readings(State(text, 1, None), keywords, n)
  {
    var stream := new Stream(text, chunks);
    var l := new Lexer(stream, bufSize, keywords);
    readings := l.GetMany(n);
  }

  /** Going back to the start of a block gives the token it was pushed with and
      then the same tokens and lines as the first time, whatever was buffered. */
  method ReadTwice(l: Lexer, t: Token, n: nat) returns (first: seq<Reading>, again: seq<Reading>)
    requires l.Valid() && l.next == None && |l.blocks| < MAX_BLOCKS
    modifies l, l.buffer, l.stream
    ensures l.Valid() && l.blocks == old(l.blocks) && l.held == old(l.held)
    ensures first == Readings(old(l.Now()), l.keywords, n)
    ensures again == [Read(t, old(l.line))] + first
  {
    hide Lexer.Valid, NextToken, Readings;
    var r := l.PushBlock(t);
    first := l.GetMany(n);
    r := l.SetBlockStart();
    ghost var back := l.Now();
    again := l.GetMany(n + 1);
    ReadAhead(back, t, l.keywords, n);
    r := l.PopBlock();
  }

  /** A token read ahead comes first. */
  lemma ReadAhead(s: State, t: Token, kws: Keywords, n: nat)
    requires s.next == Some(t)
    ensures Readings(s, kws, n + 1) == [Read(t, s.line)] + Readings(s.(next := None), kws, n)
  {
    assert NextToken(s, kws) == Got(t, s.(next := None));
  }

  /** One step towards the next token. */
  lemma NextStep(s: State, kws: Keywords, w: State)
    requires w == SkipWhite(s.rest, s.line)
    ensures s.next.Some? ==> NextToken(s, kws) == Got(s.next.value, s.(next := None))
    ensures s.next == None && w.rest == [] ==> NextToken(s, kws) == Got(Eof, w)
    ensures s.next == None && w.rest != [] ==>
              var f := FrontToken(w.rest, kws);
              && (f.Scanned? ==> NextToken(s, kws) == Got(f.token, State(f.rest, w.line, f.next)))
              && (f.Bad? ==> NextToken(s, kws) == Failed(f.error))
              && (f.Remark? ==>
                    NextToken(s, kws) == NextToken(SkipLine(f.rest, w.line), kws)
                    && |SkipLine(f.rest, w.line).rest| < |s.rest|)
  {
    hide FrontToken, SkipWhite, SkipLine;
  }

  lemma FrontIs(s: string, kws: Keywords)
    requires s != []
    ensures s[..1] == [s[0]]
  {}

  /** A negative number by what its digits are and what follows them. */
  lemma NegativeCases(s: string)
    ensures var whole, r := Take(s, IsDigit), Drop(s, IsDigit);
            if r != [] && r[0] == '.' then
              var text := whole + "." + Take(r[1..], IsDigit);
              NegativeDecimal(s) ==
              if |text| + 1 > MAX_TOKEN_SIZE then Bad(NumberTooLong)
              else Scanned(Operator("-"), Drop(r[1..], IsDigit), Some(RealNumber(text)))
            else if whole == SmallestDigits() then NegativeDecimal(s) == Scanned(Integer(-2147483648, whole), r, None)
            else
              var t := IntegerToken(whole, 10, r);
              && (t.Scanned? ==> NegativeDecimal(s) == Scanned(Operator("-"), r, Some(t.token)))
              && (t.Bad? ==> NegativeDecimal(s) == Bad(t.error))
  {
    hide Take, Drop, NumberOf, SmallestDigits;
  }

  /** The operators by what follows their first character. */
  lemma OperatorSteps(s: string)
    requires s != []
    ensures s[1..] == [] ==> ComplexOperator(s) == Scanned(Operator([s[0]]), s[1..], None)
    ensures s[1..] != [] ==>
              var c, c1, r := s[0], s[1..][0], s[1..][1..];
              ComplexOperator(s) ==
              if c == '-' && IsDigit(c1) then NegativeDecimal(s[1..])
              else if c == '.' && IsDigit(c1) then RealToken([c] + Take(s[1..], IsDigit), 0, Drop(s[1..], IsDigit))
              else if c1 == '=' || c1 == '-' || (c1 == '<' && c == '<') || (c1 == '>' && c == '<') then
                Scanned(Operator([c] + [c1]), r, None)
              else if c1 == '>' && c == '>' then
                if r != [] && r[0] == '>' then Scanned(Operator([c] + [c1] + [r[0]]), r[1..], None)
                else Scanned(Operator([c] + [c1]), r, None)
              else Scanned(Operator([c]), s[1..], None)
  {
    assert s[..1] == [s[0]];
    if s[1..] != [] {
      assert s[1..][0] == s[1] && s[1..][1..] == s[2..] && s[..2] == [s[0]] + [s[1]];
      if s[2..] != [] {
        assert s[2..][0] == s[2] && s[2..][1..] == s[3..] && s[..3] == [s[0]] + [s[1]] + [s[2]];
      }
    }
  }

  /** One step of a string literal. */
  lemma StringStep(s: string, text: string)
    ensures s == [] ==> StringBody(s, text) == Bad(UnterminatedString)
    ensures s != [] && s[0] != '"' ==> StringBody(s, text) == StringBody(s[1..], text + [s[0]])
    ensures s != [] && s[0] == '"' && (s[1..] == [] || s[1..][0] != '"') ==>
              StringBody(s, text) == Scanned(StringLiteral(text), s[1..], None)
    ensures s != [] && s[0] == '"' && s[1..] != [] && s[1..][0] == '"' ==>
              StringBody(s, text) == StringBody(s[1..][1..], text + [s[0]])
  {
    assert |s| > 1 ==> s[1..][1..] == s[2..];
  }

  lemma Spliced(a: string, b: string, from: nat, end: nat, part: string)
    requires from <= end <= |b| && end + |part| <= |a|
    requires a[..end] == b[..end] && a[end..end + |part|] == part
    ensures a[from..end + |part|] == b[from..end] + part
  {
    assert a[from..end] == a[..end][from..] && b[from..end] == b[..end][from..];
    assert a[from..end + |part|] == a[from..end] + a[end..end + |part|];
  }

  lemma BlocksKept(blocks: seq<BlockMark>, held: seq<string>, was: string, now: string, end: nat, part: string,
                   before: string, after: string)
    requires end <= |was| && end + |part| <= |now| && now[..end] == was[..end] && now[end..end + |part|] == part
    requires before == part + after && |blocks| == |held|
    requires forall i :: 0 <= i < |blocks| ==> blocks[i].index <= end && held[i] == was[blocks[i].index..end] + before
    ensures forall i :: 0 <= i < |blocks| ==> held[i] == now[blocks[i].index..end + |part|] + after
  {
    forall i | 0 <= i < |blocks|
      ensures held[i] == now[blocks[i].index..end + |part|] + after
    {
      Spliced(now, was, blocks[i].index, end, part);
    }
  }

  /** Copies text into an array. */
  method Store(a: array<char>, at: nat, text: string)
    requires at + |text| <= a.Length
    modifies a
    ensures a[..] == old(a[..at]) + text + old(a[at + |text|..])
  {
    var k := 0;
    while k < |text|
      invariant 0 <= k <= |text|
      invariant forall j :: 0 <= j < a.Length ==>
                  a[j] == if at <= j < at + k then text[j - at] else old(a[j])
    {
      a[at + k] := text[k];
      k := k + 1;
    }
  }
}
