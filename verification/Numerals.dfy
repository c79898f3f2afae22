/** The routines that print 32-bit integers in decimal and hexadecimal and that
    read them back. Printing fills a buffer; reading accumulates digits from
    right to left in a wrapping register and looks at the sign bit to notice
    overflow. */
module Numerals {
  import opened Int32

  type byte = x: int | 0 <= x < 256

  const ZERO: byte := 48   // '0'
  const NINE: byte := 57   // '9'
  const PLUS: byte := 43
  const MINUS: byte := 45
  const UPPER_A: byte := 65
  const LOWER_A: byte := 97
  const LOWER_F: byte := 102

  // ----- What the printed text should be -----

  /** Positional notation, most significant digit first and no leading zeros. */
  function Notation(n: nat, radix: int): (s: seq<byte>)
    requires 2 <= radix <= 16
    ensures |s| > 0
    decreases n
  {
    if n < radix then [DigitChar(n)]
    else
      Shrinks(n, radix);
      Notation(n / radix, radix) + [DigitChar(n % radix)]
  }

  function DigitChar(d: nat): byte
    requires d < 16
  {
    if d < 10 then ZERO + d else UPPER_A + (d - 10)
  }

  lemma Shrinks(n: nat, radix: int)
    requires 2 <= radix <= n
    ensures 0 < n / radix < n
    ensures n == (n / radix) * radix + n % radix && 0 <= n % radix < radix
  {
    var q := n / radix;
    assert n == radix * q + n % radix;
    if q <= 0 { MulMonotone(q, 0, radix); }
    if q >= n { MulMonotone(n, q, radix); MulMonotone(2, radix, n); }
  }

  function Decimal(n: int32): (s: seq<byte>)
  {
    if n < 0 then [MINUS] + Notation(Abs(n), 10) else Notation(Abs(n), 10)
  }

  function Hexadecimal(n: int32): (s: seq<byte>) { Notation(Unsigned(n), 16) }

  /** Numbers below radix^k have at most k digits. */
  lemma {:induction false} NotationLength(n: nat, radix: int, k: nat)
    requires 2 <= radix <= 16 && k > 0 && n < Power(radix, k)
    ensures |Notation(n, radix)| <= k
    decreases k
  {
    assert Power(radix, 1) == radix * Power(radix, 0);
    if n >= radix && k > 1 {
      Shrinks(n, radix);
      var q := n / radix;
      if q >= Power(radix, k - 1) { MulMonotone(Power(radix, k - 1), q, radix); }
      NotationLength(q, radix, k - 1);
    }
  }

  lemma {:induction false} NoLeadingZero(n: nat, radix: int)
    requires 2 <= radix <= 16
    ensures Notation(n, radix)[0] == ZERO <==> n == 0
    decreases n
  {
    if n >= radix {
      Shrinks(n, radix);
      NoLeadingZero(n / radix, radix);
    }
  }

  lemma DecimalShape(n: int32)
    ensures 1 <= |Decimal(n)| <= 11
    ensures Decimal(n)[0] == MINUS <==> n < 0
    ensures var first := if n < 0 then 1 else 0;
            first < |Decimal(n)| && (Decimal(n)[first] == ZERO <==> n == 0)
  {
    var m := Abs(n);
    PowersOfTen();
    NotationLength(m, 10, 10);
    NoLeadingZero(m, 10);
    FirstChar(m, 10);
  }

  lemma PowersOfTen()
    ensures Power(10, 10) == 10000000000
  {
    assert Power(10, 5) == 100000 by {
      assert Power(10, 2) == 100;
      assert Power(10, 4) == 10000;
    }
    assert Power(10, 7) == 10000000;
    assert Power(10, 9) == 1000000000;
  }

  lemma {:induction false} FirstChar(n: nat, radix: int)
    requires 2 <= radix <= 16
    ensures Notation(n, radix)[0] >= ZERO
    decreases n
  {
    if n >= radix {
      Shrinks(n, radix);
      FirstChar(n / radix, radix);
    }
  }

  function Power(b: int, k: nat): int { if k == 0 then 1 else b * Power(b, k - 1) }

  // ----- Printing in decimal -----

  /** The digit extracted from the low end, and what is left. Both work on the
      absolute value although the registers hold a signed number. */
  lemma DigitExtraction(v: int32)
    ensures Wrap(Abs(Mod32(v, 10))) == Abs(v) % 10
    ensures Abs(Div32(v, 10)) == Abs(v) / 10
    ensures Div32(v, 10) == 0 <==> Abs(v) / 10 == 0
  {
    DivShrinks(Abs(v), 10);
    QuotFits(v, 10);
  }

  /** Writes digits backwards and returns the position after the last one. */
  method EmitDigits(buf: array<byte>, arg: int32, start: nat) returns (end: nat)
    requires start + |Notation(Abs(arg), 10)| <= buf.Length
    modifies buf
    ensures var digits := Notation(Abs(arg), 10);
            && end == start + |digits|
            && (forall j :: start <= j < end ==> buf[j] == digits[end - 1 - j])
    ensures forall k :: 0 <= k < buf.Length && !(start <= k < end) ==> buf[k] == old(buf[k])
  {
    hide Mod32, Div32, Wrap, Abs, Notation;
    ghost var digits := Notation(Abs(arg), 10);
    ghost var text: seq<byte> := [];  // the digits written so far, in reading order
    var val := arg;
    end := start;
    var more := true;
    while more
      invariant digits == (if more then Notation(Abs(val), 10) else []) + text
      invariant end == start + |text| <= start + |digits|
      invariant forall j :: start <= j < end ==> buf[j] == text[end - 1 - j]
      invariant forall k :: 0 <= k < buf.Length && !(start <= k < end) ==> buf[k] == old(buf[k])
      decreases if more then 1 + Abs(val) else 0
    {
      var digit := Mod32(val, 10);
      digit := Wrap(Abs(digit));
      DigitExtraction(val);
      NotationStep(Abs(val));
      buf[end] := (digit + ZERO) % 256;
      text := [buf[end]] + text;
      end := end + 1;
      val := Div32(val, 10);
      more := val != 0;
    }
  }

  lemma NotationStep(n: nat)
    ensures 0 <= n % 10 < 10
    ensures n / 10 == 0 ==> Notation(n, 10) == [n % 10 + ZERO]
    ensures n / 10 != 0 ==> Notation(n, 10) == Notation(n / 10, 10) + [n % 10 + ZERO] && n / 10 < n
    ensures Abs(n) == n
  {}

  /** Reverses buf[lo..hi] in place by swapping from both ends. */
  method ReverseDigits(buf: array<byte>, lo: nat, hi: nat)
    requires lo < hi <= buf.Length
    modifies buf
    ensures forall k :: lo <= k < hi ==> buf[k] == old(buf[lo + hi - 1 - k])
    ensures forall k :: 0 <= k < buf.Length && !(lo <= k < hi) ==> buf[k] == old(buf[k])
  {
    var reverseStart, last := lo, hi - 1;
    while reverseStart < last
      invariant lo <= reverseStart <= last + 1 <= hi
      invariant reverseStart - lo == hi - 1 - last
      invariant forall k :: lo <= k < reverseStart || last < k < hi ==> buf[k] == old(buf[lo + hi - 1 - k])
      invariant forall k :: reverseStart <= k <= last || 0 <= k < lo || hi <= k < buf.Length ==> buf[k] == old(buf[k])
    {
      var v1 := buf[reverseStart];
      var v2 := buf[last];
      buf[last] := v1;
      last := last - 1;
      buf[reverseStart] := v2;
      reverseStart := reverseStart + 1;
    }
  }

  /** Writes the digits of the absolute value, in reading order. */
  method WriteDigits(buf: array<byte>, arg: int32, start: nat) returns (end: nat)
    requires start + |Notation(Abs(arg), 10)| <= buf.Length
    modifies buf
    ensures var digits := Notation(Abs(arg), 10);
            && end == start + |digits|
            && forall j :: start <= j < end ==> buf[j] == digits[j - start]
    ensures forall k :: 0 <= k < buf.Length && !(start <= k < end) ==> buf[k] == old(buf[k])
  {
    hide Notation, Abs;
    NotationFilled(Abs(arg));
    end := EmitDigits(buf, arg, start);
    ghost var backwards := buf[..];
    ReverseDigits(buf, start, end);
    forall j | start <= j < end
      ensures buf[j] == Notation(Abs(arg), 10)[j - start]
    {
      assert buf[j] == backwards[start + end - 1 - j];
    }
  }

  lemma NotationFilled(n: nat)
    ensures |Notation(n, 10)| > 0
  {}

  /** Prints a signed integer; the buffer always has room for 11 characters. */
  method DecToStr(arg: int32, buf: array<byte>) returns (count: nat)
    requires buf.Length >= 11
    modifies buf
    ensures 1 <= count <= 11
    ensures buf[..count] == Decimal(arg)
    ensures buf[count..] == old(buf[count..])
  {
    hide Notation, Abs;
    DecimalShape(arg);
    var argBuf := 0;
    if arg < 0 {
      buf[argBuf] := MINUS;
      argBuf := argBuf + 1;
    }
    count := WriteDigits(buf, arg, argBuf);
    assert forall j :: 0 <= j < count ==> buf[j] == Decimal(arg)[j];
  }

  // ----- Printing in hexadecimal -----

  /** The number made of the digits of u from bit s upwards. */
  function Prefix(u: int, s: nat): int { u / Pow2(s) }

  /** One nibble of the argument, and the number read so far. */
  lemma NibbleStep(arg: int32, shift: nat)
    ensures var nibble := And32(Lsr32(arg, shift), 15);
            0 <= nibble < 16
            && Prefix(Unsigned(arg), shift) == Prefix(Unsigned(arg), shift + 4) * 16 + nibble
            && Prefix(Unsigned(arg), shift + 4) >= 0
  {
    hide Wrap;
    var u := Unsigned(arg);
    var v := u / Pow2(shift);
    assert Pow2(4) == 16;
    AndMask(Lsr32(arg, shift), 4);
    NibbleOfWord(Wrap(v), v);
    Pow2Add(4, shift);
    NestedQuotient(u, Pow2(shift));
    assert v >= 0 by { QuotientSign(u, Pow2(shift)); }
    assert v == 16 * (v / 16) + v % 16;
  }

  lemma QuotientSign(u: int, m: int)
    requires u >= 0 && m > 0
    ensures u / m >= 0
  {}

  lemma NibbleOfWord(w: int, v: int)
    requires w % TWO32 == v % TWO32
    ensures w % 16 == v % 16
  {
    LowNibble(w);
    LowNibble(v);
  }

  lemma LowNibble(w: int)
    ensures w % 16 == (w % TWO32) % 16
  {
    var q, r := w / TWO32, w % TWO32;
    assert w == r + (q * 0x1000_0000) * 16;
    ModShift(r, q * 0x1000_0000, 16);
  }

  lemma NestedQuotient(u: int, m: int)
    requires m > 0
    ensures u / (16 * m) == (u / m) / 16
  {
    var v := u / m;
    var q, r := v / 16, v % 16;
    assert u == v * m + u % m by { assert u == m * (u / m) + u % m; }
    assert v * m == q * (16 * m) + r * m by { assert v == 16 * q + r; }
    MulMonotone(r, 15, m);
    MulMonotone(0, r, m);
    DivModUnique(u, 16 * m, q, r * m + u % m);
  }

  lemma NotationAppend(prefix: nat, nibble: int)
    requires 0 <= nibble < 16
    ensures prefix > 0 ==> Notation(prefix * 16 + nibble, 16) == Notation(prefix, 16) + [DigitChar(nibble)]
    ensures prefix == 0 ==> Notation(nibble, 16) == [DigitChar(nibble)]
  {
    if prefix > 0 {
      DivModUnique(prefix * 16 + nibble, 16, prefix, nibble);
    }
  }

  lemma HexadecimalLength(n: int32)
    ensures 1 <= |Hexadecimal(n)| <= 8
  {
    assert Power(16, 2) == 256;
    assert Power(16, 4) == 65536;
    assert Power(16, 6) == 0x100_0000;
    assert Power(16, 8) == TWO32;
    NotationLength(Unsigned(n), 16, 8);
  }

  lemma OrTruth(x: int32, b: bool)
    ensures Or32(x, Truth(b)) == if b then -1 else x
  {
    AndLeaf(BitNot(x));
  }

  lemma HexChar(nibble: int)
    requires 0 <= nibble < 16
    ensures Truth(nibble >= 10) * (('0' as int - 'A' as int) + 10) + (nibble + ZERO) == DigitChar(nibble)
  {}

  /** The digits of a number without a single zero for zero. */
  function Suppressed(n: nat): seq<byte> { if n == 0 then [] else Notation(n, 16) }

  lemma SuppressedStep(prefix: nat, nibble: int)
    requires 0 <= nibble < 16
    ensures var text := Suppressed(prefix);
            Suppressed(prefix * 16 + nibble) == if nibble != 0 || |text| > 0 then text + [DigitChar(nibble)] else text
  {
    NotationAppend(prefix, nibble);
    if prefix > 0 {
      NotationPositive(prefix);
    }
  }

  lemma NotationPositive(n: nat)
    ensures |Notation(n, 16)| > 0
  {}

  lemma WholeText(arg: int32)
    ensures Suppressed(0) == [] && (arg != 0 ==> Suppressed(Unsigned(arg)) == Hexadecimal(arg))
  {}

  /** Writes one digit, unless it is a leading zero. */
  method WriteNibble(nibble: int32, buf: array<byte>, argBuf: nat) returns (next: nat)
    requires 0 <= nibble < 16 && argBuf < buf.Length
    modifies buf
    ensures next == if nibble != 0 || argBuf > 0 then argBuf + 1 else argBuf
    ensures forall k :: 0 <= k < buf.Length && k != argBuf ==> buf[k] == old(buf[k])
    ensures buf[argBuf] == if next > argBuf then DigitChar(nibble) else old(buf[argBuf])
  {
    hide Or32, Truth, DigitChar;
    next := argBuf;
    var haveWritten := Truth(argBuf > 0);
    OrTruth(nibble, argBuf > 0);
    if Or32(nibble, haveWritten) != 0 {
      var chr := nibble + ZERO;
      HexChar(nibble);
      chr := Truth(nibble >= 10) * (('0' as int - 'A' as int) + 10) + chr;
      buf[argBuf] := chr;
      next := argBuf + 1;
    }
  }

  /** Prints the unsigned value of a word, suppressing leading zeros. */
  method HexToStr(arg: int32, buf: array<byte>) returns (count: nat)
    requires buf.Length >= 8
    modifies buf
    ensures 1 <= count <= 8
    ensures buf[..count] == Hexadecimal(arg)
    ensures forall k :: count <= k < buf.Length ==> buf[k] == old(buf[k])
  {
    hide Wrap, And32, Lsr32, BitAnd, Pow2, Unsigned, DigitChar, Prefix, Suppressed;
    HexadecimalLength(arg);
    if arg == 0 {
      buf[0] := ZERO;
      ZeroDigit();
      assert buf[..1] == [ZERO];
      return 1;
    }
    var argBuf: nat := 0;
    var shift := 32;
    ghost var u := Unsigned(arg);
    ghost var prefix := 0;
    ghost var text: seq<byte> := [];  // the digits written so far
    ghost var round := 0;
    StartPrefix(u);
    WholeText(arg);
    while shift != 0
      invariant round <= 8 && shift == 32 - 4 * round
      invariant prefix == Prefix(u, shift) && prefix >= 0
      invariant text == Suppressed(prefix)
      invariant argBuf == |text| <= round
      invariant forall j :: 0 <= j < argBuf ==> buf[j] == text[j]
      invariant forall k :: argBuf <= k < buf.Length ==> buf[k] == old(buf[k])
    {
      shift := shift - 4;
      round := round + 1;
      var nibble := And32(Lsr32(arg, shift), 15);
      NibbleStep(arg, shift);
      SuppressedStep(prefix, nibble);
      argBuf := WriteNibble(nibble, buf, argBuf);
      prefix := Prefix(u, shift);
      text := Suppressed(prefix);
    }
    EndPrefix(u);
    count := argBuf;
    assert buf[..count] == text;
  }

  lemma ZeroDigit()
    ensures Hexadecimal(0) == [ZERO]
  {}

  lemma StartPrefix(u: int)
    requires 0 <= u < TWO32
    ensures Prefix(u, 32) == 0
  {
    Pow2Is32();
  }

  lemma EndPrefix(u: int)
    ensures Prefix(u, 0) == u
  {}

  // ----- What a text means -----

  predicate Radix(radix: int) { 2 <= radix <= 10 || radix == 16 }

  /** The characters taken as digits. In bases up to ten the character after the
      last digit of the base is taken too. */
  predicate IsDigit(c: byte, radix: int)
  {
    if radix == 16 then ZERO <= c <= NINE || UPPER_A <= c < UPPER_A + 6 || LOWER_A <= c < LOWER_A + 6
    else ZERO <= c <= ZERO + radix
  }

  function DigitValue(c: byte): int
  {
    if c < UPPER_A then c - ZERO else if c < LOWER_A then c - UPPER_A + 10 else c - LOWER_A + 10
  }

  /** The value of the digits in s[lo..hi], the most significant first. */
  function Value(s: seq<byte>, radix: int, lo: nat, hi: nat): int
    requires lo <= hi <= |s|
  {
    if lo == hi then 0 else Value(s, radix, lo, hi - 1) * radix + DigitValue(s[hi - 1])
  }

  function SignOf(s: seq<byte>): int32 { if |s| > 0 && s[0] == MINUS then -1 else 1 }

  function FirstDigit(s: seq<byte>): (i: nat)
    ensures i <= |s|
  {
    if |s| > 0 && (s[0] == PLUS || s[0] == MINUS) then 1 else 0
  }

  function RunEnd(s: seq<byte>, radix: int, i: nat): (end: nat)
    requires i <= |s|
    ensures i <= end <= |s|
    ensures forall k :: i <= k < end ==> IsDigit(s[k], radix)
    ensures end == |s| || !IsDigit(s[end], radix)
    decreases |s| - i
  {
    if i < |s| && IsDigit(s[i], radix) then RunEnd(s, radix, i + 1) else i
  }

  /** The number a text denotes, of any size: a sign, then the longest run of digits. */
  function Meaning(s: seq<byte>, radix: int): int
  {
    var lo := FirstDigit(s);
    SignOf(s) * Value(s, radix, lo, RunEnd(s, radix, lo))
  }

  // ----- Reading -----

  datatype Parsed = Number(value: int32) | TooBig

  /** A magnitude whose wrapped signed value has the wrong sign. */
  predicate SignFlips(sign: int, magnitude: int)
  {
    var w := Wrap(sign * magnitude);
    w != 0 && (w < 0) != (sign < 0)
  }

  predicate InLowerHalf(sign: int, magnitude: int)
  {
    if sign < 0 then magnitude % TWO32 <= TWO31 else magnitude % TWO32 < TWO31
  }

  /** Seen from the magnitude, the sign flips in the upper half of each 2^32. */
  lemma UpperHalf(sign: int, magnitude: int)
    requires sign == 1 || sign == -1
    ensures SignFlips(sign, magnitude) <==> !InLowerHalf(sign, magnitude)
  {
    if sign < 0 {
      var k := magnitude / TWO32;
      assert sign * magnitude == -magnitude == -(magnitude % TWO32) + (-k) * TWO32;
      WrapShift(-(magnitude % TWO32), -k);
    }
  }

  predicate SomeSuffixFlips(sign: int, s: seq<byte>, radix: int, lo: nat, hi: nat)
    requires lo <= hi <= |s|
  {
    exists j :: lo <= j < hi && SignFlips(sign, Value(s, radix, j, hi))
  }

  /** Overflow is reported when the wrapped value of some suffix of the digits
      has the wrong sign; otherwise the wrapped value of the text is returned. */
  function Parse(s: seq<byte>, radix: int): Parsed
  {
    var lo := FirstDigit(s);
    var hi := RunEnd(s, radix, lo);
    if SomeSuffixFlips(SignOf(s), s, radix, lo, hi) then TooBig
    else Number(Wrap(Meaning(s, radix)))
  }

  lemma OrCase(c: byte)
    ensures var lower := Or32(c, 32);
            (LOWER_A <= lower <= LOWER_F <==> UPPER_A <= c < UPPER_A + 6 || LOWER_A <= c < LOWER_A + 6)
            && (LOWER_A <= lower <= LOWER_F ==> lower - (LOWER_A - 10) == DigitValue(c))
            && (c <= NINE ==> lower < LOWER_A)
  {
    assert Pow2(5) == 32;
    OrBit(c, 5);
  }

  lemma TruthTables(p: bool, q: bool)
    ensures Or32(Truth(p), Truth(q)) == Truth(p || q)
    ensures Eor32(Truth(p), Truth(q)) == Truth(p != q)
  {
    OrTruth(Truth(p), q);
    assert BitEor(0, Truth(q)) == Truth(q) && BitEor(-1, Truth(q)) == BitNot(Truth(q));
  }

  /** The test that ends the run of digits. */
  method IsStop(c: byte, radix: int) returns (stop: bool)
    requires Radix(radix)
    ensures stop == !IsDigit(c, radix)
  {
    hide Or32, Eor32, BitOr, BitEor;
    var lt0 := Truth(c < ZERO);
    if radix == 16 {
      var notDecimal := Or32(lt0, Truth(c > NINE));
      TruthTables(c < ZERO, c > NINE);
      var lower := Or32(c, 32);
      OrCase(c);
      var notLetter := Or32(Truth(lower < LOWER_A), Truth(lower > LOWER_F));
      TruthTables(lower < LOWER_A, lower > LOWER_F);
      var condee := Eor32(notDecimal, notLetter);
      TruthTables(c < ZERO || c > NINE, lower < LOWER_A || lower > LOWER_F);
      stop := condee == 0;
    } else {
      var maxDigit := radix + ZERO;
      var condee := Or32(lt0, Truth(c > maxDigit));
      TruthTables(c < ZERO, c > maxDigit);
      stop := condee != 0;
    }
  }

  /** Skips a sign and walks to the end of the run of digits. */
  method FindFirstStop(s: seq<byte>, radix: int) returns (strData: nat, ptr: nat, minus: int32)
    requires |s| > 0 && Radix(radix)
    ensures strData == FirstDigit(s) && ptr == RunEnd(s, radix, strData) && minus == SignOf(s)
  {
    strData, ptr, minus := 0, 0, 1;
    var stop := false;
    if s[0] == PLUS || s[0] == MINUS {
      if s[0] != PLUS {
        minus := 0 - minus;
      }
      strData := strData + 1;
      ptr := ptr + 1;
      if ptr == |s| {
        return;
      }
    }
    stop := IsStop(s[ptr], radix);
    while !stop
      invariant strData <= ptr <= |s|
      invariant RunEnd(s, radix, strData) == RunEnd(s, radix, ptr)
      invariant stop ==> ptr == RunEnd(s, radix, ptr)
      invariant !stop ==> ptr < |s| && IsDigit(s[ptr], radix)
      decreases |s| - ptr, !stop
    {
      ptr := ptr + 1;
      if ptr < |s| {
        stop := IsStop(s[ptr], radix);
      } else {
        stop := true;
      }
    }
  }

  /** The running sum is the wrapped value of the digits read so far, even after
      the factor itself has wrapped. */
  lemma Accumulate(sign: int, d: int, power: int, tail: int, factor: int32, sum: int32)
    requires factor == Wrap(sign * power) && sum == Wrap(sign * tail)
    ensures Wrap(sum + Wrap(d * factor)) == Wrap(sign * (d * power + tail))
  {
    hide Wrap;
    var a, b := sign * power, sign * tail;
    AccumulateWrapped(d, a, b, factor, sum);
    assert b + d * a == sign * (d * power + tail) by { Regroup(sign, d, power, tail); }
  }

  lemma AccumulateWrapped(d: int, a: int, b: int, factor: int32, sum: int32)
    requires factor == Wrap(a) && sum == Wrap(b)
    ensures Wrap(sum + Wrap(d * factor)) == Wrap(b + d * a)
  {
    hide Wrap;
    WrapMul(a, d);
    WrapAdd(d * a, sum);
    WrapAdd(b, d * a);
  }

  lemma Regroup(sign: int, d: int, power: int, tail: int)
    ensures sign * tail + d * (sign * power) == sign * (d * power + tail)
  {
    assert d * (sign * power) == sign * (d * power);
  }

  lemma ScaleFactor(sign: int, radix: int, k: nat, factor: int32)
    requires factor == Wrap(sign * Power(radix, k))
    ensures Wrap(factor * radix) == Wrap(sign * Power(radix, k + 1))
    ensures radix == 16 ==> Lsl32(factor, 4) == Wrap(sign * Power(radix, k + 1))
  {
    hide Wrap;
    var p := Power(radix, k);
    WrapMul(sign * p, radix);
    Reassociate(sign, p, radix);
    assert Pow2(4) == 16;
  }

  lemma Reassociate(x: int, y: int, z: int)
    ensures (x * y) * z == x * (z * y)
  {}

  /** The sign-bit test. */
  lemma OverflowTest(sign: int32, magnitude: int, sum: int32)
    requires sign == 1 || sign == -1
    requires sum == Wrap(sign * magnitude)
    ensures sum != 0 && And32(Eor32(sum, sign), INT_MIN) != 0 <==> SignFlips(sign, magnitude)
  {
    hide Wrap, BitEor, BitAnd, Pow2;
    Pow2Is32();
    EorFits(sum, sign, 31);
    EorSign(sum, sign);
    AndSign(BitEor(sum, sign), 31);
  }

  lemma ShiftLeft(d: int, p: int, radix: int, rest: int)
    ensures (d * p + rest) * radix == d * (radix * p) + rest * radix
  {
    Reassociate(d, p, radix);
  }

  lemma {:induction false} LeadingDigit(s: seq<byte>, radix: int, lo: nat, hi: nat)
    requires lo < hi <= |s|
    ensures Value(s, radix, lo, hi) == DigitValue(s[lo]) * Power(radix, hi - 1 - lo) + Value(s, radix, lo + 1, hi)
    decreases hi
  {
    if lo + 1 < hi {
      LeadingDigit(s, radix, lo, hi - 1);
      var d, p := DigitValue(s[lo]), Power(radix, hi - 2 - lo);
      ShiftLeft(d, p, radix, Value(s, radix, lo + 1, hi - 1));
    }
  }

  /** Accumulates the digits from the last to the first. */
  method ComputeWholePart(s: seq<byte>, strData: nat, ptr: nat, radix: int, sign: int32) returns (r: Parsed)
    requires Radix(radix) && strData <= ptr <= |s| && (sign == 1 || sign == -1)
    requires forall k :: strData <= k < ptr ==> IsDigit(s[k], radix)
    ensures r.TooBig? <==> SomeSuffixFlips(sign, s, radix, strData, ptr)
    ensures r.Number? ==> r.value == Wrap(sign * Value(s, radix, strData, ptr))
  {
    hide Wrap, And32, Eor32, Or32, Power, SignFlips, Lsl32;
    var factor, retVal: int32 := sign, 0;
    var newPtr := ptr;
    FirstFactor(sign, radix);
    while newPtr - 1 >= strData
      invariant strData <= newPtr <= ptr
      invariant factor == Wrap(sign * Power(radix, ptr - newPtr))
      invariant retVal == Wrap(sign * Value(s, radix, newPtr, ptr))
      invariant forall j :: newPtr <= j < ptr ==> !SignFlips(sign, Value(s, radix, j, ptr))
    {
      newPtr := newPtr - 1;
      var c: int := s[newPtr];
      OrCase(s[newPtr]);
      if radix == 16 && c > NINE {
        c := Or32(c, 32) - (LOWER_A - 10);
      } else {
        c := c - ZERO;
      }
      assert c == DigitValue(s[newPtr]);
      var product := Wrap(c * factor);
      Accumulate(sign, c, Power(radix, ptr - newPtr - 1), Value(s, radix, newPtr + 1, ptr), factor, retVal);
      LeadingDigit(s, radix, newPtr, ptr);
      ScaleFactor(sign, radix, ptr - newPtr - 1, factor);
      factor := if radix == 16 then Lsl32(factor, 4) else Wrap(factor * radix);
      retVal := Wrap(retVal + product);
      OverflowTest(sign, Value(s, radix, newPtr, ptr), retVal);
      if retVal != 0 {
        if And32(Eor32(retVal, sign), INT_MIN) != 0 {
          return TooBig;
        }
      }
    }
    r := Number(retVal);
  }

  lemma FirstFactor(sign: int32, radix: int)
    ensures Wrap(sign * Power(radix, 0)) == sign && Wrap(sign * 0) == 0
  {}

  /** Reads a number at the front of a text. The empty text reads as zero. */
  method StrToInt32(s: seq<byte>, radix: int) returns (r: Parsed)
    requires Radix(radix)
    ensures r == Parse(s, radix)
  {
    hide Wrap, SignFlips;
    if |s| == 0 {
      assert Meaning(s, radix) == 0 by { assert RunEnd(s, radix, 0) == 0; }
      FirstFactor(1, radix);
      return Number(0);
    }
    var strData, ptr, sign := FindFirstStop(s, radix);
    r := ComputeWholePart(s, strData, ptr, radix, sign);
  }

  // ----- What reading guarantees -----

  lemma {:induction false} ValueGrows(s: seq<byte>, radix: int, lo: nat, j: nat, hi: nat)
    requires Radix(radix) && lo <= j <= hi <= |s|
    requires forall k :: lo <= k < hi ==> IsDigit(s[k], radix)
    ensures 0 <= Value(s, radix, j, hi) <= Value(s, radix, lo, hi)
    decreases hi - lo
  {
    if lo < j {
      ValueGrows(s, radix, lo + 1, j, hi);
      LeadingDigit(s, radix, lo, hi);
      PowerPositive(radix, hi - 1 - lo);
      MulMonotone(0, DigitValue(s[lo]), Power(radix, hi - 1 - lo));
    } else if lo < hi {
      ValueGrows(s, radix, lo + 1, hi, hi);
      LeadingDigit(s, radix, lo, hi);
      PowerPositive(radix, hi - 1 - lo);
      MulMonotone(0, DigitValue(s[lo]), Power(radix, hi - 1 - lo));
    }
  }

  lemma {:induction false} PowerPositive(b: int, k: nat)
    requires b > 0
    ensures Power(b, k) > 0
  {
    if k > 0 {
      PowerPositive(b, k - 1);
    }
  }

  lemma EmptyRun(s: seq<byte>, radix: int, lo: nat)
    requires lo <= |s|
    ensures Value(s, radix, lo, lo) == 0
  {}

  /** Below 2^32 in magnitude reading is exact: a number that fits in 32 bits is
      returned whatever its leading zeros, and any other is reported. */
  lemma ParseExact(s: seq<byte>, radix: int)
    requires Radix(radix)
    requires -TWO32 < Meaning(s, radix) < TWO32
    ensures -TWO31 <= Meaning(s, radix) < TWO31 ==> Parse(s, radix) == Number(Meaning(s, radix))
    ensures !(-TWO31 <= Meaning(s, radix) < TWO31) ==> Parse(s, radix) == TooBig
  {
    hide Wrap, SignFlips, Value, RunEnd, Radix;
    var lo := FirstDigit(s);
    var hi := RunEnd(s, radix, lo);
    var v := Value(s, radix, lo, hi);
    ValueGrows(s, radix, lo, lo, hi);
    assert v < TWO32;
    if -TWO31 <= Meaning(s, radix) < TWO31 {
      forall j | lo <= j < hi
        ensures !SignFlips(SignOf(s), Value(s, radix, j, hi))
      {
        ValueGrows(s, radix, lo, j, hi);
        UpperHalf(SignOf(s), Value(s, radix, j, hi));
      }
    } else {
      assert lo < hi by { EmptyRun(s, radix, lo); }
      UpperHalf(SignOf(s), v);
      assert SignFlips(SignOf(s), Value(s, radix, lo, hi));
    }
  }

  predicate AllInLowerHalf(sign: int, s: seq<byte>, radix: int, lo: nat, hi: nat)
    requires lo <= hi <= |s|
  {
    forall j :: lo <= j < hi ==> InLowerHalf(sign, Value(s, radix, j, hi))
  }

  lemma LowerHalves(sign: int, s: seq<byte>, radix: int, lo: nat, hi: nat)
    requires lo <= hi <= |s| && (sign == 1 || sign == -1)
    ensures AllInLowerHalf(sign, s, radix, lo, hi) <==> !SomeSuffixFlips(sign, s, radix, lo, hi)
  {
    hide SignFlips, InLowerHalf;
    forall j | lo <= j < hi
      ensures SignFlips(sign, Value(s, radix, j, hi)) <==> !InLowerHalf(sign, Value(s, radix, j, hi))
    {
      UpperHalf(sign, Value(s, radix, j, hi));
    }
  }

  predicate FitsWord(x: int) { -TWO31 <= x < TWO31 }

  /** The number, or an overflow if it does not fit. */
  function Right(m: int): Parsed { if FitsWord(m) then Number(m) else TooBig }

  /** From 2^32 on the sign-bit test can miss. Reading meets its purpose, the
      number itself or an overflow, exactly when the number fits or some suffix
      of the digits has a value whose remainder by 2^32 is in the upper half. */
  lemma ParseCorrectIff(s: seq<byte>, radix: int)
    requires Radix(radix)
    ensures var lo := FirstDigit(s);
            var m := Meaning(s, radix);
            Parse(s, radix) == Right(m) <==>
            FitsWord(m) || !AllInLowerHalf(SignOf(s), s, radix, lo, RunEnd(s, radix, lo))
  {
    var lo := FirstDigit(s);
    LowerHalves(SignOf(s), s, radix, lo, RunEnd(s, radix, lo));
    if FitsWord(Meaning(s, radix)) {
      ParseExact(s, radix);
    }
  }

  /** Such a text: 4294967297 reads as 1. */
  lemma MissedOverflow()
    ensures var s := [52, 50, 57, 52, 57, 54, 55, 50, 57, 55];
            Meaning(s, 10) == 4294967297 && Parse(s, 10) == Number(1)
  {
    hide RunEnd, SignFlips, Value;
    var s: seq<byte> := [52, 50, 57, 52, 57, 54, 55, 50, 57, 55];
    WholeRun(s, 10, 0);
    Suffixes(s);
  }

  lemma Suffixes(s: seq<byte>)
    requires s == [52, 50, 57, 52, 57, 54, 55, 50, 57, 55]
    ensures Value(s, 10, 0, 10) == 4294967297
    ensures forall j :: 0 <= j < 10 ==> !SignFlips(1, Value(s, 10, j, 10))
  {
    hide Value, Power, SignFlips;
    NoSuffix(s);
    var values := [4294967297, 294967297, 94967297, 4967297, 967297, 67297, 7297, 297, 97, 7, 0];
    var k := 10;
    ghost var p := 1;
    while k > 0
      invariant 0 <= k <= 10
      invariant p == Power(10, 10 - k)
      invariant p == [10000000000, 1000000000, 100000000, 10000000, 1000000, 100000, 10000, 1000, 100, 10, 1][k]
      invariant values[k] == Value(s, 10, k, 10)
      invariant forall j :: k <= j < 10 ==> !SignFlips(1, Value(s, 10, j, 10))
    {
      k := k - 1;
      LeadingDigit(s, 10, k, 10);
      PowerStep(9 - k);
      p := 10 * p;
      UpperHalf(1, values[k]);
    }
  }

  lemma NoSuffix(s: seq<byte>)
    requires |s| == 10
    ensures Value(s, 10, 10, 10) == 0 && Power(10, 0) == 1
  {}

  lemma PowerStep(k: nat)
    ensures Power(10, k + 1) == 10 * Power(10, k)
  {}

  // ----- What the characters mean -----

  /** The digits of a base: 0 to 9 and the letters A to F in both cases. */
  predicate IsNumeral(c: byte, radix: int)
  {
    if radix == 16 then 48 <= c <= 57 || 65 <= c <= 70 || 97 <= c <= 102 else 48 <= c < 48 + radix
  }

  /** Digits as a number, the last one counting once. */
  function Positional(digits: seq<byte>, radix: int): int
  {
    if digits == [] then 0
    else
      var c: int := digits[|digits| - 1];
      Positional(digits[..|digits| - 1], radix) * radix + (if c < 65 then c - 48 else if c < 97 then c - 55 else c - 87)
  }

  lemma {:induction false} ValueIsPositional(digits: seq<byte>, radix: int, n: nat)
    requires n <= |digits|
    ensures Value(digits, radix, 0, n) == Positional(digits[..n], radix)
  {
    if n > 0 {
      ValueIsPositional(digits, radix, n - 1);
      assert digits[..n][..n - 1] == digits[..n - 1];
    }
  }

  lemma {:induction false} RunEndsAt(s: seq<byte>, radix: int, i: nat, end: nat)
    requires i <= end <= |s| && (forall k :: i <= k < end ==> IsDigit(s[k], radix))
    requires end == |s| || !IsDigit(s[end], radix)
    ensures RunEnd(s, radix, i) == end
    decreases end - i
  {
    if i < end {
      RunEndsAt(s, radix, i + 1, end);
    }
  }

  /** What may follow a numeral: nothing that would be taken for a digit. */
  predicate Ends(tail: seq<byte>, radix: int)
  {
    tail == [] || (!IsNumeral(tail[0], radix) && (radix != 16 ==> tail[0] != 48 + radix))
  }

  lemma MeaningOfNumeral(sign: seq<byte>, digits: seq<byte>, tail: seq<byte>, radix: int)
    requires Radix(radix) && (sign == [] || sign == [43] || sign == [45]) && Ends(tail, radix)
    requires digits != [] && forall k :: 0 <= k < |digits| ==> IsNumeral(digits[k], radix)
    ensures Meaning(sign + digits + tail, radix) == (if sign == [45] then -1 else 1) * Positional(digits, radix)
    ensures Positional(digits, radix) >= 0
  {
    hide Value, Meaning, RunEnd, Positional, FirstDigit, SignOf, Ends, IsDigit;
    RunOfNumeral(sign, digits, tail, radix);
    SignOfNumeral(sign, digits, tail, radix);
    MeaningParts(sign + digits + tail, digits, radix, |sign|, |sign| + |digits|);
  }

  lemma MeaningParts(s: seq<byte>, digits: seq<byte>, radix: int, lo: nat, hi: nat)
    requires Radix(radix) && lo <= hi <= |s| && |digits| == hi - lo
    requires FirstDigit(s) == lo && RunEnd(s, radix, lo) == hi
    requires forall k :: 0 <= k < |digits| ==> s[k + lo] == digits[k]
    requires forall k :: lo <= k < hi ==> IsDigit(s[k], radix)
    ensures Meaning(s, radix) == SignOf(s) * Positional(digits, radix)
    ensures Positional(digits, radix) >= 0
  {
    hide Positional, FirstDigit, SignOf, IsDigit;
    ValueIsPositional(digits, radix, |digits|);
    assert digits[..|digits|] == digits;
    ValueOfPrefix(s, digits, radix, lo, 0, |digits|);
    ValueGrows(s, radix, lo, lo, hi);
  }

  lemma RunOfNumeral(sign: seq<byte>, digits: seq<byte>, tail: seq<byte>, radix: int)
    requires Radix(radix) && Ends(tail, radix)
    requires forall k :: 0 <= k < |digits| ==> IsNumeral(digits[k], radix)
    ensures var s, lo, hi := sign + digits + tail, |sign|, |sign| + |digits|;
            && (forall k :: 0 <= k < |digits| ==> s[k + lo] == digits[k])
            && (forall k :: lo <= k < hi ==> IsDigit(s[k], radix))
            && RunEnd(s, radix, lo) == hi
  {
    var s, lo, hi := sign + digits + tail, |sign|, |sign| + |digits|;
    assert forall k :: 0 <= k < |digits| ==> s[k + lo] == digits[k];
    assert forall k :: lo <= k < hi ==> s[k] == digits[k - lo];
    assert hi < |s| ==> s[hi] == tail[0];
    RunEndsAt(s, radix, lo, hi);
  }

  lemma SignOfNumeral(sign: seq<byte>, digits: seq<byte>, tail: seq<byte>, radix: int)
    requires Radix(radix) && (sign == [] || sign == [43] || sign == [45])
    requires digits != [] && IsNumeral(digits[0], radix)
    ensures var s := sign + digits + tail;
            FirstDigit(s) == |sign| && SignOf(s) == if sign == [45] then -1 else 1
  {
    var s := sign + digits + tail;
    assert s[|sign|] == digits[0] && (sign != [] ==> s[0] == sign[0]);
  }

  /** A numeral is read as its value, with or without a plus sign and with a minus
      sign as the opposite, up to what cannot belong to it. Below 2^32 a value that
      does not fit is reported. */
  lemma NumeralRead(digits: seq<byte>, tail: seq<byte>, radix: int)
    requires 2 <= radix <= 10 || radix == 16
    requires digits != [] && forall k :: 0 <= k < |digits| ==> IsNumeral(digits[k], radix)
    requires Ends(tail, radix)
    ensures var v := Positional(digits, radix);
            && (0 <= v < 0x8000_0000 ==>
                  Parse(digits + tail, radix) == Parse([43] + digits + tail, radix) == Number(v))
            && (0 <= v <= 0x8000_0000 ==> Parse([45] + digits + tail, radix) == Number(-v))
            && (0x8000_0000 <= v < 0x1_0000_0000 ==>
                  Parse(digits + tail, radix) == Parse([43] + digits + tail, radix) == TooBig)
            && (0x8000_0000 < v < 0x1_0000_0000 ==> Parse([45] + digits + tail, radix) == TooBig)
    ensures Positional(digits, radix) >= 0
  {
    hide Parse, Meaning, Positional, IsNumeral, Ends;
    MeaningOfNumeral([], digits, tail, radix);
    MeaningOfNumeral([43], digits, tail, radix);
    MeaningOfNumeral([45], digits, tail, radix);
    assert [] + digits + tail == digits + tail;
    if Positional(digits, radix) < 0x1_0000_0000 {
      ParseExact(digits + tail, radix);
      ParseExact([43] + digits + tail, radix);
      ParseExact([45] + digits + tail, radix);
    }
  }

  /** A text without a digit in front, behind a sign or not, reads as zero. */
  lemma NothingRead(tail: seq<byte>, radix: int)
    requires (2 <= radix <= 10 || radix == 16) && Ends(tail, radix)
    ensures tail == [] || (tail[0] != 43 && tail[0] != 45) ==> Parse(tail, radix) == Number(0)
    ensures Parse([43] + tail, radix) == Parse([45] + tail, radix) == Number(0)
  {
    NothingAfter([], tail, radix);
    NothingAfter([43], tail, radix);
    NothingAfter([45], tail, radix);
    assert [] + tail == tail;
  }

  lemma NothingAfter(sign: seq<byte>, tail: seq<byte>, radix: int)
    requires Radix(radix) && Ends(tail, radix) && (sign == [43] || sign == [45] || sign == [])
    ensures sign != [] || tail == [] || (tail[0] != 43 && tail[0] != 45) ==> Parse(sign + tail, radix) == Number(0)
  {
    hide Parse;
    var s := sign + tail;
    if sign != [] || tail == [] || (tail[0] != 43 && tail[0] != 45) {
      assert |sign| < |s| ==> s[|sign|] == tail[0];
      RunEndsAt(s, radix, |sign|, |sign|);
      assert Value(s, radix, |sign|, |sign|) == 0;
      ParseExact(s, radix);
    }
  }

  /** Printed digits are 0 to 9 and, in hexadecimal, capital letters; a leading zero
      is printed only for zero itself. */
  lemma {:induction false} PrintedDigits(n: nat, radix: int)
    requires Radix(radix)
    ensures forall k :: 0 <= k < |Notation(n, radix)| ==>
              var c := Notation(n, radix)[k]; 48 <= c <= 57 || (radix == 16 && 65 <= c <= 70)
    decreases n
  {
    if n >= radix {
      Shrinks(n, radix);
      PrintedDigits(n / radix, radix);
    }
  }

  lemma DecimalCharacters(n: int32)
    ensures var s := Decimal(n);
            && 1 <= |s| <= 11 && (s[0] == 45 <==> n < 0)
            && (forall k :: (if n < 0 then 1 else 0) <= k < |s| ==> 48 <= s[k] <= 57)
            && (if n < 0 then |s| > 1 && s[1] != 48 else s[0] == 48 <==> n == 0)
  {
    hide Notation;
    DecimalShape(n);
    PrintedDigits(Abs(n), 10);
  }

  lemma HexadecimalCharacters(n: int32)
    ensures var s := Hexadecimal(n);
            && 1 <= |s| <= 8 && (s[0] == 48 <==> n == 0)
            && forall k :: 0 <= k < |s| ==> 48 <= s[k] <= 57 || 65 <= s[k] <= 70
  {
    hide Notation;
    HexadecimalLength(n);
    PrintedDigits(Unsigned(n), 16);
    NoLeadingZero(Unsigned(n), 16);
  }

  // ----- The digit beyond the base -----

  /** A digit of the base. In bases up to ten fewer characters than the code takes. */
  predicate IsProperDigit(c: byte, radix: int)
  {
    IsDigit(c, radix) && (radix != 16 ==> c < ZERO + radix)
  }

  function ProperEnd(s: seq<byte>, radix: int, i: nat): (end: nat)
    requires i <= |s|
    ensures i <= end <= |s|
    decreases |s| - i
  {
    if i < |s| && IsProperDigit(s[i], radix) then ProperEnd(s, radix, i + 1) else i
  }

  /** The number a text denotes when only digits of the base are digits. */
  function ProperMeaning(s: seq<byte>, radix: int): int
  {
    var lo := FirstDigit(s);
    SignOf(s) * Value(s, radix, lo, ProperEnd(s, radix, lo))
  }

  /** The run of proper digits is followed by the character after the last digit. */
  predicate GoesBeyond(s: seq<byte>, radix: int)
  {
    var end := ProperEnd(s, radix, FirstDigit(s));
    radix != 16 && end < |s| && s[end] == ZERO + radix
  }

  /** The run of digits ends with the proper digits exactly if the character after
      them is not the one after the last digit of the base. */
  lemma {:induction false} ProperRun(s: seq<byte>, radix: int, i: nat)
    requires Radix(radix) && i <= |s|
    ensures var end := ProperEnd(s, radix, i);
            && end <= RunEnd(s, radix, i)
            && (RunEnd(s, radix, i) == end <==> radix == 16 || end == |s| || s[end] != ZERO + radix)
    decreases |s| - i
  {
    if i < |s| && IsProperDigit(s[i], radix) {
      ProperRun(s, radix, i + 1);
    }
  }

  lemma {:induction false} ValueOfMore(s: seq<byte>, radix: int, lo: nat, mid: nat, hi: nat)
    requires Radix(radix) && lo <= mid <= hi <= |s|
    requires forall k :: lo <= k < hi ==> IsDigit(s[k], radix)
    ensures 0 <= Value(s, radix, lo, mid) <= Value(s, radix, lo, hi)
    decreases hi - mid
  {
    if mid == hi {
      ValueGrows(s, radix, lo, lo, hi);
    } else {
      ValueOfMore(s, radix, lo, mid + 1, hi);
      ValueGrows(s, radix, lo, lo, mid);
      MulMonotone(1, radix, Value(s, radix, lo, mid));
    }
  }

  lemma ValueBeyond(s: seq<byte>, radix: int, lo: nat, end: nat, hi: nat)
    requires 2 <= radix <= 10 && lo <= end < hi <= |s| && s[end] == ZERO + radix
    requires forall k :: lo <= k < hi ==> IsDigit(s[k], radix)
    ensures 0 <= Value(s, radix, lo, end) < Value(s, radix, lo, hi)
  {
    ValueGrows(s, radix, lo, lo, end);
    ValueOfMore(s, radix, lo, end + 1, hi);
    OneMoreDigit(Value(s, radix, lo, end), radix);
  }

  lemma OneMoreDigit(v: int, radix: int)
    requires 0 <= v && 2 <= radix
    ensures v < v * radix + radix
  {
    MulMonotone(1, radix, v);
  }

  /** With such a character the magnitude that is read is larger than the proper one. */
  lemma BeyondIsMore(s: seq<byte>, radix: int)
    requires Radix(radix) && GoesBeyond(s, radix)
    ensures 0 <= SignOf(s) * ProperMeaning(s, radix) < SignOf(s) * Meaning(s, radix)
  {
    hide Value, IsDigit, RunEnd, ProperEnd;
    var lo := FirstDigit(s);
    ProperRun(s, radix, lo);
    ValueBeyond(s, radix, lo, ProperEnd(s, radix, lo), RunEnd(s, radix, lo));
  }

  /** What is read is what the digits of the base denote exactly if the character
      after them is not the one after the last digit. */
  lemma ProperMeaningIff(s: seq<byte>, radix: int)
    requires Radix(radix)
    ensures Meaning(s, radix) == ProperMeaning(s, radix) <==> !GoesBeyond(s, radix)
  {
    ProperRun(s, radix, FirstDigit(s));
    if GoesBeyond(s, radix) {
      BeyondIsMore(s, radix);
    }
  }

  lemma SameWord(x: int, m: int)
    requires FitsWord(m)
    ensures Wrap(x) == m <==> (x - m) % TWO32 == 0
  {
    var q := (x - m) / TWO32;
    assert x - m == q * TWO32 + (x - m) % TWO32;
    if (x - m) % TWO32 == 0 {
      WrapShift(m, q);
    } else if Wrap(x) == m {
      var k := WrapMultiple(x);
      DivModUnique(x - m, TWO32, -k, 0);
    }
  }

  /** Reading is right for the digits of the base, if they fit, exactly when the
      character after them is not the one after the last digit, or else by accident,
      when what the longer run denotes differs by a multiple of 2^32; and if they do
      not fit, exactly when the sign-bit test fires somewhere in the run. */
  lemma ParseProperIff(s: seq<byte>, radix: int)
    requires Radix(radix)
    ensures var lo := FirstDigit(s);
            var m := ProperMeaning(s, radix);
            var quiet := AllInLowerHalf(SignOf(s), s, radix, lo, RunEnd(s, radix, lo));
            Parse(s, radix) == Right(m) <==>
            if FitsWord(m) then !GoesBeyond(s, radix) || (quiet && (Meaning(s, radix) - m) % TWO32 == 0)
            else !quiet
  {
    hide Value, RunEnd, ProperEnd, AllInLowerHalf, SignFlips, GoesBeyond, Wrap;
    var lo := FirstDigit(s);
    var m := ProperMeaning(s, radix);
    LowerHalves(SignOf(s), s, radix, lo, RunEnd(s, radix, lo));
    ProperMeaningIff(s, radix);
    if FitsWord(m) {
      SameWord(Meaning(s, radix), m);
      if !GoesBeyond(s, radix) {
        ParseExact(s, radix);
      }
    }
  }

  /** Below 2^32 there are no accidents. */
  lemma ParseProperExact(s: seq<byte>, radix: int)
    requires Radix(radix) && -TWO32 < Meaning(s, radix) < TWO32
    ensures Parse(s, radix) == Right(ProperMeaning(s, radix)) <==>
            !GoesBeyond(s, radix) || !FitsWord(ProperMeaning(s, radix))
  {
    hide Parse, Meaning, ProperMeaning, GoesBeyond;
    ParseExact(s, radix);
    ProperMeaningIff(s, radix);
    if GoesBeyond(s, radix) {
      BeyondIsMore(s, radix);
    }
  }

  /** Such texts: in binary "2" is two, and in decimal "1:" is twenty. */
  lemma DigitBeyondBase(base: int)
    requires 2 <= base <= 10
    ensures Parse([ZERO + base], base) == Number(base) && ProperMeaning([ZERO + base], base) == 0
    ensures var s := [ZERO + 1, ZERO + base]; Parse(s, base) == Number(2 * base) && ProperMeaning(s, base) == 1
  {
    OneBeyond([ZERO + base], base, 0);
    OneBeyond([ZERO + 1, ZERO + base], base, 1);
  }

  lemma OneBeyond(s: seq<byte>, base: int, end: nat)
    requires 2 <= base <= 10 && end <= 1 && |s| == end + 1 && s[end] == ZERO + base && (end == 1 ==> s[0] == ZERO + 1)
    ensures Parse(s, base) == Number(end * base + base) && ProperMeaning(s, base) == end
  {
    hide Parse;
    WholeRun(s, base, 0);
    assert ProperEnd(s, base, end) == end;
    assert Value(s, base, 0, 0) == 0;
    assert Value(s, base, 0, end) == end;
    ParseExact(s, base);
  }

  // ----- Round trips -----

  lemma {:induction false} ValueOfPrefix(s: seq<byte>, t: seq<byte>, radix: int, shift: nat, lo: nat, hi: nat)
    requires lo <= hi <= |t| && hi + shift <= |s|
    requires forall k :: lo <= k < hi ==> s[k + shift] == t[k]
    ensures Value(s, radix, lo + shift, hi + shift) == Value(t, radix, lo, hi)
    decreases hi
  {
    if lo < hi {
      ValueOfPrefix(s, t, radix, shift, lo, hi - 1);
      assert s[(hi - 1) + shift] == t[hi - 1];
    }
  }

  /** Positional notation denotes the number it was made from. */
  lemma {:induction false} ValueOfNotation(n: nat, radix: int)
    requires Radix(radix)
    ensures var s := Notation(n, radix);
            Value(s, radix, 0, |s|) == n && forall k :: 0 <= k < |s| ==> IsDigit(s[k], radix)
    decreases n
  {
    var s := Notation(n, radix);
    if n < radix {
      assert Value(s, radix, 0, 0) == 0;
    } else {
      Shrinks(n, radix);
      ValueOfNotation(n / radix, radix);
      ValueAppend(Notation(n / radix, radix), DigitChar(n % radix), radix);
    }
  }

  lemma ValueAppend(t: seq<byte>, c: byte, radix: int)
    ensures var s := t + [c];
            Value(s, radix, 0, |s|) == Value(t, radix, 0, |t|) * radix + DigitValue(c)
  {
    ValueOfPrefix(t + [c], t, radix, 0, 0, |t|);
  }

  lemma {:induction false} WholeRun(s: seq<byte>, radix: int, i: nat)
    requires i <= |s| && forall k :: i <= k < |s| ==> IsDigit(s[k], radix)
    ensures RunEnd(s, radix, i) == |s|
    decreases |s| - i
  {
    if i < |s| {
      WholeRun(s, radix, i + 1);
    }
  }

  lemma MeaningOfSigned(digits: seq<byte>, radix: int, negative: bool)
    requires Radix(radix) && |digits| > 0
    requires forall k :: 0 <= k < |digits| ==> IsDigit(digits[k], radix)
    ensures var v := Value(digits, radix, 0, |digits|);
            Meaning(if negative then [MINUS] + digits else digits, radix) == if negative then -v else v
  {
    var s := if negative then [MINUS] + digits else digits;
    var shift := if negative then 1 else 0;
    assert forall k :: 0 <= k < |digits| ==> s[k + shift] == digits[k];
    assert forall k :: shift <= k < |s| ==> s[k] == digits[k - shift];
    WholeRun(s, radix, shift);
    ValueOfPrefix(s, digits, radix, shift, 0, |digits|);
  }

  /** Reading back a printed decimal gives the number, for every 32-bit integer. */
  lemma DecimalRoundTrip(n: int32)
    ensures Parse(Decimal(n), 10) == Number(n)
  {
    hide Notation, Parse;
    ValueOfNotation(Abs(n), 10);
    MeaningOfSigned(Notation(Abs(n), 10), 10, n < 0);
    ParseExact(Decimal(n), 10);
  }

  /** Hexadecimal is printed unsigned but read signed: the round trip is the
      identity on the non-negative numbers and an overflow on the others. */
  lemma HexadecimalRoundTrip(n: int32)
    ensures n >= 0 ==> Parse(Hexadecimal(n), 16) == Number(n)
    ensures n < 0 ==> Parse(Hexadecimal(n), 16) == TooBig
  {
    hide Notation, Parse;
    ValueOfNotation(Unsigned(n), 16);
    MeaningOfSigned(Notation(Unsigned(n), 16), 16, false);
    ParseExact(Hexadecimal(n), 16);
  }

  /** The two routines run one after the other. */
  method PrintThenRead(n: int32) returns (r: Parsed)
    ensures r == Number(n)
  {
    var buf := new byte[11];
    var count := DecToStr(n, buf);
    r := StrToInt32(buf[..count], 10);
    DecimalRoundTrip(n);
  }
}
