/** A set of small numbers kept as an array of 32-bit words, with its largest
    member cached. */
module Bitset {
  import opened Int32

  type word = x: int | 0 <= x < 0x1_0000_0000

  // ----- Words -----

  lemma {:induction false} AndNegative(x: int, y: int)
    ensures BitAnd(x, y) < 0 <==> x < 0 && y < 0
    decreases if x < 0 then -x else x
  {
    if x != 0 && x != -1 {
      AndNegative(x / 2, y / 2);
    }
  }

  function AndWord(x: word, y: word): word
  {
    Pow2Is32(); AndFits(x, y, 32); AndNegative(x, y);
    BitAnd(x, y)
  }

  function OrWord(x: word, y: word): word
  {
    Pow2Is32(); AndFits(BitNot(x), BitNot(y), 32); AndNegative(BitNot(x), BitNot(y));
    BitOr(x, y)
  }

  function NotWord(x: word): word { 0xffff_ffff - x }

  /** A one in place n. */
  function Flag(n: nat): word
    requires n < 32
  {
    Pow2Is32(); Pow2Monotone(n, 32);
    Pow2(n)
  }

  /** n ones from place lo upwards. */
  function Mask(lo: nat, n: nat): int { (Pow2(n) - 1) * Pow2(lo) }

  lemma {:induction false} OnesBits(n: nat, i: nat)
    ensures Bit(Pow2(n) - 1, i) <==> i < n
    decreases n
  {
    if n == 0 {
      BitConst(i);
    } else {
      BitHalve(Pow2(n) - 1, i);
      assert (Pow2(n) - 1) / 2 == Pow2(n - 1) - 1;
      if i > 0 {
        OnesBits(n - 1, i - 1);
      }
    }
  }

  lemma {:induction false} MaskBits(lo: nat, n: nat, i: nat)
    ensures Bit(Mask(lo, n), i) <==> lo <= i < lo + n
    decreases lo
  {
    if lo == 0 {
      OnesBits(n, i);
    } else {
      MaskDoubles(Pow2(n) - 1, Pow2(lo - 1));
      BitHalve(Mask(lo, n), i);
      if i > 0 {
        MaskBits(lo - 1, n, i - 1);
      }
    }
  }

  lemma MaskDoubles(x: int, p: int)
    ensures x * (2 * p) % 2 == 0 && x * (2 * p) / 2 == x * p
  {
    assert x * (2 * p) == 2 * (x * p);
  }

  lemma FlagBits(n: nat, i: nat)
    requires n < 32
    ensures Bit(Flag(n), i) <==> i == n
  {
    assert Pow2(1) == 2;
    MaskBits(n, 1, i);
  }

  lemma NotBits(x: word, i: nat)
    requires i < 32
    ensures Bit(NotWord(x), i) <==> !Bit(x, i)
  {
    BitOfNot(x, i);
    Pow2Add(32 - i, i);
    Pow2Is32();
    AddEven(BitNot(x), Pow2(32 - i), Pow2(i));
  }

  lemma AddEven(x: int, k: int, p: int)
    requires p > 0 && k % 2 == 0
    ensures (x + k * p) / p % 2 == x / p % 2
  {
    ModShift(x, k, p);
  }

  lemma {:induction false} SomeBit(x: int, n: nat) returns (i: nat)
    requires 0 < x < Pow2(n)
    ensures i < n && Bit(x, i)
    decreases n
  {
    if x % 2 == 1 {
      i := 0;
      BitHalve(x, 0);
    } else {
      i := SomeBit(x / 2, n - 1);
      i := i + 1;
      BitHalve(x, i);
    }
  }

  /** Masking tells whether a word has a bit in the masked places. */
  lemma MaskTest(w: word, lo: nat, n: nat)
    requires lo + n <= 32
    ensures BitAnd(Mask(lo, n), w) != 0 <==> exists i :: lo <= i < lo + n && Bit(w, i)
  {
    var m := Mask(lo, n);
    if BitAnd(m, w) != 0 {
      Pow2Is32();
      MaskFits(lo, n);
      AndFits(m, w, 32);
      AndNegative(m, w);
      var i := SomeBit(BitAnd(m, w), 32);
      BitOfAnd(m, w, i);
      MaskBits(lo, n, i);
    }
    if i: nat :| lo <= i < lo + n && Bit(w, i) {
      BitOfAnd(m, w, i);
      MaskBits(lo, n, i);
      BitConst(i);
    }
  }

  lemma MaskFits(lo: nat, n: nat)
    requires lo + n <= 32
    ensures 0 <= Mask(lo, n) < Pow2(32)
  {
    hide Pow2;
    Pow2Add(n, lo);
    if lo + n < 32 { Pow2Monotone(lo + n, 32); }
    OneLess(Pow2(n), Pow2(lo));
  }

  lemma OneLess(x: int, p: int)
    requires x > 0 && p > 0
    ensures 0 <= (x - 1) * p < x * p
  {
    MulMonotone(0, x - 1, p);
  }

  lemma NoBits(w: word, i: nat)
    requires w == 0
    ensures !Bit(w, i)
  {
    BitConst(i);
  }

  // ----- The set an array of words stands for -----

  predicate Has(b: seq<word>, i: int) { 0 <= i < 32 * |b| && Bit(b[i / 32], i % 32) }

  ghost function Members(b: seq<word>): set<int> { set i | 0 <= i < 32 * |b| && Has(b, i) }

  /** The largest member, or -1. */
  ghost predicate IsMax(b: seq<word>, m: int)
  {
    (m == -1 || Has(b, m)) && forall i :: Has(b, i) ==> i <= m
  }

  lemma HasUpdate(b: seq<word>, c: nat, w: word, i: int)
    requires c < |b|
    ensures Has(b[c := w], i) <==> if 0 <= i && i / 32 == c then Bit(w, i % 32) else Has(b, i)
  {}

  /** Word by word operations are set operations. */
  lemma AndResult(was: seq<word>, theirs: seq<word>, now: seq<word>, limit: nat)
    requires |now| == |was| && limit <= |was| && limit <= |theirs|
    requires forall j :: 0 <= j < limit ==> now[j] == AndWord(was[j], theirs[j])
    requires forall j :: limit <= j < |now| ==> now[j] == 0
    requires forall i :: Has(was, i) && Has(theirs, i) ==> i < 32 * limit
    ensures forall i :: Has(now, i) <==> Has(was, i) && Has(theirs, i)
  {
    forall i
      ensures Has(now, i) <==> Has(was, i) && Has(theirs, i)
    {
      if 0 <= i < 32 * |now| {
        var j := i / 32;
        if j < limit {
          BitOfAnd(was[j], theirs[j], i % 32);
        } else {
          NoBits(now[j], i % 32);
        }
      }
    }
  }

  lemma OrResult(was: seq<word>, theirs: seq<word>, now: seq<word>, limit: nat)
    requires |now| == |was| && limit <= |was| && limit <= |theirs|
    requires forall j :: 0 <= j < limit ==> now[j] == OrWord(was[j], theirs[j])
    requires forall j :: limit <= j < |now| ==> now[j] == was[j]
    requires forall i :: Has(theirs, i) ==> i < 32 * limit
    ensures forall i :: Has(now, i) <==> Has(was, i) || Has(theirs, i)
  {
    forall i
      ensures Has(now, i) <==> Has(was, i) || Has(theirs, i)
    {
      if 0 <= i < 32 * limit {
        BitOfOr(was[i / 32], theirs[i / 32], i % 32);
      }
    }
  }

  lemma SubResult(was: seq<word>, theirs: seq<word>, now: seq<word>, limit: nat)
    requires |now| == |was| && limit <= |was| && limit <= |theirs|
    requires forall j :: 0 <= j < limit ==> now[j] == AndWord(was[j], NotWord(theirs[j]))
    requires forall j :: limit <= j < |now| ==> now[j] == was[j]
    requires forall i :: Has(was, i) && Has(theirs, i) ==> i < 32 * limit
    ensures forall i :: Has(now, i) <==> Has(was, i) && !Has(theirs, i)
  {
    forall i
      ensures Has(now, i) <==> Has(was, i) && !Has(theirs, i)
    {
      if 0 <= i < 32 * limit {
        BitOfAnd(was[i / 32], NotWord(theirs[i / 32]), i % 32);
        NotBits(theirs[i / 32], i % 32);
      }
    }
  }

  lemma NotResult(was: seq<word>, now: seq<word>, limit: nat, left: nat)
    requires |now| == |was| && limit < |was| && left < 32
    requires forall j :: 0 <= j < limit ==> now[j] == NotWord(was[j])
    requires now[limit] == BitAnd(NotWord(was[limit]), Pow2(left) - 1)
    requires forall j :: limit < j < |now| ==> now[j] == was[j]
    requires forall i :: Has(was, i) ==> i < 32 * (limit + 1)
    ensures forall i :: Has(now, i) <==> 0 <= i < 32 * limit + left && !Has(was, i)
  {
    forall i
      ensures Has(now, i) <==> 0 <= i < 32 * limit + left && !Has(was, i)
    {
      if 0 <= i < 32 * |now| {
        var j := i / 32;
        if j < limit {
          NotBits(was[j], i % 32);
        } else if j == limit {
          NotBits(was[j], i % 32);
          BitOfAnd(NotWord(was[j]), Pow2(left) - 1, i % 32);
          OnesBits(left, i % 32);
          assert i == 32 * limit + i % 32;
        } else {
          assert !Has(was, i) && now[j] == was[j];
        }
      }
    }
  }

  /** The place of the highest bit of a word, found byte by byte and then bit by bit. */
  method TopBit(w: word) returns (top: nat)
    requires w != 0
    ensures top < 32 && Bit(w, top) && forall i :: top < i < 32 ==> !Bit(w, i)
  {
    hide Bit, BitAnd, Mask;
    Pow2Is32();
    ghost var some := SomeBit(w, 32);
    var byte := 4;
    while byte > 0
      invariant 0 < byte <= 4
      invariant forall i :: 8 * byte <= i < 32 ==> !Bit(w, i)
    {
      byte := byte - 1;
      MaskTest(w, byte * 8, 8);
      if BitAnd(Mask(byte * 8, 8), w) != 0 {
        break;
      }
      assert some < byte * 8;
    }
    var i := 8;
    ghost var last: nat :| byte * 8 <= last < byte * 8 + 8 && Bit(w, last);
    while i > 0
      invariant 0 < i <= 8 && last < byte * 8 + i
      invariant forall k :: byte * 8 + i <= k < 32 ==> !Bit(w, k)
    {
      i := i - 1;
      MaskTest(w, byte * 8 + i, 1);
      if BitAnd(Mask(byte * 8 + i, 1), w) != 0 {
        break;
      }
    }
    top := byte * 8 + i;
  }

  class BitSet {
    var bits: array<word>
    var maxValue: int

    ghost predicate Valid()
      reads this, bits
    {
      IsMax(bits[..], maxValue) && maxValue <= 0x7fff_ffff
    }

    ghost function Contents(): set<int>
      reads this, bits
    {
      Members(bits[..])
    }

    constructor ()
      ensures Valid() && Contents() == {} && fresh(bits)
    {
      bits := new word[0];
      maxValue := -1;
    }

    method Reset()
      modifies this, bits
      ensures Valid() && bits == old(bits) && Contents() == {}
    {
      maxValue := -1;
      var i := 0;
      while i < bits.Length
        invariant 0 <= i <= bits.Length && maxValue == -1 && bits == old(bits)
        invariant forall j :: 0 <= j < i ==> bits[j] == 0
      {
        bits[i] := 0;
        i := i + 1;
      }
      forall k
        ensures !Has(bits[..], k)
      {
        if 0 <= k < 32 * bits.Length { NoBits(bits[k / 32], k % 32); }
      }
    }

    /** Makes room for a bit. */
    method Ensure(bit: nat)
      modifies this`bits
      ensures bits == old(bits) || fresh(bits)
      ensures bit < 32 * old(bits.Length) ==> bits == old(bits)
      ensures bit < 32 * bits.Length && forall i :: Has(bits[..], i) <==> Has(old(bits[..]), i)
    {
      var needed := bit / 32 + 1;
      if needed <= bits.Length {
        return;
      }
      var newBits := new word[needed];
      var i := 0;
      while i < needed
        invariant 0 <= i <= needed && bits == old(bits) && bits[..] == old(bits[..])
        invariant forall j :: 0 <= j < i ==> newBits[j] == if j < bits.Length then bits[j] else 0
      {
        newBits[i] := if i < bits.Length then bits[i] else 0;
        i := i + 1;
      }
      bits := newBits;
      forall k
        ensures Has(bits[..], k) <==> Has(old(bits[..]), k)
      {
        if 32 * |old(bits[..])| <= k < 32 * needed { NoBits(bits[k / 32], k % 32); }
      }
    }

    /** Adds a member; a number that is no 32-bit index is refused. */
    method Set(bit: nat) returns (ok: bool)
      requires Valid()
      modifies this, bits
      ensures Valid() && (bits == old(bits) || fresh(bits))
      ensures ok <==> bit <= 0x7fff_ffff
      ensures Contents() == if ok then old(Contents()) + {bit} else old(Contents())
    {
      hide Bit, OrWord, Flag;
      if bit > 0x7fff_ffff {
        return false;
      }
      Ensure(bit);
      ghost var was := bits[..];
      var cell := bit / 32;
      var offset := bit - cell * 32;
      bits[cell] := OrWord(bits[cell], Flag(offset));
      assert bits[..] == was[cell := OrWord(was[cell], Flag(offset))];
      forall i
        ensures Has(bits[..], i) <==> Has(was, i) || i == bit
      {
        HasUpdate(was, cell, OrWord(was[cell], Flag(offset)), i);
        FlagAdds(was[cell], offset, i % 32);
      }
      if bit > maxValue {
        maxValue := bit;
      }
      ok := true;
    }

    method IsSet(bit: nat) returns (r: bool)
      requires Valid()
      ensures r <==> bit in Contents()
    {
      if bits.Length == 0 || bit > 0x7fff_ffff || bit > maxValue {
        return false;
      }
      var cell := bit / 32;
      var offset := bit - cell * 32;
      FlagTest(bits[cell], offset);
      r := BitAnd(bits[cell], Flag(offset)) != 0;
    }

    /** Finds the largest member again, knowing that there is none above a block. */
    method FindMax(block: nat)
      requires block < bits.Length && forall i :: Has(bits[..], i) ==> i < 32 * (block + 1)
      modifies this`maxValue
      ensures IsMax(bits[..], maxValue)
    {
      hide Bit;
      var b := block;
      while bits[b] == 0
        invariant 0 <= b < bits.Length && forall i :: Has(bits[..], i) ==> i < 32 * (b + 1)
        decreases b
      {
        forall i | Has(bits[..], i)
          ensures i < 32 * b
        {
          NoBits(bits[b], i % 32);
        }
        if b == 0 {
          maxValue := -1;
          return;
        }
        b := b - 1;
      }
      var top := TopBit(bits[b]);
      maxValue := b * 32 + top;
    }

    /** Removes a number from a set that is not empty. */
    method Clear(bit: nat)
      requires Valid() && Contents() != {}
      modifies this, bits
      ensures Valid() && bits == old(bits)
      ensures Contents() == old(Contents()) - {bit}
    {
      hide Bit, AndWord, NotWord, Flag;
      ghost var m :| m in Contents();
      if bit > maxValue {
        return;
      }
      ghost var was := bits[..];
      var cell := bit / 32;
      var offset := bit - cell * 32;
      bits[cell] := AndWord(bits[cell], NotWord(Flag(offset)));
      assert bits[..] == was[cell := AndWord(was[cell], NotWord(Flag(offset)))];
      forall i
        ensures Has(bits[..], i) <==> Has(was, i) && i != bit
      {
        HasUpdate(was, cell, AndWord(was[cell], NotWord(Flag(offset))), i);
        FlagRemoves(was[cell], offset, i % 32);
      }
      if bit == maxValue {
        FindMax(cell);
      }
    }

    /** A set is combined with another one, or with itself. */
    ghost predicate Apart(other: BitSet)
      reads this, other
    {
      other == this || other.bits != bits
    }

    method And(other: BitSet)
      requires Valid() && other.Valid() && Apart(other)
      modifies this, bits
      ensures Valid() && bits == old(bits)
      ensures Contents() == old(Contents()) * old(other.Contents())
    {
      hide Bit, AndWord;
      ghost var was, theirs := bits[..], other.bits[..];
      if maxValue < 0 {
        return;
      }
      var otherMax := other.maxValue;
      if otherMax < maxValue {
        maxValue := otherMax;
      }
      var limit := if maxValue >= 0 && otherMax >= 0 then maxValue / 32 + 1 else 0;
      AndWords(other, limit);
      AndResult(was, theirs, bits[..], limit);
      if limit > 0 {
        FindMax(limit - 1);
      }
    }

    /** Combines the words below the limit and clears the others. */
    method AndWords(other: BitSet, limit: nat)
      requires limit <= bits.Length && limit <= other.bits.Length && Apart(other)
      modifies bits
      ensures forall j :: 0 <= j < limit ==> bits[j] == AndWord(old(bits[j]), old(other.bits[j]))
      ensures forall j :: limit <= j < bits.Length ==> bits[j] == 0
    {
      hide AndWord;
      var i := 0;
      while i < limit
        invariant 0 <= i <= limit
        invariant forall j :: 0 <= j < i ==> bits[j] == AndWord(old(bits[j]), old(other.bits[j]))
        invariant forall j :: i <= j < bits.Length ==> bits[j] == old(bits[j])
        invariant forall j :: i <= j < other.bits.Length ==> other.bits[j] == old(other.bits[j])
      {
        bits[i] := AndWord(bits[i], other.bits[i]);
        i := i + 1;
      }
      while i < bits.Length
        invariant limit <= i <= bits.Length
        invariant forall j :: 0 <= j < limit ==> bits[j] == AndWord(old(bits[j]), old(other.bits[j]))
        invariant forall j :: limit <= j < i ==> bits[j] == 0
      {
        bits[i] := 0;
        i := i + 1;
      }
    }

    method Or(other: BitSet)
      requires Valid() && other.Valid() && Apart(other)
      modifies this, bits
      ensures Valid() && (bits == old(bits) || fresh(bits))
      ensures Contents() == old(Contents()) + old(other.Contents())
    {
      hide Bit, OrWord;
      ghost var theirs := other.bits[..];
      if other.maxValue < 0 {
        return;
      }
      Ensure(other.maxValue);
      ghost var was := bits[..];
      var limit := other.maxValue / 32 + 1;
      OrWords(other, limit);
      OrResult(was, theirs, bits[..], limit);
      if maxValue < other.maxValue {
        maxValue := other.maxValue;
      }
    }

    /** Combines the words below the limit. */
    method OrWords(other: BitSet, limit: nat)
      requires limit <= bits.Length && limit <= other.bits.Length && Apart(other)
      modifies bits
      ensures forall j :: 0 <= j < limit ==> bits[j] == OrWord(old(bits[j]), old(other.bits[j]))
      ensures forall j :: limit <= j < bits.Length ==> bits[j] == old(bits[j])
    {
      hide OrWord;
      var i := 0;
      while i < limit
        invariant 0 <= i <= limit
        invariant forall j :: 0 <= j < i ==> bits[j] == OrWord(old(bits[j]), old(other.bits[j]))
        invariant forall j :: i <= j < bits.Length ==> bits[j] == old(bits[j])
        invariant forall j :: i <= j < other.bits.Length ==> other.bits[j] == old(other.bits[j])
      {
        bits[i] := OrWord(bits[i], other.bits[i]);
        i := i + 1;
      }
    }

    /** The numbers below the largest member that were not in the set. */
    method Not()
      requires Valid()
      modifies this, bits
      ensures Valid() && bits == old(bits)
      ensures forall i :: i in Contents() <==> 0 <= i < old(maxValue) && i !in old(Contents())
    {
      hide Bit, NotWord, AndWord;
      if maxValue < 0 {
        return;
      }
      ghost var was := bits[..];
      var limit := maxValue / 32;
      var i := 0;
      while i < limit
        invariant 0 <= i <= limit < bits.Length
        invariant forall j :: 0 <= j < i ==> bits[j] == NotWord(was[j])
        invariant forall j :: i <= j < bits.Length ==> bits[j] == was[j]
        modifies bits
      {
        bits[i] := NotWord(bits[i]);
        i := i + 1;
      }
      var bitsLeft := maxValue - limit * 32;
      OnesFit(bitsLeft);
      bits[i] := AndWord(NotWord(bits[i]), Flag(bitsLeft) - 1);
      AndWordIs(NotWord(was[i]), Flag(bitsLeft) - 1);
      NotResult(was, bits[..], limit, bitsLeft);
      FindMax(limit);
    }

    method Sub(other: BitSet)
      requires Valid() && other.Valid() && Apart(other)
      modifies this, bits
      ensures Valid() && bits == old(bits)
      ensures Contents() == old(Contents()) - old(other.Contents())
    {
      hide Bit, AndWord, NotWord;
      ghost var was, theirs := bits[..], other.bits[..];
      var minMax := if maxValue <= other.maxValue then maxValue else other.maxValue;
      if minMax < 0 {
        return;
      }
      var limit := minMax / 32;
      var i := 0;
      while i < limit
        invariant 0 <= i <= limit < bits.Length && limit < |theirs|
        invariant forall j :: 0 <= j < i ==> bits[j] == AndWord(was[j], NotWord(theirs[j]))
        invariant forall j :: i <= j < bits.Length ==> bits[j] == was[j]
        invariant forall j :: i <= j < |theirs| ==> other.bits[j] == theirs[j]
        modifies bits
      {
        bits[i] := AndWord(bits[i], NotWord(other.bits[i]));
        i := i + 1;
      }
      bits[i] := AndWord(bits[i], NotWord(other.bits[i]));
      SubResult(was, theirs, bits[..], limit + 1);
      if maxValue <= other.maxValue {
        FindMax(limit);
      }
    }

    lemma MembersBelow()
      requires Valid()
      ensures forall k :: k in Contents() ==> 0 <= k <= maxValue
    {}

    /** How many members there are. */
    method Count() returns (count: nat)
      requires Valid()
      ensures count == |Contents()|
    {
      hide Members, IsMax;
      MembersBelow();
      count := 0;
      ghost var all := Contents();
      BeforeNone(all);
      if maxValue >= 0 {
        var i := 0;
        while i <= maxValue
          invariant 0 <= i <= maxValue + 1 && count == |Before(all, i)|
        {
          var member := IsSet(i);
          if member {
            BeforeMore(all, i);
            count := count + 1;
          }
          BeforeSame(all, i);
          i := i + 1;
        }
      }
      BeforeAll(all, maxValue + 1);
    }

    /** The members in increasing order. */
    method Values() returns (values: array<int>, count: nat)
      requires Valid()
      ensures fresh(values) && values.Length == count == |Contents()|
      ensures forall i, j :: 0 <= i < j < count ==> values[i] < values[j]
      ensures forall k :: k in values[..] <==> k in Contents()
    {
      hide Members, IsMax, Lists;
      MembersBelow();
      count := Count();
      ghost var all := Contents();
      values := new int[count];
      ghost var list: seq<int> := [];  // the members written so far
      ghost var seen: set<int> := {};
      ListsNothing();
      if count > 0 {
        var i, j := 0, 0;
        BeforeNone(all);
        while i <= maxValue
          invariant 0 <= i <= maxValue + 1 && j == |seen| == |list| <= count
          invariant Contents() == all && seen == Before(all, i)
          invariant Lists(list, seen)
          invariant forall a :: 0 <= a < j ==> values[a] == list[a]
        {
          var member := IsSet(i);
          if member {
            BeforeMore(all, i);
            ListsMore(list, seen, i);
            values[j] := i;
            j := j + 1;
            list := list + [i];
            seen := seen + {i};
          }
          BeforeSame(all, i);
          i := i + 1;
        }
      }
      BeforeAll(all, maxValue + 1);
      ListsAre(list, seen);
      assert values[..] == list;
    }
  }

  /** A list that names the members of a set in increasing order. */
  ghost predicate Lists(list: seq<int>, s: set<int>)
  {
    && (forall i, j :: 0 <= i < j < |list| ==> list[i] < list[j])
    && (forall k :: k in list <==> k in s)
  }

  ghost function Before(s: set<int>, i: int): set<int> { set k | k in s && k < i }

  lemma BeforeMore(s: set<int>, i: int)
    requires i in s
    ensures Before(s, i + 1) == Before(s, i) + {i} && |Before(s, i)| < |s|
    ensures |Before(s, i + 1)| == |Before(s, i)| + 1
    ensures forall k :: k in Before(s, i) ==> k < i
  {
    assert Before(s, i) <= s - {i};
    assert s - {i} == Before(s, i) + (s - {i} - Before(s, i));
  }

  lemma BeforeSame(s: set<int>, i: int)
    ensures i !in s ==> Before(s, i + 1) == Before(s, i)
  {}

  lemma BeforeNone(s: set<int>)
    requires forall k :: k in s ==> 0 <= k
    ensures Before(s, 0) == {}
  {}

  lemma BeforeAll(s: set<int>, i: int)
    requires forall k :: k in s ==> k < i
    ensures Before(s, i) == s
  {}

  lemma ListsNothing()
    ensures Lists([], {})
  {}

  lemma ListsAre(list: seq<int>, s: set<int>)
    requires Lists(list, s)
    ensures forall i, j :: 0 <= i < j < |list| ==> list[i] < list[j]
    ensures forall k :: k in list <==> k in s
  {}

  lemma ListsMore(list: seq<int>, s: set<int>, i: int)
    requires Lists(list, s) && forall k :: k in s ==> k < i
    ensures Lists(list + [i], s + {i})
  {
    assert forall a :: 0 <= a < |list| ==> list[a] in list;
  }

  lemma OnesFit(n: nat)
    requires n < 32
    ensures 0 <= Flag(n) - 1
    ensures Flag(n) == Pow2(n)
  {}

  lemma AndWordIs(x: word, y: word)
    ensures AndWord(x, y) == BitAnd(x, y)
  {}

  lemma FlagAdds(w: word, offset: nat, i: nat)
    requires offset < 32 && i < 32
    ensures Bit(OrWord(w, Flag(offset)), i) <==> Bit(w, i) || i == offset
  {
    BitOfOr(w, Flag(offset), i);
    FlagBits(offset, i);
  }

  lemma FlagRemoves(w: word, offset: nat, i: nat)
    requires offset < 32 && i < 32
    ensures Bit(AndWord(w, NotWord(Flag(offset))), i) <==> Bit(w, i) && i != offset
  {
    BitOfAnd(w, NotWord(Flag(offset)), i);
    NotBits(Flag(offset), i);
    FlagBits(offset, i);
  }

  lemma FlagTest(w: word, offset: nat)
    requires offset < 32
    ensures BitAnd(w, Flag(offset)) != 0 <==> Bit(w, offset)
  {
    assert Pow2(1) == 2;
    AndCommutes(w, Flag(offset));
    MaskTest(w, offset, 1);
  }
}
