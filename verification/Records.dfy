/** The layout of records: each field goes to the first multiple of its alignment
    after the field before it. Offsets are 32-bit unsigned numbers. */
module Records {
  import opened Int32
  import opened Types

  // ----- Alignments -----

  /** The bit trick that recognises powers of two. */
  lemma {:induction false} PowerTest(n: int)
    requires n > 0
    ensures BitAnd(n, n - 1) == 0 <==> IsPowerOfTwo(n)
    decreases n
  {
    if n == 1 {
      AndLeaf(1);
      assert Pow2(0) == 1;
    } else if n % 2 == 1 {
      OddHasLowBit(n);
    } else {
      PowerTest(n / 2);
      assert (n - 1) / 2 == n / 2 - 1 && (n - 1) % 2 == 1;
      assert BitAnd(n, n - 1) == 2 * BitAnd(n / 2, n / 2 - 1);
      if IsPowerOfTwo(n / 2) {
        var s: nat :| n / 2 == Pow2(s);
        assert n == Pow2(s + 1);
      }
      if IsPowerOfTwo(n) {
        var s: nat :| n == Pow2(s);
        assert s > 0 && n / 2 == Pow2(s - 1);
      }
    }
  }

  lemma OddHasLowBit(n: int)
    requires n > 1 && n % 2 == 1
    ensures BitAnd(n, n - 1) != 0 && !IsPowerOfTwo(n)
  {
    var m := BitAnd(n / 2, n / 2);
    AndSelf(n / 2);
    assert (n - 1) / 2 == n / 2 && (n - 1) % 2 == 0;
    assert BitAnd(n, n - 1) == 1 * 0 + 2 * m;
    forall s: nat
      ensures n != Pow2(s)
    {
      if s > 0 { assert Pow2(s) % 2 == 0; }
    }
  }

  lemma {:induction false} AndSelf(n: int)
    requires n >= 0
    ensures BitAnd(n, n) == n
    decreases n
  {
    if n > 0 {
      AndSelf(n / 2);
      var h := BitAnd(n / 2, n / 2);
      if n % 2 == 0 {
        assert BitAnd(n, n) == 0 * 0 + 2 * h;
      } else {
        assert BitAnd(n, n) == 1 * 1 + 2 * h;
      }
    }
  }

  // ----- Layout -----

  /** The first multiple of a at or after x. */
  function RoundUp(x: nat, a: nat): (r: nat)
    requires a > 0
  {
    if x % a == 0 then x else x + (a - x % a)
  }

  lemma NextMultiple(q: int, k: int, a: int)
    requires a > 0
    ensures (q + 1) * a == q * a + a
    ensures if k <= q then k * a <= q * a else q * a + a <= k * a
  {
    if k <= q {
      MulMonotone(k, q, a);
    } else {
      MulMonotone(q + 1, k, a);
    }
  }

  lemma RoundUpIsLeast(x: nat, a: nat, m: nat)
    requires a > 0
    ensures RoundUp(x, a) % a == 0 && x <= RoundUp(x, a) < x + a
    ensures x <= m && m % a == 0 ==> RoundUp(x, a) <= m
  {
    var q, k := x / a, m / a;
    assert x == q * a + x % a && m == k * a + m % a;
    NextMultiple(q, k, a);
    MultipleLeavesNothing(q + 1, a);
    assert RoundUp(x, a) == if x % a == 0 then x else (q + 1) * a;
  }

  lemma MultipleLeavesNothing(q: int, a: int)
    requires a > 0
    ensures (q * a) % a == 0
  {
    DivModUnique(q * a, a, q, 0);
  }

  predicate Aligned(fields: seq<Field>) { forall i :: 0 <= i < |fields| ==> fields[i].alignment > 0 }

  /** Where the first id fields end. */
  function End(fields: seq<Field>, id: nat): nat
    requires id <= |fields| && Aligned(fields)
  {
    if id == 0 then 0 else RoundUp(End(fields, id - 1), fields[id - 1].alignment) + fields[id - 1].size
  }

  function Offset(fields: seq<Field>, id: nat): nat
    requires id < |fields| && Aligned(fields)
  {
    RoundUp(End(fields, id), fields[id].alignment)
  }

  lemma {:induction false} EndGrows(fields: seq<Field>, i: nat, j: nat)
    requires i <= j <= |fields| && Aligned(fields)
    ensures End(fields, i) <= End(fields, j)
    decreases j
  {
    if i < j {
      EndGrows(fields, i, j - 1);
      RoundUpIsLeast(End(fields, j - 1), fields[j - 1].alignment, 0);
    }
  }

  /** A field lies at the least multiple of its alignment after the field before. */
  lemma OffsetIsLeast(fields: seq<Field>, id: nat, m: nat)
    requires id < |fields| && Aligned(fields)
    ensures Offset(fields, id) % fields[id].alignment == 0
    ensures id > 0 ==> Offset(fields, id) >= Offset(fields, id - 1) + fields[id - 1].size
    ensures m % fields[id].alignment == 0 && (id > 0 ==> m >= Offset(fields, id - 1) + fields[id - 1].size) ==>
              Offset(fields, id) <= m
  {
    RoundUpIsLeast(End(fields, id), fields[id].alignment, m);
  }

  /** No two fields share a byte. */
  lemma FieldsDisjoint(fields: seq<Field>, i: nat, j: nat)
    requires i < j < |fields| && Aligned(fields)
    ensures Offset(fields, i) + fields[i].size <= Offset(fields, j)
  {
    EndGrows(fields, i + 1, j);
    RoundUpIsLeast(End(fields, j), fields[j].alignment, 0);
  }

  /** Adding a field moves none of the others. */
  lemma {:induction false} AddingMovesNothing(fields: seq<Field>, f: Field, id: nat)
    requires Aligned(fields + [f]) && Aligned(fields) && id <= |fields|
    ensures End(fields + [f], id) == End(fields, id)
    ensures id < |fields| ==> Offset(fields + [f], id) == Offset(fields, id)
  {
    if id > 0 {
      AddingMovesNothing(fields, f, id - 1);
    }
  }

  // ----- Records -----

  datatype AddResult = Added | BadAlignment | AlreadyDefined

  class Record {
    const name: string
    var alignment: nat
    var fields: seq<Field>

    /** Field names differ, alignments are powers of two, and the alignment of the
        record is the largest. */
    ghost predicate Valid()
      reads this
    {
      && Aligned(fields)
      && (forall i :: 0 <= i < |fields| ==> IsPowerOfTwo(fields[i].alignment) && fields[i].alignment <= alignment)
      && (if fields == [] then alignment == 1
          else alignment == 1 || exists i :: 0 <= i < |fields| && fields[i].alignment == alignment)
      && forall i, j :: 0 <= i < j < |fields| ==> fields[i].name != fields[j].name
    }

    constructor (name: string)
      ensures Valid() && fields == [] && this.name == name
    {
      this.name, alignment, fields := name, 1, [];
    }

    /** The place of the field with a name. */
    method FindField(fname: string) returns (id: nat)
      ensures if id < |fields| then fields[id].name == fname
              else forall i :: 0 <= i < |fields| ==> fields[i].name != fname
      ensures id >= |fields| ==> id == |fields|
    {
      id := 0;
      while id < |fields|
        invariant 0 <= id <= |fields|
        invariant forall i :: 0 <= i < id ==> fields[i].name != fname
      {
        if fields[id].name == fname {
          return;
        }
        id := id + 1;
      }
    }

    /** Adds a field at the end; its alignment must be a power of two and its name
        new. */
    method AddField(fname: string, fieldType: Type, align: nat, size: nat, vecDim: int) returns (r: AddResult)
      requires Valid()
      modifies this
      ensures Valid()
      ensures r == if !IsPowerOfTwo(align) then BadAlignment
                   else if exists i :: 0 <= i < |old(fields)| && old(fields)[i].name == fname then AlreadyDefined
                   else Added
      ensures r != Added ==> fields == old(fields) && alignment == old(alignment)
      ensures r == Added ==> fields == old(fields) + [Field(fname, fieldType, align, size, vecDim)]
      ensures r == Added ==> forall id :: 0 <= id < |old(fields)| ==> Offset(fields, id) == Offset(old(fields), id)
    {
      hide Offset, End, BitAnd, Pow2;
      if align == 0 {
        ZeroIsNoPower();
        return BadAlignment;
      }
      PowerTest(align);
      if BitAnd(align, align - 1) != 0 {
        return BadAlignment;
      }
      var id := FindField(fname);
      if id < |fields| {
        return AlreadyDefined;
      }
      ghost var was := fields;
      ghost var f := Field(fname, fieldType, align, size, vecDim);
      fields := fields + [Field(fname, fieldType, align, size, vecDim)];
      if alignment < align {
        alignment := align;
        assert fields[|was|].alignment == alignment;
      } else if exists i :: 0 <= i < |was| && was[i].alignment == alignment {
        ghost var i :| 0 <= i < |was| && was[i].alignment == alignment;
        assert fields[i].alignment == alignment;
      }
      forall k | 0 <= k < |was|
        ensures Offset(fields, k) == Offset(was, k)
      {
        AddingMovesNothing(was, f, k);
      }
      r := Added;
    }

    /** The offset of a field, computed on 32-bit words with masks. */
    method FieldOffset(id: nat) returns (offset: nat)
      requires Valid() && id < |fields| && End(fields, id + 1) < TWO32
      ensures offset == Offset(fields, id)
    {
      hide RoundUp, End, Offset, Pow2, BitAnd;
      offset := 0;
      var i := 0;
      StartOfFields(fields);
      while i < id
        invariant 0 <= i <= id && offset == End(fields, i) < TWO32
      {
        NextEnd(fields, i, id + 1);
        offset := Align(offset, fields[i].alignment);
        offset := (offset + fields[i].size) % TWO32;
        i := i + 1;
      }
      NextEnd(fields, id, id + 1);
      offset := Align(offset, fields[i].alignment);
    }

    /** The size of the record: where its last field ends. */
    method Size() returns (size: nat)
      requires Valid() && End(fields, |fields|) < TWO32
      ensures size == End(fields, |fields|)
      ensures fields != [] ==> size == Offset(fields, |fields| - 1) + fields[|fields| - 1].size
    {
      if |fields| == 0 {
        return 0;
      }
      var id := |fields| - 1;
      var offset := FieldOffset(id);
      size := offset + fields[id].size;
    }
  }

  lemma ZeroIsNoPower()
    ensures !IsPowerOfTwo(0)
  {}

  lemma StartOfFields(fields: seq<Field>)
    requires Aligned(fields)
    ensures End(fields, 0) == 0
  {}

  lemma NextEnd(fields: seq<Field>, i: nat, n: nat)
    requires i < n <= |fields| && Aligned(fields) && End(fields, n) < TWO32
    ensures Offset(fields, i) == RoundUp(End(fields, i), fields[i].alignment)
    ensures End(fields, i + 1) == Offset(fields, i) + fields[i].size < TWO32
  {
    EndGrows(fields, i + 1, n);
  }

  lemma MaskIsRemainder(offset: nat, align: nat)
    requires align > 0 && IsPowerOfTwo(align)
    ensures BitAnd(offset, align - 1) == offset % align
    ensures 0 <= offset % align < align
    ensures offset % align != 0 ==> RoundUp(offset, align) == offset + (align - offset % align)
    ensures offset % align == 0 ==> RoundUp(offset, align) == offset
  {
    var s: nat :| align == Pow2(s);
    AndMask(offset, s);
  }

  /** Rounding up with a mask. */
  method Align(offset: nat, align: nat) returns (r: nat)
    requires align > 0 && IsPowerOfTwo(align) && RoundUp(offset, align) < TWO32
    ensures r == RoundUp(offset, align)
  {
    hide BitAnd, IsPowerOfTwo;
    MaskIsRemainder(offset, align);
    var adjust := BitAnd(offset, align - 1);
    r := offset;
    if adjust != 0 {
      r := (r + (align - adjust)) % TWO32;
    }
  }
}
