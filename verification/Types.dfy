/** The types of the language and the matching between them. Matching looks at
    structure and names; in an array a dynamic dimension on the left matches any
    dimension. Vectors of scalars match without a look at their dimensions. */
module Types {

  const DYNAMIC: int := -1

  datatype Scalar = ConstReal | ConstInteger | ConstByte | ConstString | Real | Integer | Byte | String | Void | LocalBuffer | TypeDef
  datatype Element = RealElement | IntegerElement | ByteElement | StringElement

  datatype Type =
    | Plain(scalar: Scalar)
    | Fn(fn: FnType)
    | Rec(rec: RecType)
    | Array(element: Element, dims: seq<int>)
    | Vector(element: Element, dims: seq<int>)
    | FnArray(isVector: bool, dims: seq<int>, fn: FnType)
    | RecArray(isVector: bool, dims: seq<int>, rec: RecType)

  datatype FnType = FnType(result: Type, params: seq<Type>)
  datatype RecType = RecType(name: string, alignment: nat, fields: seq<Field>)
  datatype Field = Field(name: string, fieldType: Type, alignment: nat, size: nat, vecDim: int)

  // ----- Matching -----

  predicate TypeEq(a: Type, b: Type)
    decreases a
  {
    match a
    case Plain(s) => b == a
    case Vector(e, dims) => b.Vector? && b.element == e
    case Array(e, dims) => b.Array? && b.element == e && DimsMatch(dims, b.dims)
    case Fn(f) => b.Fn? && FnMatch(f, b.fn)
    case Rec(r) => b.Rec? && RecMatch(r, b.rec)
    case FnArray(v, dims, f) => b.FnArray? && b.isVector == v && DimsMatch(dims, b.dims) && FnMatch(f, b.fn)
    case RecArray(v, dims, r) => b.RecArray? && b.isVector == v && DimsMatch(dims, b.dims) && RecMatch(r, b.rec)
  }

  predicate DimsMatch(a: seq<int>, b: seq<int>)
  {
    |a| == |b| && forall i :: 0 <= i < |a| ==> a[i] == DYNAMIC || a[i] == b[i]
  }

  predicate FnMatch(a: FnType, b: FnType)
    decreases a
  {
    && TypeEq(a.result, b.result)
    && |a.params| == |b.params|
    && forall i :: 0 <= i < |a.params| ==> TypeEq(a.params[i], b.params[i])
  }

  predicate RecMatch(a: RecType, b: RecType)
    decreases a
  {
    && a.name == b.name
    && |a.fields| == |b.fields|
    && forall i :: 0 <= i < |a.fields| ==>
         a.fields[i].name == b.fields[i].name && TypeEq(a.fields[i].fieldType, b.fields[i].fieldType)
  }

  // ----- Matching is a preorder -----

  lemma {:induction false} Reflexive(a: Type)
    ensures TypeEq(a, a)
    decreases a
  {
    match a {
      case Fn(f) => FnReflexive(f);
      case FnArray(v, dims, f) => FnReflexive(f);
      case Rec(r) => RecReflexive(r);
      case RecArray(v, dims, r) => RecReflexive(r);
      case _ =>
    }
  }

  lemma {:induction false} FnReflexive(f: FnType)
    ensures FnMatch(f, f)
    decreases f
  {
    Reflexive(f.result);
    forall i | 0 <= i < |f.params|
      ensures TypeEq(f.params[i], f.params[i])
    {
      Reflexive(f.params[i]);
    }
  }

  lemma {:induction false} RecReflexive(r: RecType)
    ensures RecMatch(r, r)
    decreases r
  {
    forall i | 0 <= i < |r.fields|
      ensures TypeEq(r.fields[i].fieldType, r.fields[i].fieldType)
    {
      Reflexive(r.fields[i].fieldType);
    }
  }

  lemma {:induction false} Transitive(a: Type, b: Type, c: Type)
    requires TypeEq(a, b) && TypeEq(b, c)
    ensures TypeEq(a, c)
    decreases a
  {
    match a {
      case Fn(f) => FnTransitive(f, b.fn, c.fn);
      case FnArray(v, dims, f) => FnTransitive(f, b.fn, c.fn);
      case Rec(r) => RecTransitive(r, b.rec, c.rec);
      case RecArray(v, dims, r) => RecTransitive(r, b.rec, c.rec);
      case _ =>
    }
  }

  lemma {:induction false} FnTransitive(a: FnType, b: FnType, c: FnType)
    requires FnMatch(a, b) && FnMatch(b, c)
    ensures FnMatch(a, c)
    decreases a
  {
    Transitive(a.result, b.result, c.result);
    forall i | 0 <= i < |a.params|
      ensures TypeEq(a.params[i], c.params[i])
    {
      Transitive(a.params[i], b.params[i], c.params[i]);
    }
  }

  lemma {:induction false} RecTransitive(a: RecType, b: RecType, c: RecType)
    requires RecMatch(a, b) && RecMatch(b, c)
    ensures RecMatch(a, c)
    decreases a
  {
    forall i | 0 <= i < |a.fields|
      ensures a.fields[i].name == c.fields[i].name && TypeEq(a.fields[i].fieldType, c.fields[i].fieldType)
    {
      Transitive(a.fields[i].fieldType, b.fields[i].fieldType, c.fields[i].fieldType);
    }
  }

  /** Matching is not symmetric: an array of any size matches one of four, not the
      other way round. */
  lemma NotSymmetric()
    ensures TypeEq(Array(IntegerElement, [DYNAMIC]), Array(IntegerElement, [3]))
    ensures !TypeEq(Array(IntegerElement, [3]), Array(IntegerElement, [DYNAMIC]))
  {
    assert !DimsMatch([3], [DYNAMIC]) by { assert [3][0] != [DYNAMIC][0]; }
  }

  // ----- What mutual matching means -----

  /** A type without what matching never looks at: the dimensions of vectors of
      scalars and the layout of fields. */
  function Shape(a: Type): Type
    decreases a
  {
    match a
    case Plain(s) => a
    case Vector(e, dims) => Vector(e, [])
    case Array(e, dims) => a
    case Fn(f) => Fn(FnShape(f))
    case Rec(r) => Rec(RecShape(r))
    case FnArray(v, dims, f) => FnArray(v, dims, FnShape(f))
    case RecArray(v, dims, r) => RecArray(v, dims, RecShape(r))
  }

  function FnShape(f: FnType): FnType
    decreases f
  {
    FnType(Shape(f.result), seq(|f.params|, i requires 0 <= i < |f.params| => Shape(f.params[i])))
  }

  function RecShape(r: RecType): RecType
    decreases r
  {
    RecType(r.name, 1, seq(|r.fields|, i requires 0 <= i < |r.fields| =>
      Field(r.fields[i].name, Shape(r.fields[i].fieldType), 1, 0, 0)))
  }

  lemma DimsBothWays(a: seq<int>, b: seq<int>)
    ensures DimsMatch(a, b) && DimsMatch(b, a) <==> a == b
  {}

  /** Two types match each other exactly when they have the same shape: in every
      array whose dimensions are compared the dimensions are then equal. */
  lemma {:induction false} MutualMatch(a: Type, b: Type)
    ensures TypeEq(a, b) && TypeEq(b, a) <==> Shape(a) == Shape(b)
    decreases a
  {
    match a {
      case Array(e, dims) => if b.Array? { DimsBothWays(dims, b.dims); }
      case Fn(f) => if b.Fn? { FnMutualMatch(f, b.fn); }
      case FnArray(v, dims, f) => if b.FnArray? { DimsBothWays(dims, b.dims); FnMutualMatch(f, b.fn); }
      case Rec(r) => if b.Rec? { RecMutualMatch(r, b.rec); }
      case RecArray(v, dims, r) => if b.RecArray? { DimsBothWays(dims, b.dims); RecMutualMatch(r, b.rec); }
      case _ =>
    }
  }

  lemma {:induction false} FnMutualMatch(a: FnType, b: FnType)
    ensures FnMatch(a, b) && FnMatch(b, a) <==> FnShape(a) == FnShape(b)
    decreases a
  {
    MutualMatch(a.result, b.result);
    if |a.params| == |b.params| {
      var s, t := FnShape(a).params, FnShape(b).params;
      forall i | 0 <= i < |a.params|
        ensures TypeEq(a.params[i], b.params[i]) && TypeEq(b.params[i], a.params[i]) <==> s[i] == t[i]
      {
        MutualMatch(a.params[i], b.params[i]);
      }
      assert s == t <==> forall i :: 0 <= i < |s| ==> s[i] == t[i];
    }
  }

  lemma {:induction false} RecMutualMatch(a: RecType, b: RecType)
    ensures RecMatch(a, b) && RecMatch(b, a) <==> RecShape(a) == RecShape(b)
    decreases a
  {
    if |a.fields| == |b.fields| {
      var s, t := RecShape(a).fields, RecShape(b).fields;
      forall i | 0 <= i < |a.fields|
        ensures (a.fields[i].name == b.fields[i].name
                 && TypeEq(a.fields[i].fieldType, b.fields[i].fieldType)
                 && TypeEq(b.fields[i].fieldType, a.fields[i].fieldType)) <==> s[i] == t[i]
      {
        MutualMatch(a.fields[i].fieldType, b.fields[i].fieldType);
      }
      assert s == t <==> forall i :: 0 <= i < |s| ==> s[i] == t[i];
    } else {
      assert |RecShape(a).fields| != |RecShape(b).fields|;
    }
  }

  // ----- What matching in one direction means -----

  function Zeros(n: nat): (z: seq<int>)
    ensures |z| == n
  {
    seq(n, i => 0)
  }

  /** The shape of a type with every dimension in it forgotten, but not how many
      there are. */
  function Blank(a: Type): Type
    decreases a
  {
    match a
    case Plain(s) => a
    case Vector(e, dims) => Vector(e, [])
    case Array(e, dims) => Array(e, Zeros(|dims|))
    case Fn(f) => Fn(FnBlank(f))
    case Rec(r) => Rec(RecBlank(r))
    case FnArray(v, dims, f) => FnArray(v, Zeros(|dims|), FnBlank(f))
    case RecArray(v, dims, r) => RecArray(v, Zeros(|dims|), RecBlank(r))
  }

  function FnBlank(f: FnType): FnType
    decreases f
  {
    FnType(Blank(f.result), seq(|f.params|, i requires 0 <= i < |f.params| => Blank(f.params[i])))
  }

  function RecBlank(r: RecType): RecType
    decreases r
  {
    RecType(r.name, 1, seq(|r.fields|, i requires 0 <= i < |r.fields| =>
      Field(r.fields[i].name, Blank(r.fields[i].fieldType), 1, 0, 0)))
  }

  /** The dimensions that matching compares, at any depth, from left to right. */
  function Dimensions(a: Type): seq<int>
    decreases a
  {
    match a
    case Plain(s) => []
    case Vector(e, dims) => []
    case Array(e, dims) => dims
    case Fn(f) => FnDimensions(f)
    case Rec(r) => FieldDimensions(r, |r.fields|)
    case FnArray(v, dims, f) => dims + FnDimensions(f)
    case RecArray(v, dims, r) => dims + FieldDimensions(r, |r.fields|)
  }

  function FnDimensions(f: FnType): seq<int>
    decreases f, |f.params| + 1
  {
    Dimensions(f.result) + ParamDimensions(f, |f.params|)
  }

  function ParamDimensions(f: FnType, n: nat): seq<int>
    requires n <= |f.params|
    decreases f, n
  {
    if n == 0 then [] else ParamDimensions(f, n - 1) + Dimensions(f.params[n - 1])
  }

  function FieldDimensions(r: RecType, n: nat): seq<int>
    requires n <= |r.fields|
    decreases r, n
  {
    if n == 0 then [] else FieldDimensions(r, n - 1) + Dimensions(r.fields[n - 1].fieldType)
  }

  /** Each number is the same, or free on the left. */
  predicate Fill(x: seq<int>, y: seq<int>)
  {
    |x| == |y| && forall i :: 0 <= i < |x| ==> x[i] == -1 || x[i] == y[i]
  }

  lemma FillParts(x: seq<int>, y: seq<int>, x': seq<int>, y': seq<int>)
    requires |x| == |y| && |x'| == |y'|
    ensures Fill(x + x', y + y') <==> Fill(x, y) && Fill(x', y')
  {
    var p, q := x + x', y + y';
    assert forall i :: 0 <= i < |x| ==> p[i] == x[i] && q[i] == y[i];
    assert forall i :: 0 <= i < |x'| ==> p[i + |x|] == x'[i] && q[i + |x|] == y'[i];
  }

  lemma DimsFill(a: seq<int>, b: seq<int>)
    ensures DimsMatch(a, b) <==> Zeros(|a|) == Zeros(|b|) && Fill(a, b)
    ensures Zeros(|a|) == Zeros(|b|) ==> |a| == |b|
  {}

  /** One type matches another exactly when they are the same but for dimensions,
      and each dimension of the first is -1 or that of the second, wherever
      dimensions are compared. */
  lemma {:induction false} MatchIff(a: Type, b: Type)
    ensures TypeEq(a, b) <==>
            && Blank(a) == Blank(b) && |Dimensions(a)| == |Dimensions(b)|
            && forall i :: 0 <= i < |Dimensions(a)| ==> Dimensions(a)[i] == -1 || Dimensions(a)[i] == Dimensions(b)[i]
    ensures Blank(a) == Blank(b) ==> |Dimensions(a)| == |Dimensions(b)|
    decreases a
  {
    assert Fill(Dimensions(a), Dimensions(b)) <==>
           && |Dimensions(a)| == |Dimensions(b)|
           && forall i :: 0 <= i < |Dimensions(a)| ==> Dimensions(a)[i] == -1 || Dimensions(a)[i] == Dimensions(b)[i];
    hide Fill, Zeros, DimsMatch;
    match a {
      case Plain(s) => NothingToFill();
      case Vector(e, dims) => NothingToFill();
      case Array(e, dims) => if b.Array? { DimsFill(dims, b.dims); }
      case Fn(f) => if b.Fn? { FnMatchIff(f, b.fn); }
      case Rec(r) => if b.Rec? { RecMatchIff(r, b.rec); }
      case FnArray(v, dims, f) =>
        if b.FnArray? {
          DimsFill(dims, b.dims);
          FnMatchIff(f, b.fn);
          if Blank(a) == Blank(b) { FillParts(dims, b.dims, FnDimensions(f), FnDimensions(b.fn)); }
        }
      case RecArray(v, dims, r) =>
        if b.RecArray? {
          DimsFill(dims, b.dims);
          RecMatchIff(r, b.rec);
          if Blank(a) == Blank(b) {
            FillParts(dims, b.dims, FieldDimensions(r, |r.fields|), FieldDimensions(b.rec, |b.rec.fields|));
          }
        }
    }
  }

  lemma NothingToFill()
    ensures Fill([], [])
  {}

  lemma {:induction false} FnMatchIff(a: FnType, b: FnType)
    ensures FnMatch(a, b) <==> FnBlank(a) == FnBlank(b) && Fill(FnDimensions(a), FnDimensions(b))
    ensures FnBlank(a) == FnBlank(b) ==> |FnDimensions(a)| == |FnDimensions(b)|
    decreases a
  {
    MatchIff(a.result, b.result);
    if |a.params| == |b.params| {
      var s, t := FnBlank(a).params, FnBlank(b).params;
      forall i | 0 <= i < |a.params|
        ensures TypeEq(a.params[i], b.params[i]) <==> s[i] == t[i] && Fill(Dimensions(a.params[i]), Dimensions(b.params[i]))
        ensures s[i] == t[i] ==> |Dimensions(a.params[i])| == |Dimensions(b.params[i])|
      {
        MatchIff(a.params[i], b.params[i]);
      }
      assert s == t <==> forall i :: 0 <= i < |s| ==> s[i] == t[i];
      if FnBlank(a) == FnBlank(b) {
        ParamsFill(a, b, |a.params|);
        FillParts(Dimensions(a.result), Dimensions(b.result), ParamDimensions(a, |a.params|), ParamDimensions(b, |b.params|));
      }
    } else {
      assert |FnBlank(a).params| != |FnBlank(b).params|;
    }
  }

  lemma {:induction false} ParamsFill(a: FnType, b: FnType, n: nat)
    requires n <= |a.params| == |b.params|
    requires forall i :: 0 <= i < n ==> |Dimensions(a.params[i])| == |Dimensions(b.params[i])|
    ensures |ParamDimensions(a, n)| == |ParamDimensions(b, n)|
    ensures Fill(ParamDimensions(a, n), ParamDimensions(b, n)) <==>
            forall i :: 0 <= i < n ==> Fill(Dimensions(a.params[i]), Dimensions(b.params[i]))
  {
    if n > 0 {
      ParamsFill(a, b, n - 1);
      FillParts(ParamDimensions(a, n - 1), ParamDimensions(b, n - 1),
                Dimensions(a.params[n - 1]), Dimensions(b.params[n - 1]));
    }
  }

  lemma {:induction false} RecMatchIff(a: RecType, b: RecType)
    ensures RecMatch(a, b) <==>
            RecBlank(a) == RecBlank(b) && Fill(FieldDimensions(a, |a.fields|), FieldDimensions(b, |b.fields|))
    ensures RecBlank(a) == RecBlank(b) ==> |FieldDimensions(a, |a.fields|)| == |FieldDimensions(b, |b.fields|)|
    decreases a
  {
    if |a.fields| == |b.fields| {
      var s, t := RecBlank(a).fields, RecBlank(b).fields;
      forall i | 0 <= i < |a.fields|
        ensures var x, y := a.fields[i], b.fields[i];
                && (x.name == y.name && TypeEq(x.fieldType, y.fieldType) <==>
                    s[i] == t[i] && Fill(Dimensions(x.fieldType), Dimensions(y.fieldType)))
                && (s[i] == t[i] ==> |Dimensions(x.fieldType)| == |Dimensions(y.fieldType)|)
      {
        MatchIff(a.fields[i].fieldType, b.fields[i].fieldType);
      }
      assert s == t <==> forall i :: 0 <= i < |s| ==> s[i] == t[i];
      if RecBlank(a) == RecBlank(b) {
        FieldsFill(a, b, |a.fields|);
      }
    } else {
      assert |RecBlank(a).fields| != |RecBlank(b).fields|;
    }
  }

  lemma {:induction false} FieldsFill(a: RecType, b: RecType, n: nat)
    requires n <= |a.fields| == |b.fields|
    requires forall i :: 0 <= i < n ==> |Dimensions(a.fields[i].fieldType)| == |Dimensions(b.fields[i].fieldType)|
    ensures |FieldDimensions(a, n)| == |FieldDimensions(b, n)|
    ensures Fill(FieldDimensions(a, n), FieldDimensions(b, n)) <==>
            forall i :: 0 <= i < n ==> Fill(Dimensions(a.fields[i].fieldType), Dimensions(b.fields[i].fieldType))
  {
    if n > 0 {
      FieldsFill(a, b, n - 1);
      FillParts(FieldDimensions(a, n - 1), FieldDimensions(b, n - 1),
                Dimensions(a.fields[n - 1].fieldType), Dimensions(b.fields[n - 1].fieldType));
    }
  }

  /** A shape is made of the two: what is left without dimensions, and the dimensions. */
  lemma ShapeIff(a: Type, b: Type)
    ensures Shape(a) == Shape(b) <==> Blank(a) == Blank(b) && Dimensions(a) == Dimensions(b)
  {
    MutualMatch(a, b);
    MatchIff(a, b);
    MatchIff(b, a);
  }

  /** Without a free dimension a type matches only types of its own shape. */
  lemma FixedMatch(a: Type, b: Type)
    requires -1 !in Dimensions(a)
    ensures TypeEq(a, b) <==> Shape(a) == Shape(b)
  {
    MatchIff(a, b);
    ShapeIff(a, b);
  }

  /** A match survives exactly the changes of dimensions that are free on the left. */
  lemma MatchSurvives(a: Type, b: Type, c: Type)
    requires TypeEq(a, b) && Blank(b) == Blank(c)
    ensures |Dimensions(a)| == |Dimensions(b)| == |Dimensions(c)|
    ensures TypeEq(a, c) <==> forall i :: 0 <= i < |Dimensions(a)| ==>
                                Dimensions(a)[i] == -1 || Dimensions(c)[i] == Dimensions(b)[i]
  {
    MatchIff(a, b);
    MatchIff(b, c);
    MatchIff(a, c);
  }

  /** What a match leaves no freedom in. */
  lemma MatchKeeps(a: Type, b: Type)
    requires TypeEq(a, b)
    ensures a.Plain? ==> a == b
    ensures a.Array? ==> b.Array? && a.element == b.element
    ensures a.Vector? ==> b.Vector? && a.element == b.element
    ensures a.Fn? ==> b.Fn? && |a.fn.params| == |b.fn.params|
    ensures a.FnArray? ==> b.FnArray? && a.isVector == b.isVector && |a.fn.params| == |b.fn.params|
    ensures a.RecArray? ==> b.RecArray? && a.isVector == b.isVector
    ensures a.Rec? ==> b.Rec?
    ensures a.Rec? || a.RecArray? ==>
              && a.rec.name == b.rec.name && |a.rec.fields| == |b.rec.fields|
              && forall i :: 0 <= i < |a.rec.fields| ==> a.rec.fields[i].name == b.rec.fields[i].name
  {}

  // ----- Types in memory -----

  datatype FieldInfo = FieldInfo(name: string, alignment: nat, size: nat, vecDim: int)

  /** The part of a type object that is copied as it is. */
  datatype Head =
    | PlainHead(scalar: Scalar)
    | ScalarsHead(isVector: bool, element: Element, dims: seq<int>)
    | FnHead
    | RecHead(name: string, alignment: nat, fields: seq<FieldInfo>)
    | FnArrayHead(isVector: bool, dims: seq<int>)
    | RecArrayHead(isVector: bool, dims: seq<int>, name: string, alignment: nat, fields: seq<FieldInfo>)

  /** How many types a type object owns: a function owns its result and its
      parameters, a record its field types. */
  predicate Fits(h: Head, n: nat)
  {
    match h
    case PlainHead(s) => n == 0
    case ScalarsHead(v, e, dims) => n == 0
    case FnHead => n > 0
    case RecHead(name, align, fields) => n == |fields|
    case FnArrayHead(v, dims) => n > 0
    case RecArrayHead(v, dims, name, align, fields) => n == |fields|
  }

  function Build(h: Head, parts: seq<Type>): Type
    requires Fits(h, |parts|)
  {
    match h
    case PlainHead(s) => Plain(s)
    case ScalarsHead(v, e, dims) => if v then Vector(e, dims) else Array(e, dims)
    case FnHead => Fn(FnType(parts[0], parts[1..]))
    case RecHead(name, align, fields) => Rec(BuildRec(name, align, fields, parts))
    case FnArrayHead(v, dims) => FnArray(v, dims, FnType(parts[0], parts[1..]))
    case RecArrayHead(v, dims, name, align, fields) => RecArray(v, dims, BuildRec(name, align, fields, parts))
  }

  function BuildRec(name: string, align: nat, fields: seq<FieldInfo>, parts: seq<Type>): RecType
    requires |parts| == |fields|
  {
    RecType(name, align, seq(|fields|, i requires 0 <= i < |fields| =>
      Field(fields[i].name, parts[i], fields[i].alignment, fields[i].size, fields[i].vecDim)))
  }

  class TypeObject {
    var head: Head
    var parts: seq<TypeObject>
    ghost var Repr: set<object>

    ghost predicate Valid()
      reads this, Repr
      decreases Repr
    {
      && this in Repr && Fits(head, |parts|)
      && forall i :: 0 <= i < |parts| ==>
           parts[i] in Repr && parts[i].Repr <= Repr && this !in parts[i].Repr && parts[i].Valid()
    }

    /** The type an object stands for. */
    ghost function Value(): Type
      requires Valid()
      reads this, Repr
      decreases Repr, |parts| + 1
    {
      Build(head, Values(|parts|))
    }

    ghost function Values(n: nat): (s: seq<Type>)
      requires Valid() && n <= |parts|
      reads this, Repr
      ensures |s| == n
      decreases Repr, n
    {
      if n == 0 then [] else Values(n - 1) + [parts[n - 1].Value()]
    }

    constructor (head: Head, parts: seq<TypeObject>, ghost owned: set<object>)
      requires Fits(head, |parts|)
      requires forall i :: 0 <= i < |parts| ==> parts[i].Valid() && parts[i].Repr <= owned
      ensures Valid() && this.head == head && this.parts == parts && Repr == {this} + owned
    {
      this.head, this.parts := head, parts;
      Repr := {this} + owned;
      new;
      forall i | 0 <= i < |parts|
        ensures parts[i].Repr <= Repr && parts[i] in Repr && this !in parts[i].Repr && parts[i].Valid()
      {
        assert parts[i] in parts[i].Repr;
      }
    }
  }

  lemma PartsValid(t: TypeObject)
    requires t.Valid()
    ensures Fits(t.head, |t.parts|)
    ensures forall i :: 0 <= i < |t.parts| ==> t.parts[i].Valid() && t.parts[i].Repr < t.Repr
  {}

  /** A deep copy stands for the same type and shares nothing with the original. */
  method InitCopy(src: TypeObject) returns (dst: TypeObject)
    requires src.Valid()
    ensures src.Valid() && dst.Valid() && fresh(dst.Repr)
    ensures dst.Value() == src.Value()
    decreases src.Repr
  {
    hide TypeObject.Value, TypeObject.Values, TypeObject.Valid, Fits;
    PartsValid(src);
    var copies: seq<TypeObject> := [];
    ghost var owned: set<object> := {};
    var i := 0;
    while i < |src.parts|
      invariant 0 <= i == |copies| <= |src.parts| && fresh(owned)
      invariant forall k :: 0 <= k < i ==> copies[k].Valid() && copies[k].Repr <= owned
      invariant forall k :: 0 <= k < i ==> copies[k].Value() == src.parts[k].Value()
    {
      var copy := InitCopy(src.parts[i]);
      copies := copies + [copy];
      owned := owned + copy.Repr;
      i := i + 1;
    }
    dst := new TypeObject(src.head, copies, owned);
    SameValue(src, dst);
  }

  lemma SameValue(a: TypeObject, b: TypeObject)
    requires a.Valid() && b.Valid() && a.head == b.head && |a.parts| == |b.parts|
    requires forall k :: 0 <= k < |a.parts| ==> a.parts[k].Value() == b.parts[k].Value()
    ensures a.Value() == b.Value()
  {
    SameValues(a, b, |a.parts|);
  }

  lemma {:induction false} SameValues(a: TypeObject, b: TypeObject, n: nat)
    requires a.Valid() && b.Valid() && n <= |a.parts| == |b.parts|
    requires forall k :: 0 <= k < n ==> a.parts[k].Value() == b.parts[k].Value()
    ensures a.Values(n) == b.Values(n)
  {
    if n > 0 {
      SameValues(a, b, n - 1);
    }
  }

  /** So a copy and its original match each other. */
  lemma CopyMatches(src: TypeObject, dst: TypeObject)
    requires src.Valid() && dst.Valid() && dst.Value() == src.Value()
    ensures TypeEq(src.Value(), dst.Value()) && TypeEq(dst.Value(), src.Value())
  {
    Reflexive(src.Value());
  }
}
