/** Descriptors of strings, string arrays and string vectors, and the reference
    counts of the heap blocks they share.

    A descriptor says how many bytes it covers, where they start, which heap
    block they lie in and how large that block was when it was allocated. Copies
    and slices of an array share its block. The block of an array holds string
    descriptors, sixteen bytes apart, and they have to be released exactly when
    the last descriptor of the array goes. */
module ArrayRefs {

  const STRING_SIZE: int := 16

  datatype Kind = Text | Array | Vector
  datatype Desc = Desc(size: int, data: int, heap: int, orig: int, dim: int)
  datatype Block = Block(size: int, refs: int)

  // ----- The invariant -----

  /** Variables live at negative addresses, the heap at the others. A box is the
      block of an array; a hole is the place of an element that has been
      released and not yet replaced. */
  datatype Snapshot = Snapshot(
    blocks: map<int, Block>,
    memory: map<int, Desc>,
    live: set<int>,
    kinds: map<int, Kind>,
    boxes: set<int>,
    holes: set<int>)

  /** The live non-empty descriptors that name a block. */
  ghost function Names(s: Snapshot, b: int): set<int>
  {
    set a | a in s.live && a in s.memory && s.memory[a].size != 0 && s.memory[a].heap == b
  }

  ghost predicate IsElement(s: Snapshot, b: int, a: int)
  {
    b in s.boxes && b in s.blocks && b <= a < b + s.blocks[b].size && (a - b) % STRING_SIZE == 0
  }

  ghost function KindOf(s: Snapshot, a: int): Kind
  {
    if a < 0 && a in s.kinds then s.kinds[a] else Text
  }

  /** The data lies inside the block, and the descriptor knows the block's size. */
  ghost predicate Window(s: Snapshot, d: Desc, k: Kind)
  {
    d.size > 0
    && d.heap in s.blocks
    && d.orig == s.blocks[d.heap].size
    && d.heap <= d.data && d.data + d.size <= d.heap + d.orig
    && (d.heap in s.boxes <==> k != Text)
    && (k != Text ==> d.size == STRING_SIZE * (d.dim + 1) && (d.data - d.heap) % STRING_SIZE == 0)
  }

  ghost predicate Sound(s: Snapshot, d: Desc, k: Kind)
  {
    if d.size == 0 then k != Array && (k == Vector ==> d.dim == -1) else Window(s, d, k)
  }

  ghost predicate Counted(s: Snapshot, b: int)
  {
    b in s.blocks
    && b >= 0 && s.blocks[b].size > 0
    && (b in s.boxes ==> s.blocks[b].size % STRING_SIZE == 0)
    && s.blocks[b].refs == |Names(s, b)| > 0
  }

  predicate Apart(b: int, m: int, c: int, n: int) { b + m <= c || c + n <= b }

  ghost predicate Inv(s: Snapshot)
  {
    && s.live <= s.memory.Keys
    && s.boxes <= s.blocks.Keys
    && s.holes !! s.live
    && (forall a :: a in s.live && a < 0 ==> a in s.kinds)
    && (forall b, a :: IsElement(s, b, a) ==> a >= 0 && (a in s.live || a in s.holes))
    && (forall a :: a in s.live && a >= 0 ==> exists b :: IsElement(s, b, a))
    && (forall a :: a in s.holes ==> a >= 0 && exists b :: IsElement(s, b, a))
    && (forall a :: a in s.live ==> Sound(s, s.memory[a], KindOf(s, a)))
    && (forall b :: b in s.blocks ==> Counted(s, b))
    && (forall b, c :: b in s.blocks && c in s.blocks && b != c ==>
          Apart(b, s.blocks[b].size, c, s.blocks[c].size))
  }

  // ----- The three steps that change which descriptors are live -----

  function Referenced(blocks: map<int, Block>, d: Desc): map<int, Block>
  {
    if d.size != 0 && d.heap in blocks then blocks[d.heap := Block(blocks[d.heap].size, blocks[d.heap].refs + 1)]
    else blocks
  }

  function Dereferenced(blocks: map<int, Block>, d: Desc): map<int, Block>
  {
    if d.size == 0 || d.heap !in blocks then blocks
    else if blocks[d.heap].refs > 1 then blocks[d.heap := Block(blocks[d.heap].size, blocks[d.heap].refs - 1)]
    else blocks - {d.heap}
  }

  /** A new descriptor for a variable, or for an element that is a hole. */
  lemma AddDescriptor(s: Snapshot, a: int, d: Desc, k: Kind, t: Snapshot)
    requires Inv(s) && a !in s.live && Sound(s, d, k)
    requires a >= 0 ==> a in s.holes && k == Text
    requires t == Snapshot(Referenced(s.blocks, d), s.memory[a := d], s.live + {a},
                           if a < 0 then s.kinds[a := k] else s.kinds, s.boxes, s.holes - {a})
    ensures Inv(t)
  {
    hide Counted, Names, IsElement, Sound, Apart;
    forall b | b in t.blocks
      ensures Counted(t, b)
    {
      SoundHeap(s, d, k);
      CountAfterAdd(s, a, d, t, b);
    }
    forall x | x in t.live
      ensures Sound(t, t.memory[x], KindOf(t, x))
    {
      SameSizes(s, t, if x == a then d else s.memory[x], KindOf(t, x));
    }
    SameElements(s, t);
  }

  lemma CountAfterAdd(s: Snapshot, a: int, d: Desc, t: Snapshot, b: int)
    requires b in s.blocks && Counted(s, b) && a !in s.live && s.live <= s.memory.Keys
    requires d.size != 0 ==> d.heap in s.blocks
    requires t.blocks == Referenced(s.blocks, d) && t.memory == s.memory[a := d] && t.live == s.live + {a}
    requires t.boxes == s.boxes
    ensures Counted(t, b)
  {
    if d.size != 0 && b == d.heap {
      assert Names(t, b) == Names(s, b) + {a};
    } else {
      assert Names(t, b) == Names(s, b);
    }
  }

  lemma SoundHeap(s: Snapshot, d: Desc, k: Kind)
    requires Sound(s, d, k)
    ensures d.size != 0 ==> d.heap in s.blocks
  {}

  /** Whether a descriptor is sound depends only on the sizes and the sort of the blocks. */
  lemma SameSizes(s: Snapshot, t: Snapshot, d: Desc, k: Kind)
    requires Sound(s, d, k)
    requires d.size != 0 && d.heap in s.blocks ==>
               d.heap in t.blocks && t.blocks[d.heap].size == s.blocks[d.heap].size
    requires d.heap in s.boxes <==> d.heap in t.boxes
    ensures Sound(t, d, k)
  {}

  /** A descriptor goes, without being the last one of an array. */
  lemma RemoveDescriptor(s: Snapshot, a: int, t: Snapshot)
    requires Inv(s) && a in s.live
    requires var d := s.memory[a];
             d.size == 0 || KindOf(s, a) == Text || (d.heap in s.blocks && s.blocks[d.heap].refs > 1)
    requires t == s.(blocks := Dereferenced(s.blocks, s.memory[a]), live := s.live - {a},
                     holes := if a < 0 then s.holes else s.holes + {a})
    ensures Inv(t)
    ensures forall b :: b in t.blocks <==> b in s.blocks && Names(t, b) != {}
    ensures forall b :: b in t.blocks ==> t.blocks[b].size == s.blocks[b].size
    ensures forall b :: b in s.boxes ==> b in t.blocks && (KindOf(s, a) == Text ==> t.blocks[b] == s.blocks[b])
  {
    hide Counted, Names, IsElement, Sound, Apart;
    forall b | b in s.blocks
      ensures b in t.blocks ==> Counted(t, b)
      ensures b in t.blocks <==> Names(t, b) != {}
    {
      CountAfterRemove(s, a, t, b);
    }
    BoxStays(s, a);
    forall x | x in t.live
      ensures Sound(t, t.memory[x], KindOf(t, x))
    {
      NamedStays(s, t, x);
      SameSizes(s, t, s.memory[x], KindOf(t, x));
    }
    SameElements(s, t);
  }

  lemma BoxStays(s: Snapshot, a: int)
    requires Inv(s) && a in s.live
    requires var d := s.memory[a];
             d.size == 0 || KindOf(s, a) == Text || (d.heap in s.blocks && s.blocks[d.heap].refs > 1)
    ensures var d := s.memory[a];
            d.size != 0 && d.heap in s.boxes ==> KindOf(s, a) != Text && s.blocks[d.heap].refs > 1
  {
    assert Sound(s, s.memory[a], KindOf(s, a));
  }

  lemma NamedStays(s: Snapshot, t: Snapshot, x: int)
    requires x in t.live && x in t.memory && t.memory == s.memory
    requires s.blocks.Keys >= t.blocks.Keys
    requires forall b :: b in s.blocks ==> (b in t.blocks <==> Names(t, b) != {})
    requires forall b :: b in t.blocks ==> t.blocks[b].size == s.blocks[b].size
    ensures s.memory[x].size != 0 && s.memory[x].heap in s.blocks ==> s.memory[x].heap in t.blocks
  {
    assert s.memory[x].size != 0 ==> x in Names(t, s.memory[x].heap);
  }

  lemma CountAfterRemove(s: Snapshot, a: int, t: Snapshot, b: int)
    requires Inv(s) && a in s.live && b in s.blocks
    requires t.blocks == Dereferenced(s.blocks, s.memory[a]) && t.live == s.live - {a}
    requires t.memory == s.memory && t.boxes == s.boxes
    ensures b in t.blocks ==> Counted(t, b)
    ensures b in t.blocks <==> Names(t, b) != {}
  {
    var d := s.memory[a];
    assert Counted(s, b);
    if d.size != 0 && b == d.heap {
      assert a in Names(s, b);
      assert Names(t, b) == Names(s, b) - {a};
      assert |Names(t, b)| == s.blocks[b].refs - 1;
    } else {
      assert Names(t, b) == Names(s, b);
    }
  }

  /** The last descriptor of an array goes, with its block, once every element is a hole. */
  lemma RemoveBox(s: Snapshot, v: int, t: Snapshot)
    requires Inv(s) && v in s.live && v < 0
    requires s.memory[v].size != 0 && KindOf(s, v) != Text
    requires s.memory[v].heap in s.blocks && s.blocks[s.memory[v].heap].refs == 1
    requires forall x :: x in s.holes <==> IsElement(s, s.memory[v].heap, x)
    requires var b := s.memory[v].heap;
             t == s.(blocks := s.blocks - {b}, live := s.live - {v}, boxes := s.boxes - {b}, holes := {})
    ensures Inv(t)
    ensures forall b :: b in t.blocks <==> b in s.blocks && Names(t, b) != {}
  {
    var gone := s.memory[v].heap;
    assert Counted(s, gone);
    assert v in Names(s, gone);
    OnlyName(Names(s, gone), v);
    assert Names(t, gone) == {} by { assert Names(t, gone) <= Names(s, gone) - {v}; }
    forall b | b in t.blocks
      ensures Counted(t, b)
    {
      assert Counted(s, b);
      assert Names(t, b) == Names(s, b);
    }
    forall x | x in t.live
      ensures Sound(t, t.memory[x], KindOf(t, x))
    {
      assert Sound(s, s.memory[x], KindOf(s, x));
      assert t.memory[x].size != 0 ==> x in Names(t, t.memory[x].heap);
    }
    forall b, x | IsElement(t, b, x)
      ensures x >= 0 && x in t.live
    {
      assert IsElement(s, b, x);
      OneBox(s, b, gone, x);
    }
    forall x | x in t.live && x >= 0
      ensures exists b :: IsElement(t, b, x)
    {
      var b :| IsElement(s, b, x);
      assert IsElement(t, b, x);
    }
  }

  lemma OneBox(s: Snapshot, b: int, c: int, x: int)
    requires Inv(s) && b != c && IsElement(s, b, x)
    ensures !IsElement(s, c, x)
  {}

  lemma OnlyName(names: set<int>, v: int)
    requires |names| == 1 && v in names
    ensures names == {v}
  {
    assert |names - {v}| == 0;
  }

  /** A new block, named by one new variable. The block of an array starts with
      empty strings. */
  lemma AddBlock(s: Snapshot, v: int, b: int, d: Desc, k: Kind, cells: set<int>, t: Snapshot)
    requires Inv(s) && v < 0 && v !in s.live && s.holes == {}
    requires b >= 0 && d.size > 0 && Fresh(s, b, d.size)
    requires d.data == d.heap == b && d.orig == d.size
    requires k != Text ==> d.size == STRING_SIZE * (d.dim + 1)
    requires forall x :: x in cells <==> k != Text && b <= x < b + d.size && (x - b) % STRING_SIZE == 0
    requires t.blocks == s.blocks[b := Block(d.size, 1)]
    requires t.live == s.live + {v} + cells && t.kinds == s.kinds[v := k] && t.holes == {}
    requires t.boxes == if k == Text then s.boxes else s.boxes + {b}
    requires t.live <= t.memory.Keys && t.memory[v] == d
    requires forall x :: x in s.live ==> x in cells || t.memory[x] == s.memory[x]
    requires forall x :: x in cells ==> t.memory[x].size == 0
    ensures Inv(t) && cells !! s.live
  {
    hide Counted, Names, Sound, Apart;
    forall x | x in cells
      ensures x !in s.live
    {
      NotLive(s, b, d.size, x);
    }
    forall c | c in t.blocks
      ensures Counted(t, c)
    {
      CountAfterBlock(s, v, b, d, cells, t, c);
    }
    forall x | x in t.live
      ensures Sound(t, t.memory[x], KindOf(t, x))
    {
      SoundAfterBlock(s, v, b, d, k, cells, t, x);
    }
    ElementsAfterBlock(s, b, d.size, k, cells, t);
    forall c | c in s.blocks
      ensures Apart(b, d.size, c, s.blocks[c].size) && Apart(c, s.blocks[c].size, b, d.size)
    {
      ApartBothWays(b, d.size, c, s.blocks[c].size);
    }
  }

  /** The allocator hands out space that no block uses. */
  ghost predicate Fresh(s: Snapshot, b: int, n: int)
  {
    b !in s.blocks && forall c :: c in s.blocks ==> Apart(b, n, c, s.blocks[c].size)
  }

  lemma ApartBothWays(b: int, m: int, c: int, n: int)
    ensures Apart(b, m, c, n) == Apart(c, n, b, m)
  {}

  lemma NotLive(s: Snapshot, b: int, n: int, x: int)
    requires Inv(s) && Fresh(s, b, n) && 0 <= b <= x < b + n
    ensures x !in s.live
  {
    forall c | IsElement(s, c, x)
      ensures Apart(b, n, c, s.blocks[c].size)
    {}
  }

  lemma CountAfterBlock(s: Snapshot, v: int, b: int, d: Desc, cells: set<int>, t: Snapshot, c: int)
    requires Inv(s) && v !in s.live && b !in s.blocks && c in t.blocks
    requires b >= 0 && d.size > 0 && d.heap == b && (b in t.boxes ==> d.size % STRING_SIZE == 0)
    requires t.blocks == s.blocks[b := Block(d.size, 1)] && (forall e :: e != b ==> (e in t.boxes <==> e in s.boxes))
    requires t.live == s.live + {v} + cells && t.live <= t.memory.Keys && t.memory[v] == d
    requires forall x :: x in s.live ==> t.memory[x] == s.memory[x]
    requires forall x :: x in cells ==> t.memory[x].size == 0
    ensures Counted(t, c)
  {
    if c == b {
      NoNames(s, b);
      forall x | x in Names(t, b)
        ensures x == v
      {
        assert x in s.live ==> x in Names(s, b);
      }
      assert v in Names(t, b);
      assert Names(t, b) == {v};
    } else {
      assert Counted(s, c);
      forall x
        ensures x in Names(t, c) <==> x in Names(s, c)
      {}
      assert Names(t, c) == Names(s, c);
    }
  }

  lemma SoundAfterBlock(s: Snapshot, v: int, b: int, d: Desc, k: Kind, cells: set<int>, t: Snapshot, x: int)
    requires Inv(s) && v < 0 && v !in s.live && b !in s.blocks && x in t.live
    requires d.size > 0 && d.data == d.heap == b && d.orig == d.size
    requires k != Text ==> d.size == STRING_SIZE * (d.dim + 1)
    requires forall y :: y in cells ==> y >= 0
    requires t.blocks == s.blocks[b := Block(d.size, 1)] && t.kinds == s.kinds[v := k]
    requires t.boxes == if k == Text then s.boxes else s.boxes + {b}
    requires t.live == s.live + {v} + cells && t.live <= t.memory.Keys && t.memory[v] == d
    requires forall y :: y in s.live ==> t.memory[y] == s.memory[y]
    requires forall y :: y in cells ==> t.memory[y].size == 0
    ensures Sound(t, t.memory[x], KindOf(t, x))
  {
    if x in s.live {
      assert Sound(s, s.memory[x], KindOf(s, x));
    }
  }

  lemma ElementsAfterBlock(s: Snapshot, b: int, n: int, k: Kind, cells: set<int>, t: Snapshot)
    requires Inv(s) && s.holes == {} && b !in s.blocks && b >= 0
    requires forall x :: x in cells <==> k != Text && b <= x < b + n && (x - b) % STRING_SIZE == 0
    requires t.blocks.Keys == s.blocks.Keys + {b} && t.blocks[b].size == n
    requires forall c :: c in s.blocks ==> t.blocks[c] == s.blocks[c]
    requires s.live + cells <= t.live && (forall x :: x in t.live && x >= 0 ==> x in s.live + cells)
    requires t.boxes == if k == Text then s.boxes else s.boxes + {b}
    ensures forall c, x :: IsElement(t, c, x) ==> x >= 0 && x in t.live
    ensures forall x :: x in t.live && x >= 0 ==> exists c :: IsElement(t, c, x)
  {
    forall c, x | IsElement(t, c, x)
      ensures x >= 0 && x in t.live
    {
      if c != b { assert IsElement(s, c, x); }
    }
    forall x | x in t.live && x >= 0
      ensures exists c :: IsElement(t, c, x)
    {
      if x in cells {
        assert IsElement(t, b, x);
      } else {
        var c :| IsElement(s, c, x);
        assert IsElement(t, c, x);
      }
    }
  }

  lemma NoNames(s: Snapshot, b: int)
    requires Inv(s) && b !in s.blocks
    ensures Names(s, b) == {}
  {
    forall a | a in s.live
      ensures s.memory[a].size != 0 ==> s.memory[a].heap != b
    {
      assert Sound(s, s.memory[a], KindOf(s, a));
    }
  }

  lemma SameElements(s: Snapshot, t: Snapshot)
    requires Inv(s) && s.boxes == t.boxes
    requires forall b :: b in s.boxes ==> b in t.blocks && t.blocks[b].size == s.blocks[b].size
    ensures forall b, a :: IsElement(s, b, a) <==> IsElement(t, b, a)
    ensures forall a :: a in s.live && a >= 0 ==> exists b :: IsElement(t, b, a)
    ensures forall a :: a in s.holes ==> exists b :: IsElement(t, b, a)
  {
    forall a | (a in s.live && a >= 0) || a in s.holes
      ensures exists b :: IsElement(t, b, a)
    {
      var b :| IsElement(s, b, a);
      assert IsElement(t, b, a);
    }
  }

  /** When no variable holds anything, nothing is left on the heap. */
  lemma NothingLeft(s: Snapshot)
    requires Inv(s) && s.holes == {}
    requires forall a :: a in s.live && a < 0 ==> s.memory[a].size == 0
    ensures s.blocks == map[]
  {
    forall a | a in s.live
      ensures s.memory[a].size != 0 ==> a >= 0 && s.memory[a].heap !in s.boxes
    {
      assert Sound(s, s.memory[a], KindOf(s, a));
    }
    forall b
      ensures b !in s.boxes
    {
      if b in s.blocks {
        HasName(s, b);
        assert b in s.boxes ==> Names(s, b) == {};
      }
    }
    forall b
      ensures b !in s.blocks
    {
      assert forall a :: a in s.live && a >= 0 ==> exists c :: IsElement(s, c, a);
      assert Names(s, b) == {};
      if b in s.blocks {
        HasName(s, b);
      }
    }
  }

  lemma HasName(s: Snapshot, b: int)
    requires Inv(s) && b in s.blocks
    ensures Names(s, b) != {}
  {
    assert Counted(s, b);
  }

  // ----- Releasing the elements of an array -----

  /** The elements of a block below the counter are released, the others are not. */
  ghost predicate Releasing(start: Snapshot, now: Snapshot, data: int, counter: int)
  {
    && Inv(now) && now.memory == start.memory && now.kinds == start.kinds && now.boxes == start.boxes
    && (forall x :: x in now.holes <==> IsElement(start, data, x) && x < counter)
    && now.live == start.live - now.holes
    && (forall b :: b in start.boxes && b in start.blocks ==> b in now.blocks && now.blocks[b] == start.blocks[b])
    && (forall b :: b in now.blocks <==> b in start.blocks && Names(now, b) != {})
  }

  lemma ReleaseStart(start: Snapshot, data: int)
    requires Inv(start) && start.holes == {}
    ensures Releasing(start, start, data, data)
  {
    forall b | b in start.blocks
      ensures Names(start, b) != {}
    {
      HasName(start, b);
    }
  }

  lemma ReleaseStep(start: Snapshot, s: Snapshot, t: Snapshot, data: int, counter: int)
    requires Inv(start) && Releasing(start, s, data, counter) && IsElement(start, data, counter)
    requires counter in s.memory && counter in s.live && KindOf(s, counter) == Text && counter >= 0
    requires t == s.(blocks := Dereferenced(s.blocks, s.memory[counter]), live := s.live - {counter},
                     holes := s.holes + {counter})
    ensures Releasing(start, t, data, counter + STRING_SIZE)
  {
    hide Inv, Names, Dereferenced, IsElement, KindOf;
    RemoveDescriptor(s, counter, t);
    NextElement(start, data, counter);
    assert t.live == start.live - t.holes;
    forall b | b in start.blocks
      ensures b in t.blocks <==> b in start.blocks && Names(t, b) != {}
    {
      NamesShrink(s, t, b);
    }
  }

  lemma NextElement(s: Snapshot, data: int, counter: int)
    requires IsElement(s, data, counter)
    ensures forall x :: IsElement(s, data, x) ==> (x < counter + STRING_SIZE <==> x < counter || x == counter)
  {}

  lemma VariableStays(start: Snapshot, now: Snapshot, data: int, counter: int, v: int)
    requires Inv(start) && Releasing(start, now, data, counter) && v in start.live && v < 0
    ensures v in now.live
  {}

  lemma AllHoles(start: Snapshot, now: Snapshot, data: int, counter: int)
    requires Inv(start) && Releasing(start, now, data, counter) && data in start.boxes && data in start.blocks
    requires counter >= data + start.blocks[data].size
    ensures forall x :: x in now.holes <==> IsElement(start, data, x)
    ensures forall x :: x in now.holes <==> IsElement(now, data, x)
  {}

  lemma NamesShrink(s: Snapshot, t: Snapshot, b: int)
    requires t.memory == s.memory && t.live <= s.live
    ensures Names(t, b) <= Names(s, b)
  {}

  // ----- The history of elements -----

  ghost function OnHeap(live: set<int>): set<int> { set a | a in live && a >= 0 }

  /** Every element made so far has been released once or is still live. An address
      counts once for each array that has had an element there. */
  ghost predicate Balanced(made: multiset<int>, released: seq<int>, live: set<int>)
  {
    made == multiset(released) + multiset(OnHeap(live))
  }

  lemma ReleaseKeepsBalance(made: multiset<int>, released: seq<int>, live: set<int>, a: int)
    requires Balanced(made, released, live) && a in live && a >= 0
    ensures Balanced(made, released + [a], live - {a})
  {
    assert OnHeap(live) == OnHeap(live - {a}) + {a};
  }

  lemma VariablesKeepBalance(made: multiset<int>, released: seq<int>, live: set<int>, v: int)
    requires Balanced(made, released, live) && v < 0
    ensures Balanced(made, released, live + {v}) && Balanced(made, released, live - {v})
  {
    assert OnHeap(live + {v}) == OnHeap(live) == OnHeap(live - {v});
  }

  lemma MakingKeepsBalance(made: multiset<int>, released: seq<int>, live: set<int>, v: int, cells: set<int>)
    requires Balanced(made, released, live) && v < 0 && cells !! live && forall a :: a in cells ==> a >= 0
    ensures Balanced(made + multiset(cells), released, live + {v} + cells)
  {
    assert OnHeap(live + {v} + cells) == OnHeap(live) + cells;
  }

  /** When the heap is empty every element has been released exactly once. */
  lemma AllReleased(s: Snapshot, made: multiset<int>, released: seq<int>)
    requires Inv(s) && s.blocks == map[] && Balanced(made, released, s.live)
    ensures multiset(released) == made
  {
    assert OnHeap(s.live) == {};
  }

  // ----- The machine -----

  /** Done, an error the program can handle, or an assertion of the machine. */
  datatype Outcome = Done | Failed | Crashed

  /** The places of n elements from b on. */
  function Stride(b: int, n: nat): (s: seq<int>)
    ensures |s| == n && forall i :: 0 <= i < n ==> s[i] == b + 16 * i
  {
    seq(n, i => b + STRING_SIZE * i)
  }

  lemma StrideStep(b: int, n: nat)
    ensures Stride(b, n + 1) == Stride(b, n) + [b + STRING_SIZE * n]
    ensures Stride(b, 0) == []
  {}

  /** The descriptor d covers what e covers. */
  predicate SameTarget(d: Desc, e: Desc, k: Kind)
  {
    d.size == e.size
    && (e.size != 0 || k == Array ==> d.data == e.data && d.heap == e.heap && d.orig == e.orig)
    && (k != Text ==> d.dim == e.dim)
  }

  lemma SameTargetIsSound(s: Snapshot, d: Desc, e: Desc, k: Kind)
    requires Sound(s, e, k) && SameTarget(d, e, k)
    ensures Sound(s, d, k)
    ensures Referenced(s.blocks, d) == Referenced(s.blocks, e)
  {}

  lemma EmptyIsSound(s: Snapshot, d: Desc, k: Kind)
    requires d.size == 0 && k != Array && (k == Vector ==> d.dim == -1)
    ensures Sound(s, d, k) && Referenced(s.blocks, d) == s.blocks
  {}

  lemma LiveHasMemory(s: Snapshot)
    requires Inv(s)
    ensures s.live <= s.memory.Keys
  {}

  lemma LiveIsSound(s: Snapshot, a: int)
    requires Inv(s) && a in s.live
    ensures a in s.memory && Sound(s, s.memory[a], KindOf(s, a))
    ensures s.memory[a].size != 0 ==> s.memory[a].heap in s.blocks
    ensures KindOf(s, a) == Array ==> s.memory[a].size != 0
  {}

  /** A slice of a sound descriptor stays within its window. */
  lemma SliceIsSound(s: Snapshot, d: Desc, e: Desc, index1: int, index2: int, k: Kind)
    requires Sound(s, e, k) && k != Text
    requires 0 <= index1 <= index2 <= e.dim + 1 && (k == Array ==> index1 < index2)
    requires d.size == (index2 - index1) * STRING_SIZE && d.orig == e.orig && d.dim == index2 - index1 - 1
    requires d.size != 0 ==> d.data == e.data + index1 * STRING_SIZE && d.heap == e.heap
    ensures Sound(s, d, k) && (d.size != 0 ==> e.size != 0 && d.heap in s.blocks)
  {}

  /** The live descriptor at e has been replaced by one that covers what d covers. */
  ghost predicate Stored(before: Snapshot, after: Snapshot, e: int, d: Desc)
  {
    && e in before.memory && e in after.memory && after.live == before.live
    && after.memory == before.memory[e := after.memory[e]] && SameTarget(after.memory[e], d, Text)
    && after.blocks == Referenced(Dereferenced(before.blocks, before.memory[e]), d)
  }

  /** Clears the descriptors at the given addresses. */
  function ZeroFill(m: map<int, Desc>, cells: set<int>): (r: map<int, Desc>)
    ensures r.Keys == m.Keys + cells
    ensures forall a :: a in cells ==> r[a].size == 0
    ensures forall a :: a in m && a !in cells ==> r[a] == m[a]
  {
    m + map a | a in cells :: Desc(0, 0, 0, 0, 0)
  }

  lemma CellsAreNew(s: Snapshot, b: int, n: int, cells: set<int>)
    requires Inv(s) && Fresh(s, b, n) && forall x :: x in cells ==> 0 <= b <= x < b + n
    ensures cells !! s.live
  {
    forall x | x in cells
      ensures x !in s.live
    {
      NotLive(s, b, n, x);
    }
  }

  /** The places of the elements of an array whose last index is dim. */
  function Cells(b: int, dim: nat): set<int>
  {
    set i | 0 <= i <= dim :: b + STRING_SIZE * i
  }

  lemma CellsOfBlock(b: int, dim: nat)
    ensures forall x :: x in Cells(b, dim) <==> b <= x < b + STRING_SIZE * (dim + 1) && (x - b) % STRING_SIZE == 0
    ensures forall i :: 0 <= i <= dim ==> b + STRING_SIZE * i in Cells(b, dim)
  {
    forall x | b <= x < b + STRING_SIZE * (dim + 1) && (x - b) % STRING_SIZE == 0
      ensures x in Cells(b, dim)
    {
      var i := (x - b) / STRING_SIZE;
      assert x == b + STRING_SIZE * i && 0 <= i <= dim;
    }
  }

  lemma ArrayAllocated(s: Snapshot, v: int, k: Kind, dim: nat, at: int, d: Desc, t: Snapshot)
    requires Inv(s) && s.holes == {} && v < 0 && v !in s.live && k != Text
    requires at >= 0 && Fresh(s, at, d.size)
    requires d == Desc(STRING_SIZE * (dim + 1), at, at, STRING_SIZE * (dim + 1), dim)
    requires t == Snapshot(s.blocks[at := Block(d.size, 1)], ZeroFill(s.memory[v := d], Cells(at, dim)),
                           s.live + {v} + Cells(at, dim), s.kinds[v := k], s.boxes + {at}, {})
    ensures Inv(t) && t.memory[v] == d
    ensures forall a :: a in Cells(at, dim) ==> a in t.live && a in t.memory && t.memory[a].size == 0
    ensures forall a :: a in s.live ==> a in t.live && t.memory[a] == s.memory[a]
  {
    hide Inv, Fresh, ZeroFill, Cells;
    LiveHasMemory(s);
    CellsOfBlock(at, dim);
    CellsAreNew(s, at, d.size, Cells(at, dim));
    AddBlock(s, v, at, d, k, Cells(at, dim), t);
    LiveHasMemory(t);
  }

  lemma ArrayBalanced(s: Snapshot, v: int, dim: nat, at: int, made: multiset<int>, released: seq<int>)
    requires Inv(s) && v < 0 && at >= 0 && Fresh(s, at, STRING_SIZE * (dim + 1)) && Balanced(made, released, s.live)
    ensures Balanced(made + multiset(Cells(at, dim)), released, s.live + {v} + Cells(at, dim))
  {
    hide Inv, Fresh, Balanced, Cells;
    CellsOfBlock(at, dim);
    CellsAreNew(s, at, STRING_SIZE * (dim + 1), Cells(at, dim));
    MakingKeepsBalance(made, released, s.live, v, Cells(at, dim));
  }

  ghost function Places(variables: seq<(int, Kind)>, n: nat): set<int>
  {
    set i | n <= i < |variables| :: variables[i].0
  }

  lemma PlacesStep(variables: seq<(int, Kind)>, n: nat)
    requires n < |variables|
    ensures forall a :: a in Places(variables, n) ==> a == variables[n].0 || a in Places(variables, n + 1)
  {}

  lemma PlacesEnd(variables: seq<(int, Kind)>)
    ensures Places(variables, |variables|) == {}
  {}

  class Machine {
    var blocks: map<int, Block>
    var memory: map<int, Desc>
    ghost var live: set<int>
    ghost var kinds: map<int, Kind>
    ghost var boxes: set<int>
    ghost var holes: set<int>
    ghost var released: seq<int>   // the elements released so far, in order
    ghost var made: multiset<int>  // the elements of all arrays made so far

    constructor ()
      ensures Valid() && live == {} && blocks == map[] && released == [] && made == multiset{}
    {
      blocks, memory, live, kinds, boxes, holes, released := map[], map[], {}, map[], {}, {}, [];
      made := multiset{};
    }

    ghost function View(): Snapshot
      reads this
    {
      Snapshot(blocks, memory, live, kinds, boxes, holes)
    }

    ghost predicate Valid()
      reads this
    {
      Inv(View()) && holes == {} && Balanced(made, released, live)
    }

    /** A live descriptor, seen by the compiler as one of the given kind. */
    ghost predicate Holds(a: int, k: Kind)
      reads this
    {
      a in live && a in memory && KindOf(View(), a) == k
    }

    /** The only name of its block. */
    ghost predicate Last(a: int)
      reads this
    {
      a in memory && memory[a].size != 0 && memory[a].heap in blocks && blocks[memory[a].heap].refs == 1
    }

    ghost function Elements(b: int): set<int>
      reads this
    {
      set a | a in live && IsElement(View(), b, a)
    }

    /** What memory holds, also where nothing has been stored yet. */
    function Load(a: int): Desc
      reads this
    {
      if a in memory then memory[a] else Desc(0, 0, 0, 0, 0)
    }

    // ----- Instructions -----

    method Ref(b: int) returns (ok: bool)
      modifies this`blocks
      ensures ok <==> b in old(blocks)
      ensures blocks == if ok then old(blocks)[b := Block(old(blocks)[b].size, old(blocks)[b].refs + 1)] else old(blocks)
    {
      ok := b in blocks;
      if ok {
        blocks := blocks[b := Block(blocks[b].size, blocks[b].refs + 1)];
      }
    }

    method Deref(b: int) returns (ok: bool)
      modifies this`blocks
      ensures ok <==> b in old(blocks) && old(blocks)[b].refs != 0
      ensures !ok ==> blocks == old(blocks)
      ensures ok && old(blocks)[b].refs > 1 ==>
                blocks == old(blocks)[b := Block(old(blocks)[b].size, old(blocks)[b].refs - 1)]
      ensures ok && old(blocks)[b].refs <= 1 ==> blocks == old(blocks) - {b}
    {
      ok := b in blocks && blocks[b].refs != 0;
      if ok {
        if blocks[b].refs > 1 {
          blocks := blocks[b := Block(blocks[b].size, blocks[b].refs - 1)];
        } else {
          blocks := blocks - {b};
        }
      }
    }

    /** Drops the reference a descriptor holds, if it holds one. */
    method DerefIfNotEmpty(a: int) returns (ok: bool)
      requires a in memory
      modifies this`blocks
      ensures ok <==> memory[a].size == 0 || (memory[a].heap in old(blocks) && old(blocks)[memory[a].heap].refs != 0)
      ensures ok && (forall b :: b in old(blocks) ==> old(blocks)[b].refs > 0) ==>
                blocks == Dereferenced(old(blocks), memory[a])
    {
      ok := true;
      if memory[a].size != 0 {
        ok := Deref(memory[a].heap);
      }
    }

    // ----- Descriptors come and go -----

    /** Releases every element of a block. The block is known not to be empty. */
    method DerefElements(data: int, size: int, ghost v: int) returns (ok: bool)
      requires Valid() && v in live && v < 0 && KindOf(View(), v) != Text && Last(v)
      requires data == memory[v].heap && size == memory[v].orig
      modifies this`blocks, this`live, this`holes, this`released
      ensures ok && Inv(View()) && Balanced(made, released, live)
      ensures forall x :: x in holes <==> IsElement(View(), data, x)
      ensures live == old(live) - old(Elements(data))
      ensures released == old(released) + Stride(data, size / STRING_SIZE)
      ensures v in live && data in blocks && blocks[data] == old(blocks[data])
      ensures forall b :: b in blocks <==> b in old(blocks) && Names(View(), b) != {}
    {
      hide Inv, Balanced, Dereferenced, Names, KindOf, Stride;
      ghost var start := View();
      BoxOf(start, v);
      ReleaseStart(start, data);
      var counter := data;
      var dataEnd := counter + size;
      ghost var round := 0;
      var more := true;
      ok := true;
      StrideStep(data, 0);
      while more
        invariant ok && Releasing(start, View(), data, counter) && Balanced(made, released, live)
        invariant counter == data + STRING_SIZE * round && data <= counter <= dataEnd
        invariant more <==> counter < dataEnd
        invariant released == old(released) + Stride(data, round)
        decreases dataEnd - counter
      {
        ghost var before := View();
        assert IsElement(start, data, counter);
        ElementReady(before, data, counter);
        ok := DerefIfNotEmpty(counter);
        ReleaseKeepsBalance(made, released, live, counter);
        live := live - {counter};
        holes := holes + {counter};
        released := released + [counter];
        ReleaseStep(start, before, View(), data, counter);
        StrideStep(data, round);
        counter := counter + STRING_SIZE;
        round := round + 1;
        more := counter < dataEnd;
      }
      assert size / STRING_SIZE == round;
      VariableStays(start, View(), data, counter, v);
      AllHoles(start, View(), data, counter);
    }

    /** Releases the elements of an array and its block with its last descriptor. */
    method ReleaseArray(v: int) returns (ok: bool)
      requires Valid() && v in live && v < 0 && KindOf(View(), v) != Text && Last(v)
      modifies this`blocks, this`live, this`holes, this`boxes, this`released
      ensures ok && Valid() && live == old(live) - {v} - old(Elements(memory[v].heap))
      ensures released == old(released) + Stride(memory[v].heap, memory[v].orig / STRING_SIZE)
      ensures forall b :: b in blocks <==> b in old(blocks) && Names(View(), b) != {}
      ensures memory[v].heap !in blocks && boxes == old(boxes) - {memory[v].heap}
    {
      hide Inv, Balanced, Names, IsElement, Stride;
      DescriptorReady(View(), v);
      var offset := memory[v].heap;
      ok := DerefElements(offset, memory[v].orig, v);
      ghost var middle := View();
      var ok2 := Deref(offset);
      ok := ok && ok2;
      VariablesKeepBalance(made, released, live, v);
      live, boxes, holes := live - {v}, boxes - {offset}, {};
      RemoveBox(middle, v, View());
      forall b
        ensures Names(View(), b) <= Names(middle, b)
      {
        NamesShrink(middle, View(), b);
      }
    }

    /** Drops the reference an array descriptor holds, releasing the elements
        first when it is the last one. */
    method DerefArrayElements(v: int) returns (ok: bool)
      requires Valid() && v < 0 && (Holds(v, Array) || Holds(v, Vector))
      modifies this`blocks, this`live, this`holes, this`boxes, this`released
      ensures ok && Valid()
      ensures live == old(live) - {v} - (if old(Last(v)) then old(Elements(memory[v].heap)) else {})
      ensures released == old(released) + (if old(Last(v)) then Stride(memory[v].heap, memory[v].orig / STRING_SIZE) else [])
      ensures forall b :: b in blocks <==> b in old(blocks) && Names(View(), b) != {}
      ensures old(Last(v)) ==> memory[v].heap !in blocks && boxes == old(boxes) - {memory[v].heap}
      ensures !old(Last(v)) ==> blocks == Dereferenced(old(blocks), memory[v]) && boxes == old(boxes)
    {
      hide Inv, Balanced, Names, IsElement, Stride, Elements;
      ghost var start := View();
      DescriptorReady(start, v);
      var size := memory[v].size;
      var offset := memory[v].heap;
      if size != 0 && blocks[offset].refs == 1 {
        ok := ReleaseArray(v);
        return;
      }
      ok := true;
      if size != 0 {
        ok := Deref(offset);
      }
      VariablesKeepBalance(made, released, live, v);
      live := live - {v};
      RemoveDescriptor(start, v, View());
    }

    // ----- Operations -----

    /** Allocates the block of an array and fills it with empty strings. */
    method AllocateArray(v: int, k: Kind, dim: nat, at: int)
      requires Valid() && v < 0 && v !in live && k != Text
      requires at >= 0 && Fresh(View(), at, STRING_SIZE * (dim + 1))
      modifies this`memory, this`blocks, this`live, this`kinds, this`boxes, this`made
      ensures Valid() && made == old(made) + multiset(Cells(at, dim)) && Holds(v, k)
      ensures live == old(live) + {v} + Cells(at, dim) && kinds == old(kinds)[v := k] && v in memory
      ensures memory[v] == Desc(STRING_SIZE * (dim + 1), at, at, STRING_SIZE * (dim + 1), dim)
      ensures blocks == old(blocks)[at := Block(STRING_SIZE * (dim + 1), 1)]
      ensures forall a :: a in Cells(at, dim) ==> a in live && a in memory && memory[a].size == 0
      ensures forall a :: a in old(live) && a in old(memory) ==> a in live && a in memory && memory[a] == old(memory)[a]
    {
      hide Inv, Balanced, Fresh, ZeroFill, Cells;
      var size := STRING_SIZE * (dim + 1);
      var d := Desc(size, at, at, size, dim);
      ArrayAllocated(View(), v, k, dim, at, d,
                     Snapshot(blocks[at := Block(size, 1)], ZeroFill(memory[v := d], Cells(at, dim)),
                              live + {v} + Cells(at, dim), kinds[v := k], boxes + {at}, {}));
      ArrayBalanced(View(), v, dim, at, made, released);
      blocks, memory := blocks[at := Block(size, 1)], ZeroFill(memory[v := d], Cells(at, dim));
      live, kinds, boxes := live + {v} + Cells(at, dim), kinds[v := k], boxes + {at};
      made := made + multiset(Cells(at, dim));
    }

    /** Declares a one-dimensional array or a vector whose last index is dim. A
        negative index is an error for an array and makes a vector empty. */
    method NewArray(v: int, k: Kind, dim: int, at: int) returns (r: Outcome)
      requires Valid() && v < 0 && v !in live && k != Text
      requires STRING_SIZE * (dim + 1) <= 0x7fff_ffff
      requires at >= 0 && Fresh(View(), at, STRING_SIZE * (dim + 1))
      modifies this
      ensures r == (if dim < 0 && k == Array then Failed else Done) && Valid() && released == old(released)
      ensures r == Failed ==> View() == old(View())
      ensures made == old(made) + (if dim < 0 then multiset{} else multiset(Cells(at, dim)))
      ensures r == Done ==> live == old(live) + {v} + (if dim < 0 then {} else Cells(at, dim))
      ensures r == Done ==> Holds(v, k) && memory[v].dim == (if dim < 0 then -1 else dim)
      ensures dim >= 0 ==> memory[v] == Desc(STRING_SIZE * (dim + 1), at, at, STRING_SIZE * (dim + 1), dim)
      ensures dim >= 0 ==> blocks == old(blocks)[at := Block(STRING_SIZE * (dim + 1), 1)]
      ensures dim >= 0 ==> forall a :: a in Cells(at, dim) ==> a in live && a in memory && memory[a].size == 0
      ensures forall a :: a in old(live) ==> a in live && a in memory && memory[a] == old(Load(a))
    {
      hide Inv, Balanced, Fresh, Cells, KindOf, Holds;
      LiveHasMemory(View());
      if dim < 0 {
        if k == Array {
          return Failed;
        }
        EmptyVector(v);
      } else {
        AllocateArray(v, k, dim, at);
      }
      r := Done;
    }

    method EmptyVector(v: int)
      requires Valid() && v < 0 && v !in live
      modifies this`memory, this`live, this`kinds
      ensures Valid() && Holds(v, Vector) && live == old(live) + {v} && kinds == old(kinds)[v := Vector]
      ensures memory == old(memory)[v := old(Load(v)).(size := 0, orig := 0, dim := -1)]
    {
      hide Inv, Balanced, Sound, Names, IsElement;
      ghost var before := View();
      memory := memory[v := Load(v).(size := 0, orig := 0, dim := -1)];
      VariablesKeepBalance(made, released, live, v);
      live, kinds := live + {v}, kinds[v := Vector];
      EmptyIsSound(before, memory[v], Vector);
      AddDescriptor(before, v, memory[v], Vector, View());
    }

    /** Makes a string variable; a string of no bytes has no block. */
    method NewText(v: int, n: nat, at: int) returns (r: Outcome)
      requires Valid() && v < 0 && v !in live && at >= 0 && Fresh(View(), at, n)
      modifies this
      ensures r == Done && Valid() && Holds(v, Text) && memory[v].size == n
      ensures released == old(released) && made == old(made)
      ensures live == old(live) + {v} && kinds == old(kinds)[v := Text]
      ensures n > 0 ==> memory[v].heap == at && blocks == old(blocks)[at := Block(n, 1)]
      ensures n == 0 ==> blocks == old(blocks)
      ensures forall a :: a in old(live) ==> a in live && a in memory && memory[a] == old(Load(a))
    {
      hide Inv, Balanced, Fresh, Sound;
      ghost var before := View();
      memory := memory[v := Load(v).(size := n)];
      VariablesKeepBalance(made, released, live, v);
      live, kinds := live + {v}, kinds[v := Text];
      LiveHasMemory(before);
      if n == 0 {
        EmptyIsSound(before, memory[v], Text);
        AddDescriptor(before, v, memory[v], Text, View());
      } else {
        memory := memory[v := memory[v].(data := at, heap := at, orig := n)];
        blocks := blocks[at := Block(n, 1)];
        AddBlock(before, v, at, memory[v], Text, {}, View());
      }
      r := Done;
    }

    /** Copies the fields of a descriptor, taking a reference on its block. The
        size of an array is never zero, so only the others look at it first. A
        new variable takes over the original size in any case. */
    method CopyFields(d: int, s: int, k: Kind, initialise: bool) returns (ok: bool)
      requires s in memory
      modifies this`memory, this`blocks
      ensures var e := old(memory[s]);
              && (ok <==> (k != Array && e.size == 0) || e.heap in old(blocks))
              && (ok ==> d in memory && memory == old(memory)[d := memory[d]] && SameTarget(memory[d], e, k))
              && (ok && (k == Array ==> e.size != 0) ==> blocks == Referenced(old(blocks), e))
    {
      ok := true;
      var source := memory[s];
      memory := memory[d := Load(d).(size := source.size)];
      if k == Array || source.size != 0 {
        memory := memory[d := memory[d].(data := source.data)];
        ok := Ref(source.heap);
        memory := memory[d := memory[d].(heap := source.heap)];
      }
      if k == Array || source.size != 0 || initialise {
        memory := memory[d := memory[d].(orig := source.orig)];
      }
      if k != Text {
        memory := memory[d := memory[d].(dim := source.dim)];
      }
    }

    /** Initialises a variable as a copy of a live descriptor. */
    method Copy(d: int, s: int, k: Kind) returns (ok: bool)
      requires Valid() && d < 0 && d !in live && Holds(s, k)
      modifies this`memory, this`blocks, this`live, this`kinds
      ensures ok && Valid() && live == old(live) + {d} && kinds == old(kinds)[d := k]
      ensures memory == old(memory)[d := memory[d]] && d in memory && SameTarget(memory[d], old(memory[s]), k)
      ensures memory[d].size == old(memory[s]).size && (k != Text ==> memory[d].dim == old(memory[s]).dim)
      ensures memory[d].size != 0 ==> memory[d].data == old(memory[s]).data && memory[d].heap == old(memory[s]).heap
      ensures blocks == Referenced(old(blocks), old(memory[s]))
    {
      hide Inv, Balanced, Sound;
      ghost var before := View();
      LiveIsSound(before, s);
      ok := CopyFields(d, s, k, k != Text);
      VariablesKeepBalance(made, released, live, d);
      live, kinds := live + {d}, kinds[d := k];
      SameTargetIsSound(before, memory[d], before.memory[s], k);
      AddDescriptor(before, d, memory[d], k, View());
    }

    /** Slices a vector or an array. An empty slice of a vector takes no
        reference; a slice keeps the original size of the block. */
    method Slice(d: int, s: int, index1: int, index2: int, k: Kind) returns (r: Outcome)
      requires Valid() && d < 0 && d !in live && k != Text && Holds(s, k)
      modifies this`memory, this`blocks, this`live, this`kinds
      ensures Valid()
      ensures r == if 0 <= index1 <= index2 <= old(memory[s]).dim + 1 && (k == Array ==> index1 < index2) then Done else Failed
      ensures r == Failed ==> View() == old(View())
      ensures r == Done ==> live == old(live) + {d} && kinds == old(kinds)[d := k]
      ensures r == Done ==> memory == old(memory)[d := memory[d]] && d in memory && memory[d].dim == index2 - index1 - 1
      ensures r == Done ==> memory[d].size == (index2 - index1) * STRING_SIZE
      ensures r == Done && index1 < index2 ==>
                && memory[d].heap == old(memory[s]).heap && memory[d].orig == old(memory[s]).orig
                && blocks == Referenced(old(blocks), old(memory[s]))
                && forall i :: 0 <= i < index2 - index1 ==>
                     memory[d].data + STRING_SIZE * i == old(memory[s]).data + STRING_SIZE * (index1 + i)
      ensures r == Done && index1 == index2 ==> blocks == old(blocks)
    {
      hide Inv, Balanced, Sound, Names, IsElement, KindOf, Window;
      if if k == Vector then index1 > index2 else index1 >= index2 {
        return Failed;
      }
      if index1 < 0 {
        return Failed;
      }
      if index2 > memory[s].dim + 1 {
        return Failed;
      }
      ghost var before := View();
      LiveIsSound(before, s);
      SliceFields(d, s, index1, index2, k);
      VariablesKeepBalance(made, released, live, d);
      live, kinds := live + {d}, kinds[d := k];
      SliceIsSound(before, memory[d], before.memory[s], index1, index2, k);
      AddDescriptor(before, d, memory[d], k, View());
      r := Done;
    }

    /** The sizes and, unless it is an empty slice of a vector, the pointers of a slice. */
    method SliceFields(d: int, s: int, index1: int, index2: int, k: Kind)
      requires s in memory && index1 <= index2 && (k == Array ==> index1 < index2)
      requires index1 < index2 ==> memory[s].heap in blocks
      modifies this`memory, this`blocks
      ensures d in memory && memory == old(memory)[d := memory[d]]
      ensures var e := old(memory[s]);
              && memory[d].size == (index2 - index1) * STRING_SIZE && memory[d].orig == e.orig
              && memory[d].dim == index2 - index1 - 1
              && (index1 < index2 ==> memory[d].data == e.data + index1 * STRING_SIZE && memory[d].heap == e.heap)
              && blocks == Referenced(old(blocks), memory[d])
    {
      var source := memory[s];
      var size := (index2 - index1) * STRING_SIZE;
      memory := memory[d := Load(d).(size := size, orig := source.orig, dim := index2 - index1 - 1)];
      if k == Array || size != 0 {
        memory := memory[d := memory[d].(data := source.data + index1 * STRING_SIZE)];
        var ok := Ref(source.heap);
        memory := memory[d := memory[d].(heap := source.heap)];
      }
    }

    /** Runs the destructor of a variable. */
    method Drop(v: int, k: Kind) returns (ok: bool)
      requires Valid() && v < 0 && Holds(v, k)
      modifies this`blocks, this`live, this`holes, this`boxes, this`released
      ensures ok && Valid()
      ensures var whole := k != Text && old(Last(v));
              && live == old(live) - {v} - (if whole then old(Elements(memory[v].heap)) else {})
              && released == old(released) + (if whole then Stride(memory[v].heap, memory[v].orig / STRING_SIZE) else [])
              && (if whole then memory[v].heap !in blocks else blocks == Dereferenced(old(blocks), memory[v]))
      ensures forall b :: b in blocks <==> b in old(blocks) && Names(View(), b) != {}
    {
      hide Inv, Balanced, Sound;
      ghost var before := View();
      LiveHasMemory(before);
      if k == Text {
        DescriptorReady(before, v);
        ok := DerefIfNotEmpty(v);
        VariablesKeepBalance(made, released, live, v);
        live := live - {v};
        RemoveDescriptor(before, v, View());
      } else {
        ok := DerefArrayElements(v);
      }
    }

    /** Drops the old contents of the destination of an assignment. The source is
        still there unless it is the destination and held the only reference. */
    method DropOld(d: int, s: int, k: Kind) returns (ok: bool)
      requires Valid() && d < 0 && s < 0 && k != Text && Holds(d, k) && Holds(s, k)
      modifies this`blocks, this`live, this`holes, this`boxes, this`released
      ensures ok && Valid() && d !in live && live <= memory.Keys
      ensures live + {d} == old(live) - (if old(Last(d)) then old(Elements(memory[d].heap)) else {})
      ensures released == old(released) + (if old(Last(d)) then Stride(memory[d].heap, memory[d].orig / STRING_SIZE) else [])
      ensures !old(Last(d)) ==> blocks == Dereferenced(old(blocks), memory[d])
      ensures s in memory && (k == Array ==> memory[s].size != 0)
      ensures memory[s].size == 0 || memory[s].heap in blocks <==> !(d == s && old(Last(d)))
      ensures memory[s].size == 0 || memory[s].heap in blocks ==> Sound(View(), memory[s], k)
    {
      hide Inv, Balanced, Sound, Names, IsElement, Dereferenced, Stride;
      ghost var before := View();
      LiveIsSound(before, s);
      LiveIsSound(before, d);
      ElementsAreOnHeap(before);
      ok := DerefArrayElements(d);
      AfterDrop(before, View(), d, s, k);
    }

    /** Assigns one array to another: the old contents of the destination are
        dropped before the source is looked at. */
    method Assign(d: int, s: int, k: Kind) returns (ok: bool)
      requires Valid() && d < 0 && s < 0 && k != Text && Holds(d, k) && Holds(s, k)
      modifies this
      ensures ok <==> !(d == s && old(Last(d)))
      ensures ok ==> Valid() && kinds == old(kinds)
      ensures made == old(made)
      ensures ok && !old(Last(d)) ==> blocks == Referenced(Dereferenced(old(blocks), old(Load(d))), old(Load(s)))
      ensures ok ==> live == old(live) - (if old(Last(d)) then old(Elements(memory[d].heap)) else {})
      ensures ok ==> d in memory && memory == old(memory)[d := memory[d]] && SameTarget(memory[d], old(Load(s)), k)
      ensures ok ==> memory[d].size == old(Load(s)).size && memory[d].dim == old(Load(s)).dim
      ensures ok && memory[d].size != 0 ==>
                memory[d].data == old(Load(s)).data && memory[d].heap == old(Load(s)).heap
      ensures released == old(released) +
              (if old(Last(d)) then Stride(old(Load(d)).heap, old(Load(d)).orig / STRING_SIZE) else [])
    {
      hide Inv, Balanced, Sound, Names, IsElement, Dereferenced, Referenced, Stride, SameTarget, Elements;
      LiveHasMemory(View());
      ok := DropOld(d, s, k);
      ghost var middle := View();
      ok := CopyFields(d, s, k, false);
      if ok {
        VariablesKeepBalance(made, released, live, d);
        live := live + {d};
        SameTargetIsSound(middle, memory[d], middle.memory[s], k);
        assert kinds[d := k] == kinds;
        AddDescriptor(middle, d, memory[d], k, View());
      }
    }

    /** Stores a string in an element, dropping the string that was there. */
    method StoreElement(v: int, i: int, s: int, k: Kind) returns (r: Outcome)
      requires Valid() && v < 0 && k != Text && Holds(v, k) && Holds(s, Text)
      modifies this`memory, this`blocks, this`live, this`holes
      ensures var e := old(memory[v]).data + STRING_SIZE * i;
              r == if !(0 <= i <= old(memory[v]).dim) then Failed
                   else if e == s && old(Last(s)) then Crashed else Done
      ensures r == Failed ==> View() == old(View())
      ensures r == Done ==> Valid()
      ensures r == Done ==> Stored(old(View()), View(), old(memory[v]).data + STRING_SIZE * i, old(memory[s]))
      ensures r == Done ==>
                var e, d := old(memory[v]).data + 16 * i, old(memory[s]);
                && e in memory && memory[e].size == d.size
                && (d.size != 0 ==> memory[e].data == d.data && memory[e].heap == d.heap && memory[e].orig == d.orig)
    {
      hide Inv, Balanced, Sound, Names, Referenced;
      if !(0 <= i <= memory[v].dim) {
        return Failed;
      }
      ghost var before := View();
      var e := memory[v].data + STRING_SIZE * i;
      ElementOfArray(before, v, i);
      LiveIsSound(before, s);
      ElementReady(before, memory[v].heap, e);
      var ok := DerefIfNotEmpty(e);
      live, holes := live - {e}, {e};
      ghost var middle := View();
      RemoveDescriptor(before, e, middle);
      AfterDrop(before, middle, e, s, Text);
      ok := CopyFields(e, s, Text, false);
      if !ok {
        return Crashed;
      }
      live, holes := live + {e}, {};
      assert live == old(live);
      SameTargetIsSound(middle, memory[e], before.memory[s], Text);
      AddDescriptor(middle, e, memory[e], Text, View());
      r := Done;
    }

    /** Dropping every variable, in whatever order, empties the heap. */
    method DropAll(variables: seq<(int, Kind)>) returns (ok: bool)
      requires Valid()
      requires forall i :: 0 <= i < |variables| ==> variables[i].0 < 0 && Holds(variables[i].0, variables[i].1)
      requires forall i, j :: 0 <= i < j < |variables| ==> variables[i].0 != variables[j].0
      requires forall a :: a in live && a < 0 && memory[a].size != 0 ==> a in Places(variables, 0)
      modifies this`blocks, this`live, this`holes, this`boxes, this`released
      ensures ok && Valid() && blocks == map[] && multiset(released) == made
    {
      hide Inv, Balanced, Names, IsElement, Stride, Places, Last, Dereferenced;
      ok := true;
      var n := 0;
      LiveHasMemory(View());
      while n < |variables|
        invariant 0 <= n <= |variables| && ok && Valid()
        invariant forall i :: n <= i < |variables| ==> Holds(variables[i].0, variables[i].1)
        invariant live <= memory.Keys
        invariant forall a :: a in live && a < 0 && memory[a].size != 0 ==> a in Places(variables, n)
      {
        ElementsAreOnHeap(View());
        PlacesStep(variables, n);
        ok := Drop(variables[n].0, variables[n].1);
        n := n + 1;
      }
      PlacesEnd(variables);
      NothingLeft(View());
      AllReleased(View(), made, released);
    }
  }

  /** An array at -1 and a slice of it at -2 that is not empty. */
  method ArrayAndSlice(dim: nat, index1: nat, index2: nat, k: Kind, at: nat) returns (m: Machine)
    requires index1 < index2 <= dim + 1 && k != Text && STRING_SIZE * (dim + 1) <= 0x7fff_ffff
    ensures m.Valid() && fresh(m) && m.Holds(-1, k) && m.Holds(-2, k)
    ensures m.blocks == map[at := Block(STRING_SIZE * (dim + 1), 2)] && m.released == []
    ensures m.made == multiset(Cells(at, dim))
    ensures forall v :: v in {-1, -2} ==>
              m.memory[v].size > 0 && m.memory[v].heap == at && m.memory[v].orig == STRING_SIZE * (dim + 1)
  {
    hide Inv, Balanced, Names, IsElement, Cells, Sound, Referenced;
    m := new Machine();
    assert Fresh(m.View(), at, STRING_SIZE * (dim + 1));
    var r := m.NewArray(-1, k, dim, at);
    CellsOfBlock(at, dim);
    OneMore(m.blocks, m.memory[-1]);
    r := m.Slice(-2, -1, index1, index2, k);
  }

  /** A slice that outlives the array it was taken from releases the elements of
      the whole array, not only its own. */
  method SliceOutlivesArray(dim: nat, index1: nat, index2: nat, k: Kind, at: nat) returns (m: Machine)
    requires index1 < index2 <= dim + 1 && k != Text && STRING_SIZE * (dim + 1) <= 0x7fff_ffff
    ensures m.Valid() && m.blocks == map[] && m.released == Stride(at, dim + 1)
    ensures multiset(m.released) == m.made == multiset(Cells(at, dim))
  {
    hide Inv, Balanced, Names, IsElement, Stride, Machine.Elements, Cells, Sound, Dereferenced;
    m := ArrayAndSlice(dim, index1, index2, k, at);
    OneLess(m.blocks, m.memory[-1]);
    var ok := m.Drop(-1, k);
    var size := STRING_SIZE * (dim + 1);
    assert m.blocks == map[at := Block(size, 1)];
    ok := m.Drop(-2, k);
    assert m.released == [] + Stride(at, size / STRING_SIZE) == Stride(at, dim + 1);
    assert forall b :: b in m.blocks ==> b == at;
    assert m.blocks.Keys == {};
    AllReleased(m.View(), m.made, m.released);
  }

  lemma OneMore(blocks: map<int, Block>, d: Desc)
    ensures d.size != 0 && d.heap in blocks ==>
              Referenced(blocks, d) == blocks[d.heap := Block(blocks[d.heap].size, blocks[d.heap].refs + 1)]
  {}

  lemma OneLess(blocks: map<int, Block>, d: Desc)
    ensures d.size == 0 ==> Dereferenced(blocks, d) == blocks
    ensures d.size != 0 && d.heap in blocks && blocks[d.heap].refs > 1 ==>
              Dereferenced(blocks, d) == blocks[d.heap := Block(blocks[d.heap].size, blocks[d.heap].refs - 1)]
  {}

  /** Such an assignment: an array that nothing else names, to itself. */
  method SelfAssignment(dim: nat, k: Kind, at: nat) returns (ok: bool)
    requires k != Text && STRING_SIZE * (dim + 1) <= 0x7fff_ffff
    ensures !ok
  {
    hide Inv, Balanced, Names, IsElement, Stride, Machine.Elements, Cells, Sound;
    var m := new Machine();
    assert Fresh(m.View(), at, STRING_SIZE * (dim + 1));
    var r := m.NewArray(-1, k, dim, at);
    ok := m.Assign(-1, -1, k);
  }

  /** An array at -1 and a string at -2. */
  method ArrayAndText(dim: nat, n: nat, k: Kind, at: nat) returns (m: Machine)
    requires 0 < n && k != Text && STRING_SIZE * (dim + 1) <= 0x7fff_ffff
    ensures m.Valid() && fresh(m) && m.Holds(-1, k) && m.Holds(-2, Text)
    ensures var size := STRING_SIZE * (dim + 1);
            && m.blocks == map[at := Block(size, 1), at + size := Block(n, 1)]
            && m.memory[-1] == Desc(size, at, at, size, dim)
            && m.memory[-2].size == n && m.memory[-2].heap == at + size
    ensures forall i :: 0 <= i <= dim ==>
              var e := at + STRING_SIZE * i; e in m.live && e in m.memory && m.memory[e].size == 0
  {
    hide Inv, Balanced, Names, IsElement, Cells, Sound;
    m := new Machine();
    assert Fresh(m.View(), at, STRING_SIZE * (dim + 1));
    var r := m.NewArray(-1, k, dim, at);
    CellsOfBlock(at, dim);
    assert Fresh(m.View(), at + STRING_SIZE * (dim + 1), n);
    r := m.NewText(-2, n, at + STRING_SIZE * (dim + 1));
  }

  /** Such a store: an element that is the only name of its string, over itself. */
  method SelfStore(dim: nat, i: nat, n: nat, k: Kind, at: nat) returns (r: Outcome)
    requires i <= dim && 0 < n && k != Text && STRING_SIZE * (dim + 1) <= 0x7fff_ffff
    ensures r == Crashed
  {
    hide Inv, Balanced, Names, IsElement, Stride, Machine.Elements, Sound, Referenced, Dereferenced;
    var m := ArrayAndText(dim, n, k, at);
    var e := at + STRING_SIZE * i;
    OneLess(m.blocks, m.memory[e]);
    OneMore(m.blocks, m.memory[-2]);
    r := m.StoreElement(-1, i, -2, k);
    OneLess(m.blocks, m.memory[-2]);
    var ok := m.Drop(-2, Text);
    r := m.StoreElement(-1, i, e, k);
  }

  lemma ElementsAreOnHeap(s: Snapshot)
    requires Inv(s)
    ensures s.live <= s.memory.Keys
    ensures forall b, a :: IsElement(s, b, a) ==> a >= 0
  {}

  lemma ElementOfArray(s: Snapshot, v: int, i: int)
    requires Inv(s) && s.holes == {} && v in s.live && KindOf(s, v) != Text && 0 <= i <= s.memory[v].dim
    ensures IsElement(s, s.memory[v].heap, s.memory[v].data + STRING_SIZE * i)
  {
    assert Sound(s, s.memory[v], KindOf(s, v));
    assert (s.memory[v].data - s.memory[v].heap) % STRING_SIZE == 0;
  }

  /** After the destination d of an assignment has been dropped, the block of the
      source s is still there unless the two are one and it was the last name. */
  lemma AfterDrop(s: Snapshot, t: Snapshot, d: int, source: int, k: Kind)
    requires Inv(s) && Inv(t) && d in s.live && source in s.live && s.holes == {}
    requires t.memory == s.memory && t.kinds == s.kinds && KindOf(s, source) == k && KindOf(s, d) == k
    requires d !in t.live && (source != d ==> source in t.live)
    requires var e := s.memory[d];
             if e.size != 0 && e.heap in s.blocks && s.blocks[e.heap].refs == 1 then e.heap !in t.blocks
             else t.blocks == Dereferenced(s.blocks, e) && t.boxes == s.boxes
    ensures var e := s.memory[source];
            (e.size == 0 || e.heap in t.blocks) <==>
            !(source == d && e.size != 0 && e.heap in s.blocks && s.blocks[e.heap].refs == 1)
    ensures var e := s.memory[source]; e.size == 0 || e.heap in t.blocks ==> Sound(t, e, k)
    ensures k == Array ==> s.memory[source].size != 0
  {
    assert Sound(s, s.memory[source], k);
    if source != d {
      assert Sound(t, t.memory[source], KindOf(t, source));
    } else {
      assert s.memory[d].size != 0 ==> Counted(s, s.memory[d].heap);
    }
  }

  lemma BoxOf(s: Snapshot, v: int)
    requires Inv(s) && v in s.live && KindOf(s, v) != Text && s.memory[v].size != 0
    ensures var b := s.memory[v].heap;
            b in s.boxes && b in s.blocks && s.blocks[b].size == s.memory[v].orig > 0
            && s.memory[v].orig % STRING_SIZE == 0
  {
    assert Sound(s, s.memory[v], KindOf(s, v));
    assert Counted(s, s.memory[v].heap);
  }

  lemma DescriptorReady(s: Snapshot, a: int)
    requires Inv(s) && a in s.live
    ensures a in s.memory
    ensures forall b :: b in s.blocks ==> s.blocks[b].refs > 0
    ensures var d := s.memory[a]; d.size != 0 ==> d.heap in s.blocks
  {
    assert Sound(s, s.memory[a], KindOf(s, a));
    forall b | b in s.blocks
      ensures s.blocks[b].refs > 0
    {
      assert Counted(s, b);
    }
  }

  lemma ElementReady(s: Snapshot, b: int, a: int)
    requires Inv(s) && IsElement(s, b, a) && a !in s.holes
    ensures a in s.live && a >= 0 && KindOf(s, a) == Text
    ensures a in s.memory
    ensures forall b :: b in s.blocks ==> s.blocks[b].refs > 0
    ensures var d := s.memory[a]; d.size != 0 ==> d.heap in s.blocks
  {
    DescriptorReady(s, a);
  }
}
