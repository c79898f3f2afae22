/** The heap of the virtual machine: two linked lists of blocks, the free ones
    and the used ones. A claim takes a free block of exactly the right size if
    there is one and otherwise splits the first that is large enough; freed
    blocks go to the front of the free list and are not joined. */
module VmHeap {

  // ----- Blocks as spans of the arena -----

  datatype Span = Span(start: int, size: int)

  predicate Inside(a: int, b: Span) { b.start <= a < b.start + b.size }

  predicate Apart(b: Span, c: Span) { b.start + b.size <= c.start || c.start + c.size <= b.start }

  predicate AllApart(s: seq<Span>) { forall i, j :: 0 <= i < j < |s| ==> Apart(s[i], s[j]) }

  predicate BothApart(s: seq<Span>, t: seq<Span>) { forall i, j :: 0 <= i < |s| && 0 <= j < |t| ==> Apart(s[i], t[j]) }

  predicate AllPositive(s: seq<Span>) { forall i :: 0 <= i < |s| ==> s[i].size > 0 }

  predicate Touches(s: seq<Span>, a: int) { exists i :: 0 <= i < |s| && Inside(a, s[i]) }

  function Total(s: seq<Span>): int { if s == [] then 0 else s[0].size + Total(s[1..]) }

  /** The free and the used blocks together are the arena, cut into pieces. */
  ghost predicate Partition(free: seq<Span>, used: seq<Span>, arena: Span)
  {
    && AllPositive(free) && AllPositive(used)
    && AllApart(free) && AllApart(used) && BothApart(free, used)
    && (forall a :: Inside(a, arena) <==> Touches(free, a) || Touches(used, a))
    && Total(free) + Total(used) == arena.size
  }

  function Without(s: seq<Span>, i: nat): seq<Span>
    requires i < |s|
  {
    s[..i] + s[i + 1..]
  }

  lemma {:induction false} TotalUpdate(s: seq<Span>, i: nat, b: Span)
    requires i < |s|
    ensures Total(s[i := b]) == Total(s) - s[i].size + b.size
    ensures Total(Without(s, i)) == Total(s) - s[i].size
  {
    if i == 0 {
      assert s[0 := b][1..] == s[1..] && Without(s, 0) == s[1..];
    } else {
      TotalUpdate(s[1..], i - 1, b);
      assert s[i := b][1..] == s[1..][i - 1 := b] && Without(s, i)[1..] == Without(s[1..], i - 1);
    }
  }

  lemma WithoutAt(s: seq<Span>, i: nat)
    requires i < |s|
    ensures |Without(s, i)| == |s| - 1
    ensures forall k :: 0 <= k < |s| - 1 ==> Without(s, i)[k] == s[if k < i then k else k + 1]
  {}

  lemma TouchesWithout(s: seq<Span>, i: nat, a: int)
    requires i < |s|
    ensures Touches(s, a) <==> Touches(Without(s, i), a) || Inside(a, s[i])
  {
    WithoutAt(s, i);
    if Touches(s, a) {
      var k :| 0 <= k < |s| && Inside(a, s[k]);
      if k != i {
        assert Without(s, i)[if k < i then k else k - 1] == s[k];
      }
    }
  }

  lemma TouchesFront(s: seq<Span>, b: Span, a: int)
    ensures Touches([b] + s, a) <==> Inside(a, b) || Touches(s, a)
  {
    if Inside(a, b) { assert ([b] + s)[0] == b; }
    if Touches(s, a) {
      var k :| 0 <= k < |s| && Inside(a, s[k]);
      assert ([b] + s)[k + 1] == s[k];
    }
  }

  /** Moving a block from one list to the front of the other keeps the partition. */
  lemma MoveKeepsPartition(s: seq<Span>, t: seq<Span>, arena: Span, i: nat)
    requires Partition(s, t, arena) && i < |s|
    ensures Partition(Without(s, i), [s[i]] + t, arena)
  {
    WithoutAt(s, i);
    TotalUpdate(s, i, s[i]);
    assert ([s[i]] + t)[1..] == t;
    forall a
      ensures Inside(a, arena) <==> Touches(Without(s, i), a) || Touches([s[i]] + t, a)
    {
      TouchesWithout(s, i, a);
      TouchesFront(t, s[i], a);
    }
    forall k | 0 <= k < |s| - 1
      ensures Apart(Without(s, i)[k], s[i])
    {}
  }

  lemma PartitionSwaps(s: seq<Span>, t: seq<Span>, arena: Span)
    requires Partition(s, t, arena)
    ensures Partition(t, s, arena)
  {}

  /** Cutting the front off a free block. */
  lemma SplitKeepsPartition(s: seq<Span>, t: seq<Span>, arena: Span, i: nat, n: int)
    requires Partition(s, t, arena) && i < |s| && 0 < n < s[i].size
    ensures Partition(s[i := Span(s[i].start + n, s[i].size - n)], [Span(s[i].start, n)] + t, arena)
  {
    var front, rest := Span(s[i].start, n), Span(s[i].start + n, s[i].size - n);
    var s' := s[i := rest];
    TotalUpdate(s, i, rest);
    assert ([front] + t)[1..] == t;
    forall a
      ensures Inside(a, arena) <==> Touches(s', a) || Touches([front] + t, a)
    {
      TouchesFront(t, front, a);
      TouchesUpdate(s, i, rest, a);
    }
    forall k | 0 <= k < |s'|
      ensures Apart(s'[k], front)
      ensures k != i ==> Apart(s'[k], rest)
    {
      assert k < i ==> Apart(s[k], s[i]);
      assert i < k ==> Apart(s[i], s[k]);
    }
    assert AllApart(s') by {
      forall j, k | 0 <= j < k < |s'|
        ensures Apart(s'[j], s'[k])
      {
        assert Apart(s[j], s[k]);
      }
    }
    assert BothApart(s', [front] + t) by {
      forall j, k | 0 <= j < |s'| && 0 <= k < |t| + 1
        ensures Apart(s'[j], ([front] + t)[k])
      {
        if k > 0 { assert Apart(s[j], t[k - 1]); }
      }
    }
    assert AllApart([front] + t) by {
      forall k | 0 <= k < |t|
        ensures Apart(front, t[k])
      {
        assert Apart(s[i], t[k]);
      }
    }
  }

  lemma TouchesUpdate(s: seq<Span>, i: nat, rest: Span, a: int)
    requires i < |s| && s[i].start <= rest.start && s[i].start + s[i].size == rest.start + rest.size && rest.size >= 0
    ensures Touches(s, a) <==> Touches(s[i := rest], a) || s[i].start <= a < rest.start
  {
    var t := s[i := rest];
    if Touches(s, a) {
      var k :| 0 <= k < |s| && Inside(a, s[k]);
      assert Inside(a, t[k]) || s[i].start <= a < rest.start;
    }
    if Touches(t, a) {
      var k :| 0 <= k < |t| && Inside(a, t[k]);
      assert Inside(a, s[k]);
    }
    if s[i].start <= a < rest.start {
      assert Inside(a, s[i]);
    }
  }

  /** No two blocks in use start at the same address. */
  lemma UsedStartsUnique(free: seq<Span>, used: seq<Span>, arena: Span, i: nat, j: nat)
    requires Partition(free, used, arena) && i < |used| && j < |used| && i != j
    ensures used[i].start != used[j].start
  {
    if i < j {
      assert Apart(used[i], used[j]);
    } else {
      assert Apart(used[j], used[i]);
    }
  }

  /** A claim takes the front of the chosen block; followed by the release of what it
      took it leaves as much free space as there was, and the other used blocks as
      they were. */
  lemma ClaimThenFree(free: seq<Span>, used: seq<Span>, k: nat, n: int, f: seq<Span>, u: seq<Span>)
    requires k < |free| && Claimed(free, used, k, n, f, u)
    ensures u != [] && FirstAt(u, u[0].start, 0) == 0 && u[0] == Span(free[k].start, n)
    ensures free[k].size != n ==> |f| == |free| && f[k] == Span(free[k].start + n, free[k].size - n)
    ensures free[k].size != n ==> forall j :: 0 <= j < |free| && j != k ==> f[j] == free[j]
    ensures Without(u, 0) == used
    ensures Total(f) == Total(free) - n && Total([u[0]] + f) == Total(free)
  {
    var b := Span(free[k].start, n);
    FrontFirst(b, used);
    TotalFront(b, f);
    hide Total;
    TotalUpdate(free, k, Span(free[k].start + n, free[k].size - n));
  }

  lemma FrontFirst(b: Span, s: seq<Span>)
    ensures FirstAt([b] + s, b.start, 0) == 0 && Without([b] + s, 0) == s
  {
    assert ([b] + s)[0] == b;
  }

  lemma TotalFront(b: Span, s: seq<Span>)
    ensures Total([b] + s) == b.size + Total(s)
  {
    assert ([b] + s)[1..] == s;
  }

  // ----- Choosing a block -----

  function FirstExact(s: seq<Span>, n: int, i: nat): (k: nat)
    requires i <= |s|
    ensures i <= k <= |s| && (k < |s| ==> s[k].size == n)
    ensures forall j :: i <= j < k ==> s[j].size != n
    decreases |s| - i
  {
    if i < |s| && s[i].size != n then FirstExact(s, n, i + 1) else i
  }

  function FirstAt(s: seq<Span>, start: int, i: nat): (k: nat)
    requires i <= |s|
    ensures i <= k <= |s| && (k < |s| ==> s[k].start == start)
    ensures forall j :: i <= j < k ==> s[j].start != start
    decreases |s| - i
  {
    if i < |s| && s[i].start != start then FirstAt(s, start, i + 1) else i
  }

  function FirstFit(s: seq<Span>, n: int, i: nat): (k: nat)
    requires i <= |s|
    ensures i <= k <= |s| && (k < |s| ==> s[k].size >= n)
    ensures forall j :: i <= j < k ==> s[j].size < n
    decreases |s| - i
  {
    if i < |s| && s[i].size < n then FirstFit(s, n, i + 1) else i
  }

  /** The first block of the right size, or the first that is large enough. */
  function Choice(s: seq<Span>, n: int): (k: nat)
    ensures k <= |s|
    ensures k == |s| <==> forall j :: 0 <= j < |s| ==> s[j].size < n
    ensures k < |s| ==> s[k].size >= n
    ensures k < |s| && s[k].size == n ==> forall j :: 0 <= j < k ==> s[j].size != n
    ensures k < |s| && s[k].size != n ==> forall j :: 0 <= j < |s| ==> s[j].size != n
    ensures k < |s| && s[k].size != n ==> forall j :: 0 <= j < k ==> s[j].size < n
  {
    var k := FirstExact(s, n, 0);
    if k < |s| then k else FirstFit(s, n, 0)
  }

  /** What a claim does to the two lists. */
  ghost predicate Claimed(s: seq<Span>, t: seq<Span>, k: nat, n: int, s': seq<Span>, t': seq<Span>)
    requires k <= |s|
  {
    if k == |s| then s' == s && t' == t
    else
      && t' == [Span(s[k].start, n)] + t
      && s' == if s[k].size == n then Without(s, k) else s[k := Span(s[k].start + n, s[k].size - n)]
  }

  lemma IsClaim(s: seq<Span>, t: seq<Span>, k: nat, n: int)
    requires k <= |s|
    ensures k == |s| ==> Claimed(s, t, k, n, s, t)
    ensures k < |s| && s[k].size == n ==> Claimed(s, t, k, n, Without(s, k), [s[k]] + t)
    ensures k < |s| && s[k].size != n ==>
              Claimed(s, t, k, n, s[k := Span(s[k].start + n, s[k].size - n)], [Span(s[k].start, n)] + t)
  {}

  /** A claim keeps the partition of the arena. */
  lemma ClaimKeepsPartition(s: seq<Span>, t: seq<Span>, arena: Span, k: nat, n: int)
    requires Partition(s, t, arena) && k < |s| && 0 < n <= s[k].size
    ensures s[k].size == n ==> Partition(Without(s, k), [s[k]] + t, arena) && s[k] == Span(s[k].start, n)
    ensures s[k].size != n ==>
              Partition(s[k := Span(s[k].start + n, s[k].size - n)], [Span(s[k].start, n)] + t, arena)
  {
    if s[k].size == n {
      MoveKeepsPartition(s, t, arena, k);
    } else {
      SplitKeepsPartition(s, t, arena, k, n);
    }
  }

  // ----- The lists -----

  class Node {
    var start: int
    var size: int
    var next: Node?

    constructor (start: int, size: int)
      ensures this.start == start && this.size == size && next == null
    {
      this.start, this.size, next := start, size, null;
    }

    function Block(): Span
      reads this`start, this`size
    {
      Span(start, size)
    }
  }

  lemma LinkedDistinct(head: Node?, nodes: seq<Node>)
    requires Linked(head, nodes)
    ensures forall i, j :: 0 <= i < |nodes| && 0 <= j < |nodes| && i != j ==> nodes[i] != nodes[j]
  {}

  function Successor(nodes: seq<Node>, i: nat): Node?
    requires i < |nodes|
  {
    if i + 1 < |nodes| then nodes[i + 1] else null
  }

  ghost predicate Linked(head: Node?, nodes: seq<Node>)
    reads nodes`next
  {
    && head == (if nodes == [] then null else nodes[0])
    && (forall i {:trigger nodes[i].next} :: 0 <= i < |nodes| ==> nodes[i].next == Successor(nodes, i))
    && (forall i, j :: 0 <= i < j < |nodes| ==> nodes[i] != nodes[j])
  }

  ghost function Blocks(nodes: seq<Node>): (s: seq<Span>)
    reads nodes`start, nodes`size
    ensures |s| == |nodes|
    ensures forall i :: 0 <= i < |s| ==> s[i] == nodes[i].Block()
  {
    if nodes == [] then [] else [nodes[0].Block()] + Blocks(nodes[1..])
  }

  lemma Spliced(nodes: seq<Node>, i: nat, rest: seq<Node>)
    requires i < |nodes| && rest == nodes[..i] + nodes[i + 1..]
    ensures |rest| == |nodes| - 1
    ensures forall k :: 0 <= k < i ==> rest[k] == nodes[k]
    ensures forall k :: i <= k < |rest| ==> rest[k] == nodes[k + 1]
    ensures forall k :: 0 <= k < |rest| ==>
              Successor(rest, k) == if k + 1 == i then Successor(nodes, i) else Successor(nodes, if k < i then k else k + 1)
  {}

  lemma Pushed(nodes: seq<Node>, block: Node, more: seq<Node>)
    requires more == [block] + nodes
    ensures more[0] == block && forall k :: 0 < k < |more| ==> more[k] == nodes[k - 1]
    ensures Successor(more, 0) == if nodes == [] then null else nodes[0]
    ensures forall k :: 0 < k < |more| ==> Successor(more, k) == Successor(nodes, k - 1)
  {}

  /** Unlinks a node from a list, given the node before it. */
  method Unlink(head: Node?, prev: Node?, block: Node, ghost nodes: seq<Node>, ghost i: nat)
    returns (newHead: Node?, ghost rest: seq<Node>)
    requires Linked(head, nodes) && i < |nodes| && block == nodes[i]
    requires prev == if i > 0 then nodes[i - 1] else null
    modifies nodes`next
    ensures rest == nodes[..i] + nodes[i + 1..] && Linked(newHead, rest)
    ensures block !in rest && forall n :: n in rest ==> n in nodes
  {
    newHead := head;
    rest := nodes[..i] + nodes[i + 1..];
    Spliced(nodes, i, rest);
    if prev != null {
      prev.next := block.next;
    } else {
      newHead := block.next;
    }
    forall k | 0 <= k < |rest|
      ensures rest[k].next == Successor(rest, k)
    {
      var place := if k < i then k else k + 1;
      assert rest[k] == nodes[place];
      assert old(nodes[place].next) == Successor(nodes, place);
    }
  }

  /** Links a node in at the front of a list. */
  method Push(head: Node?, block: Node, ghost nodes: seq<Node>) returns (newHead: Node?, ghost more: seq<Node>)
    requires Linked(head, nodes) && block !in nodes
    modifies block`next
    ensures more == [block] + nodes && Linked(newHead, more)
  {
    block.next := head;
    newHead := block;
    more := [block] + nodes;
    Pushed(nodes, block, more);
  }

  lemma BlocksWithout(nodes: seq<Node>, i: nat, rest: seq<Node>)
    requires i < |nodes| && rest == nodes[..i] + nodes[i + 1..]
    ensures Blocks(rest) == Without(Blocks(nodes), i)
  {
    Spliced(nodes, i, rest);
  }

  lemma BlocksUpdate(nodes: seq<Node>, i: nat, s: seq<Span>)
    requires i < |nodes| == |s| && forall k :: 0 <= k < |s| && k != i ==> s[k] == nodes[k].Block()
    ensures Blocks(nodes) == s[i := nodes[i].Block()]
  {}

  lemma BlocksFront(block: Node, nodes: seq<Node>)
    ensures Blocks([block] + nodes) == [block.Block()] + Blocks(nodes)
  {}

  /** Where a walk along a list stands: the node before, the node, its place. */
  ghost predicate At(nodes: seq<Node>, prev: Node?, block: Node?, i: nat)
  {
    i <= |nodes|
    && block == (if i < |nodes| then nodes[i] else null)
    && prev == (if i > 0 then nodes[i - 1] else null)
  }

  method SearchSize(head: Node?, n: int, ghost nodes: seq<Node>) returns (prev: Node?, block: Node?, ghost i: nat)
    requires Linked(head, nodes)
    ensures i == FirstExact(Blocks(nodes), n, 0)
    ensures At(nodes, prev, block, FirstExact(Blocks(nodes), n, 0))
  {
    prev, block, i := null, head, 0;
    while block != null && block.size != n
      invariant At(nodes, prev, block, i) && FirstExact(Blocks(nodes), n, 0) == FirstExact(Blocks(nodes), n, i)
      decreases |nodes| - i
    {
      assert block == nodes[i];
      prev, block, i := block, block.next, i + 1;
    }
  }

  method SearchFit(head: Node?, n: int, ghost nodes: seq<Node>) returns (prev: Node?, block: Node?, ghost i: nat)
    requires Linked(head, nodes)
    ensures i == FirstFit(Blocks(nodes), n, 0)
    ensures At(nodes, prev, block, FirstFit(Blocks(nodes), n, 0))
  {
    prev, block, i := null, head, 0;
    while block != null && block.size < n
      invariant At(nodes, prev, block, i) && FirstFit(Blocks(nodes), n, 0) == FirstFit(Blocks(nodes), n, i)
      decreases |nodes| - i
    {
      assert block == nodes[i];
      prev, block, i := block, block.next, i + 1;
    }
  }

  method Choose(head: Node?, n: int, ghost nodes: seq<Node>) returns (prev: Node?, block: Node?, ghost i: nat)
    requires Linked(head, nodes)
    ensures i == Choice(Blocks(nodes), n)
    ensures At(nodes, prev, block, Choice(Blocks(nodes), n))
  {
    prev, block, i := SearchSize(head, n, nodes);
    if block == null {
      prev, block, i := SearchFit(head, n, nodes);
    }
  }

  method SearchStart(head: Node?, start: int, ghost nodes: seq<Node>) returns (prev: Node?, block: Node?, ghost i: nat)
    requires Linked(head, nodes)
    ensures i == FirstAt(Blocks(nodes), start, 0)
    ensures At(nodes, prev, block, FirstAt(Blocks(nodes), start, 0))
  {
    prev, block, i := null, head, 0;
    while block != null && block.start != start
      invariant At(nodes, prev, block, i) && FirstAt(Blocks(nodes), start, 0) == FirstAt(Blocks(nodes), start, i)
      decreases |nodes| - i
    {
      assert block == nodes[i];
      prev, block, i := block, block.next, i + 1;
    }
  }

  ghost predicate Disjoint(s: seq<Node>, t: seq<Node>) { forall n :: n in s ==> n !in t }

  /** Moves a node of one list to the front of another. */
  method Move(from: Node?, to: Node?, prev: Node?, block: Node, ghost f: seq<Node>, ghost t: seq<Node>, ghost i: nat)
    returns (newFrom: Node?, newTo: Node?, ghost rest: seq<Node>, ghost more: seq<Node>)
    requires Linked(from, f) && Linked(to, t) && Disjoint(f, t) && Disjoint(t, f)
    requires i < |f| && block == f[i] && prev == if i > 0 then f[i - 1] else null
    modifies f`next
    ensures Linked(newFrom, rest) && Linked(newTo, more) && Disjoint(rest, more) && Disjoint(more, rest)
    ensures rest == f[..i] + f[i + 1..] && more == [block] + t
    ensures Blocks(rest) == Without(Blocks(f), i) && Blocks(more) == [Blocks(f)[i]] + Blocks(t)
    ensures Blocks(f) == old(Blocks(f)) && Blocks(t) == old(Blocks(t))
  {
    hide Without, Linked, Blocks;
    assert block !in t;
    newFrom, rest := Unlink(from, prev, block, f, i);
    assert forall n :: n in t ==> n !in f;
    assert forall n :: n in t ==> n.next == old(n.next);
    assert Linked(to, t);
    newTo, more := Push(to, block, t);
    BlocksWithout(f, i, rest);
    BlocksFront(block, t);
  }

  /** Cuts the front off a block. */
  method Shrink(block: Node, n: int, ghost head: Node?, ghost nodes: seq<Node>, ghost i: nat)
    requires Linked(head, nodes) && i < |nodes| && block == nodes[i]
    modifies block`start, block`size
    ensures Linked(head, nodes)
    ensures var s := old(Blocks(nodes)); Blocks(nodes) == s[i := Span(s[i].start + n, s[i].size - n)]
  {
    hide Linked, Blocks;
    ghost var s := Blocks(nodes);
    LinkedDistinct(head, nodes);
    block.start, block.size := block.start + n, block.size - n;
    assert block.Block() == Span(s[i].start + n, s[i].size - n);
    BlocksUpdate(nodes, i, s);
  }

  class Heap {
    var freeList: Node?
    var usedList: Node?
    ghost var free: seq<Node>
    ghost var used: seq<Node>
    ghost const arena: Span

    /** A heap of one free block. */
    constructor (base: int, size: int)
      requires size > 0
      ensures Valid() && fresh(free) && arena == Span(base, size)
      ensures Blocks(free) == [Span(base, size)] && used == []
    {
      var block := new Node(base, size);
      freeList, usedList := block, null;
      free, used, arena := [block], [], Span(base, size);
      new;
      assert Inside(base, Span(base, size));
      assert forall a :: Inside(a, arena) <==> Inside(a, Blocks(free)[0]);
    }

    ghost predicate Lists()
      reads this, free, used
    {
      Linked(freeList, free) && Linked(usedList, used) && Disjoint(free, used) && Disjoint(used, free)
    }

    ghost predicate Valid()
      reads this, free, used
    {
      Lists() && Partition(Blocks(free), Blocks(used), arena)
    }

    /** The used block that starts at the given address. */
    method FindBlock(start: int) returns (block: Node?)
      requires Valid()
      ensures block == null <==> forall k :: 0 <= k < |used| ==> used[k].start != start
      ensures block != null ==> block in used && block.start == start
    {
      block := usedList;
      ghost var i := 0;
      while block != null && block.start != start
        invariant 0 <= i <= |used| && block == if i < |used| then used[i] else null
        invariant forall k :: 0 <= k < i ==> used[k].start != start
        decreases |used| - i
      {
        block := block.next;
        i := i + 1;
      }
    }

    /** How many bytes are free, in all the blocks together. */
    method FreeSpace() returns (sum: int)
      requires Valid()
      ensures sum == Total(Blocks(free)) == arena.size - Total(Blocks(used))
    {
      var ptr := freeList;
      sum := 0;
      ghost var i := 0;
      ghost var s := Blocks(free);
      assert s[0..] == s;
      while ptr != null
        invariant 0 <= i <= |free| && ptr == if i < |free| then free[i] else null
        invariant sum + Total(s[i..]) == Total(s)
        decreases |free| - i
      {
        assert ptr == free[i] && s[i..][1..] == s[i + 1..];
        sum := sum + ptr.size;
        ptr := ptr.next;
        i := i + 1;
      }
    }

    /** Takes a block of the given size, or null if no free block is that large. */
    method ClaimBlock(n: int) returns (block: Node?)
      requires Valid() && n > 0
      modifies this, free, used
      ensures Valid() && (forall x :: x in free ==> x in old(free))
      ensures forall x :: x in used ==> x in old(used) || x in old(free) || fresh(x)
      ensures var s, k := old(Blocks(free)), Choice(old(Blocks(free)), n);
              && (block == null <==> k == |s|)
              && Claimed(s, old(Blocks(used)), k, n, Blocks(free), Blocks(used))
      ensures block != null ==> used != [] && block == used[0]
    {
      hide Partition, Choice, Linked, Blocks, Without, Claimed, Disjoint;
      ghost var s, t := Blocks(free), Blocks(used);
      var prev;
      ghost var i;
      prev, block, i := Choose(freeList, n, free);
      IsClaim(s, t, i, n);
      if block == null {
        return;
      }
      ClaimKeepsPartition(s, t, arena, i, n);
      if block.size == n {
        TakeOut(prev, block, i);
      } else {
        block := SplitOff(block, n, i, s, t);
      }
    }

    /** Moves a free block to the front of the used list. */
    method TakeOut(prev: Node?, block: Node, ghost i: nat)
      requires Lists() && i < |free| && At(free, prev, block, i)
      modifies this, free
      ensures Lists() && free == old(free)[..i] + old(free)[i + 1..] && used == [block] + old(used)
      ensures Blocks(free) == Without(old(Blocks(free)), i)
      ensures Blocks(used) == [old(Blocks(free))[i]] + old(Blocks(used))
    {
      hide Linked, Blocks, Without, Disjoint;
      var newFree, newUsed;
      ghost var rest, more;
      newFree, newUsed, rest, more := Move(freeList, usedList, prev, block, free, used, i);
      freeList, usedList, free, used := newFree, newUsed, rest, more;
    }

    /** Moves a used block to the front of the free list. */
    method PutBack(prev: Node?, block: Node, ghost i: nat)
      requires Lists() && i < |used| && At(used, prev, block, i)
      modifies this, used
      ensures Lists() && used == old(used)[..i] + old(used)[i + 1..] && free == [block] + old(free)
      ensures Blocks(used) == Without(old(Blocks(used)), i)
      ensures Blocks(free) == [old(Blocks(used))[i]] + old(Blocks(free))
    {
      hide Linked, Blocks, Without, Disjoint;
      var newFree, newUsed;
      ghost var rest, more;
      newUsed, newFree, rest, more := Move(usedList, freeList, prev, block, used, free, i);
      freeList, usedList, free, used := newFree, newUsed, more, rest;
    }

    /** Puts a new block at the front of the used list. */
    method AddUsed(start: int, n: int) returns (newBlock: Node)
      requires Lists()
      modifies this`usedList, this`used
      ensures Lists() && fresh(newBlock) && used == [newBlock] + old(used)
      ensures Blocks(used) == [Span(start, n)] + old(Blocks(used))
    {
      hide Linked, Blocks;
      newBlock := new Node(start, n);
      BlocksFront(newBlock, used);
      usedList, used := Push(usedList, newBlock, used);
    }

    /** Cuts a used block off the front of a free one. */
    method SplitOff(block: Node, n: int, ghost i: nat, ghost s: seq<Span>, ghost t: seq<Span>) returns (newBlock: Node)
      requires Lists() && i < |free| && block == free[i] && s == Blocks(free) && t == Blocks(used)
      modifies this, block`start, block`size
      ensures Lists() && free == old(free) && fresh(newBlock) && used == [newBlock] + old(used)
      ensures Blocks(free) == s[i := Span(s[i].start + n, s[i].size - n)]
      ensures Blocks(used) == [Span(s[i].start, n)] + t
    {
      hide Linked, Blocks;
      newBlock := AddUsed(block.start, n);
      assert block !in used;
      Shrink(block, n, freeList, free, i);
    }

    /** Gives a used block back. */
    method FreeBlock(ptr: int) returns (ok: bool)
      requires Valid()
      modifies this, free, used
      ensures Valid() && (forall x :: x in used ==> x in old(used))
      ensures forall x :: x in free ==> x in old(free) || x in old(used)
      ensures var t, k := old(Blocks(used)), FirstAt(old(Blocks(used)), ptr, 0);
              && (ok <==> k < |t|)
              && Blocks(used) == (if ok then Without(t, k) else t)
              && Blocks(free) == (if ok then [t[k]] + old(Blocks(free)) else old(Blocks(free)))
    {
      hide Partition, Linked, Blocks, Without;
      ghost var s, t := Blocks(free), Blocks(used);
      var prev, block;
      ghost var i;
      prev, block, i := SearchStart(usedList, ptr, used);
      if block == null {
        return false;
      }
      PartitionSwaps(s, t, arena);
      MoveKeepsPartition(t, s, arena, i);
      PartitionSwaps(Without(t, i), [t[i]] + s, arena);
      PutBack(prev, block, i);
      ok := true;
    }

    /** Claims a block to replace a used one, which stays in use; the caller is
        told how much there is to copy. */
    method Realloc(ptr: int, n: int) returns (block: Node?, oldSize: int, ok: bool)
      requires Valid() && n > 0
      modifies this, free, used
      ensures Valid()
      ensures ok <==> FirstAt(old(Blocks(used)), ptr, 0) < |old(Blocks(used))|
      ensures var s, t := old(Blocks(free)), old(Blocks(used));
              if ok then Claimed(s, t, Choice(s, n), n, Blocks(free), Blocks(used))
              else Blocks(free) == s && Blocks(used) == t
      ensures block != null <==> ok && Choice(old(Blocks(free)), n) < |old(Blocks(free))|
      ensures block != null ==> used != [] && block == used[0] && oldSize == old(Blocks(used))[FirstAt(old(Blocks(used)), ptr, 0)].size
    {
      hide Partition, Choice, Linked, Blocks, Without, Claimed, Disjoint;
      ghost var t := Blocks(used);
      oldSize := 0;
      var prev, found;
      ghost var i;
      prev, found, i := SearchStart(usedList, ptr, used);
      if found == null {
        return null, 0, false;
      }
      var size := found.size;
      block := ClaimBlock(n);
      ok := true;
      if block != null {
        oldSize := size;
      }
    }
  }
}
