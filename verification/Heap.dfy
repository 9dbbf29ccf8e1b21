/** The kernel heap: a first-fit list of blocks whose headers lie inside the memory they manage. */
module Heap {

  // size_t and addresses are 64 bits wide
  const WORD: nat := 0x1_0000_0000_0000_0000
  // sizeof(mem_node) and sizeof(mem_manager)
  const NODE_SIZE: nat := 32
  const MANAGER_SIZE: nat := 24

  /** One block: a header at `header`, the payload of `size` bytes right behind it. */
  datatype Block = Block(header: nat, size: nat, free: bool) {
    function Payload(): nat { header + NODE_SIZE }
    function End(): nat { header + NODE_SIZE + size }
  }

  /** The managed range and its blocks in list order. */
  datatype State = State(start: nat, end: nat, blocks: seq<Block>) {

    function Top(): nat {
      if blocks == [] then start else blocks[|blocks| - 1].End()
    }

    ghost predicate Follows(i: int)
      requires 0 < i < |blocks|
    {
      blocks[i].header == blocks[i - 1].End()
    }

    // Blocks lie one behind the other from `start`, without gap or overlap, and stay below `end`.
    ghost predicate Tiled() {
      && 0 < start
      && end < WORD
      && (blocks != [] ==> blocks[0].header == start)
      && Top() <= end
      && (forall i :: 0 < i < |blocks| ==> Follows(i))
      && (forall i :: 0 <= i < |blocks| ==> 0 < blocks[i].size)
    }

    // A payload address handed out and not freed since.
    ghost predicate Live(p: nat) {
      exists i :: 0 <= i < |blocks| && blocks[i].Payload() == p && !blocks[i].free
    }
  }

  function Init(start: nat, size: nat): State {
    State(start + MANAGER_SIZE, start + size, [])
  }

  predicate Fits(b: Block, size: nat) {
    b.free && b.size >= size
  }

  // Index of the first free block that is large enough, or |bs|.
  function FirstFit(bs: seq<Block>, size: nat): (i: nat)
    ensures i <= |bs|
    ensures i < |bs| ==> Fits(bs[i], size)
    ensures forall j :: 0 <= j < i ==> !Fits(bs[j], size)
  {
    if bs == [] then 0
    else if Fits(bs[0], size) then 0
    else
      var k := FirstFit(bs[1..], size);
      assert forall j :: 0 < j < |bs| ==> bs[j] == bs[1..][j - 1];
      k + 1
  }

  // The room check behind the last block, with the 64-bit sum the code computes.
  predicate HasRoom(h: State, size: nat) {
    (h.Top() + size + NODE_SIZE) % WORD <= h.end
  }

  // `mem_alloc`: new heap and returned address, 0 for NULL.
  function Alloc(h: State, size: nat): (State, nat) {
    if size == 0 then (h, 0)
    else
      var i := FirstFit(h.blocks, size);
      if i < |h.blocks| then
        (h.(blocks := h.blocks[i := h.blocks[i].(free := false)]), h.blocks[i].Payload())
      else if !HasRoom(h, size) then (h, 0)
      else
        var b := Block(h.Top(), size, false);
        (h.(blocks := h.blocks + [b]), b.Payload())
  }

  // Index of the block whose payload starts at `p`, or |bs|.
  function Find(bs: seq<Block>, p: nat): (i: nat)
    ensures i <= |bs|
    ensures i < |bs| ==> bs[i].Payload() == p
    ensures forall j :: 0 <= j < i ==> bs[j].Payload() != p
  {
    if bs == [] then 0
    else if bs[0].Payload() == p then 0
    else
      var k := Find(bs[1..], p);
      assert forall j :: 0 < j < |bs| ==> bs[j] == bs[1..][j - 1];
      k + 1
  }

  // `mem_free`: an address that starts no payload is ignored.
  function Free(h: State, p: nat): State {
    var i := Find(h.blocks, p);
    if i < |h.blocks| then h.(blocks := h.blocks[i := h.blocks[i].(free := true)]) else h
  }

  // ---------- the list in memory ----------

  /** `mem_node`: what a header holds. */
  datatype MemNode = MemNode(startAddr: nat, size: nat, next: nat, isFree: bool)

  function HeaderAt(bs: seq<Block>, i: nat): nat {
    if i < |bs| then bs[i].header else 0
  }

  // The header of block `i` is in memory and points to the next one.
  ghost predicate Stored(headers: map<nat, MemNode>, bs: seq<Block>, i: int)
    requires 0 <= i < |bs|
  {
    bs[i].header in headers &&
    headers[bs[i].header] == MemNode(bs[i].Payload(), bs[i].size, HeaderAt(bs, i + 1), bs[i].free)
  }

  // The chain of headers from `list` spells out `bs`.
  ghost predicate Linked(headers: map<nat, MemNode>, list: nat, bs: seq<Block>) {
    && list == HeaderAt(bs, 0)
    && forall i :: 0 <= i < |bs| ==> Stored(headers, bs, i)
  }

  /** `memory_manager` together with the headers stored in the memory it manages, by address. */
  class MemoryManager {
    var heapStart: nat
    var heapEnd: nat
    var memList: nat
    var headers: map<nat, MemNode>
    ghost var blocks: seq<Block>

    ghost function Abs(): State
      reads this
    {
      State(heapStart, heapEnd, blocks)
    }

    ghost predicate Valid()
      reads this
    {
      Abs().Tiled() && Linked(headers, memList, blocks)
    }

    // `mem_init`
    constructor (start: nat, size: nat)
      requires MANAGER_SIZE <= size && start + size < WORD
      ensures Valid() && Abs() == Init(start, size)
    {
      heapStart := start + MANAGER_SIZE;
      heapEnd := start + size;
      memList := 0;
      headers := map[];
      blocks := [];
    }

    // The search loop of `mem_alloc`: the first block that fits, and the node before it.
    method SearchFree(size: nat) returns (currentNode: nat, prevNode: nat)
      requires Valid()
      ensures currentNode == HeaderAt(blocks, FirstFit(blocks, size))
      ensures currentNode == 0 <==> FirstFit(blocks, size) == |blocks|
      ensures prevNode == if FirstFit(blocks, size) == 0 then 0 else blocks[FirstFit(blocks, size) - 1].header
    {
      HeadersPositive(Abs());
      currentNode, prevNode := memList, 0;
      ghost var i := 0;
      while currentNode != 0
        invariant i <= |blocks| && currentNode == HeaderAt(blocks, i)
        invariant prevNode == if i == 0 then 0 else blocks[i - 1].header
        invariant forall j :: 0 <= j < i ==> !Fits(blocks[j], size)
        decreases |blocks| - i
      {
        assert Stored(headers, blocks, i);
        if headers[currentNode].isFree && headers[currentNode].size >= size {
          assert i == FirstFit(blocks, size);
          return;
        }
        prevNode, currentNode := currentNode, headers[currentNode].next;
        i := i + 1;
      }
    }

    // `mem_alloc`
    method MemAlloc(size: nat) returns (p: nat)
      requires Valid() && size < WORD
      modifies this
      ensures (Abs(), p) == Alloc(old(Abs()), size)
      ensures Linked(headers, memList, blocks)
      ensures !WrapHazard(old(Abs()), size) ==> Valid()
    {
      hide Linked, State.Tiled, FirstFit;
      ghost var h' := Alloc(Abs(), size).0;
      AllocTilesIff(Abs(), size);
      if size == 0 {
        return 0;
      }
      var currentNode, prevNode := SearchFree(size);
      ghost var i := FirstFit(blocks, size);
      if currentNode != 0 {
        RelinkFlag(headers, memList, Abs(), i, false);
        p := headers[currentNode].startAddr;
        headers := headers[currentNode := headers[currentNode].(isFree := false)];
        blocks := h'.blocks;
        return;
      }
      var newBlockAddr := TailAddress(prevNode);
      if (newBlockAddr + size + NODE_SIZE) % WORD > heapEnd {
        return 0;
      }
      RelinkAppend(headers, memList, Abs(), size);
      headers := headers[newBlockAddr := MemNode(newBlockAddr + NODE_SIZE, size, 0, false)];
      if prevNode == 0 {
        memList := newBlockAddr;
      } else {
        headers := headers[prevNode := headers[prevNode].(next := newBlockAddr)];
      }
      blocks := h'.blocks;
      p := newBlockAddr + NODE_SIZE;
    }

    // Where a new block goes, given the last node of the list.
    method TailAddress(prevNode: nat) returns (a: nat)
      requires Valid()
      requires prevNode == if blocks == [] then 0 else blocks[|blocks| - 1].header
      ensures a == Abs().Top() && (prevNode == 0 <==> blocks == [])
    {
      HeadersPositive(Abs());
      assert blocks != [] ==> Stored(headers, blocks, |blocks| - 1);
      a := if prevNode == 0 then heapStart else headers[prevNode].startAddr + headers[prevNode].size;
    }

    // `mem_free`
    method MemFree(ptr: nat)
      requires Valid()
      modifies this
      ensures Valid() && Abs() == Free(old(Abs()), ptr)
    {
      var currentNode := memList;
      ghost var i := 0;
      HeadersPositive(Abs());
      while currentNode != 0
        invariant i <= |blocks| && currentNode == HeaderAt(blocks, i)
        invariant forall j :: 0 <= j < i ==> blocks[j].Payload() != ptr
        invariant unchanged(this)
        decreases |blocks| - i
      {
        assert Stored(headers, blocks, i);
        if headers[currentNode].startAddr == ptr {
          assert i == Find(blocks, ptr);
          RelinkFlag(headers, memList, Abs(), i, true);
          headers := headers[currentNode := headers[currentNode].(isFree := true)];
          blocks := blocks[i := blocks[i].(free := true)];
          return;
        }
        currentNode := headers[currentNode].next;
        i := i + 1;
      }
    }
  }

  // ---------- geometry ----------

  lemma {:induction false} Ordered(h: State, i: nat, j: nat)
    requires h.Tiled() && i < j < |h.blocks|
    ensures h.blocks[i].End() <= h.blocks[j].header
    decreases j
  {
    assert h.Follows(j);
    if i + 1 < j {
      Ordered(h, i, j - 1);
    }
  }

  lemma HeadersDistinct(h: State)
    requires h.Tiled()
    ensures forall i, j :: 0 <= i < j < |h.blocks| ==> h.blocks[i].End() <= h.blocks[j].header
    ensures forall i :: 0 <= i < |h.blocks| ==> h.start <= h.blocks[i].header && h.blocks[i].End() <= h.Top()
  {
    forall i, j | 0 <= i < j < |h.blocks|
      ensures h.blocks[i].End() <= h.blocks[j].header
    {
      Ordered(h, i, j);
    }
  }

  lemma HeadersPositive(h: State)
    requires h.Tiled()
    ensures forall i :: 0 <= i < |h.blocks| ==> 0 < h.blocks[i].header
  {
    HeadersDistinct(h);
  }

  lemma FlagKeepsTiled(h: State, i: nat, free: bool)
    requires h.Tiled() && i < |h.blocks|
    ensures h.(blocks := h.blocks[i := h.blocks[i].(free := free)]).Tiled()
  {
    var h' := h.(blocks := h.blocks[i := h.blocks[i].(free := free)]);
    forall j | 0 < j < |h'.blocks|
      ensures h'.Follows(j)
    {
      assert h.Follows(j);
    }
  }

  // Writing one flag into a header in memory.
  lemma RelinkFlag(headers: map<nat, MemNode>, list: nat, h: State, i: nat, free: bool)
    requires h.Tiled() && Linked(headers, list, h.blocks) && i < |h.blocks|
    ensures
      var b := h.blocks[i];
      var bs := h.blocks[i := b.(free := free)];
      && b.header in headers && headers[b.header].startAddr == b.Payload()
      && Linked(headers[b.header := headers[b.header].(isFree := free)], list, bs)
      && h.(blocks := bs).Tiled()
  {
    var b := h.blocks[i];
    var bs := h.blocks[i := b.(free := free)];
    assert Stored(headers, h.blocks, i);
    var hs := headers[b.header := headers[b.header].(isFree := free)];
    forall j | 0 <= j < |bs|
      ensures Stored(hs, bs, j)
    {
      assert Stored(headers, h.blocks, j);
      if j < i { Ordered(h, j, i); } else if i < j { Ordered(h, i, j); }
    }
    FlagKeepsTiled(h, i, free);
  }

  // Writing a new header behind the last block and chaining it to the list.
  lemma RelinkAppend(headers: map<nat, MemNode>, list: nat, h: State, size: nat)
    requires h.Tiled() && Linked(headers, list, h.blocks)
    ensures
      var n := |h.blocks|;
      var bs := h.blocks + [Block(h.Top(), size, false)];
      var hs := headers[h.Top() := MemNode(h.Top() + NODE_SIZE, size, 0, false)];
      if n == 0 then Linked(hs, h.Top(), bs)
      else
        var last := h.blocks[n - 1].header;
        last in hs && Linked(hs[last := hs[last].(next := h.Top())], list, bs)
  {
    var n := |h.blocks|;
    var bs := h.blocks + [Block(h.Top(), size, false)];
    var hs := headers[h.Top() := MemNode(h.Top() + NODE_SIZE, size, 0, false)];
    var hs' := if n == 0 then hs else
      assert Stored(headers, h.blocks, n - 1);
      hs[h.blocks[n - 1].header := hs[h.blocks[n - 1].header].(next := h.Top())];
    forall j | 0 <= j < |bs|
      ensures Stored(hs', bs, j)
    {
      if j < n {
        assert Stored(headers, h.blocks, j);
        if j < n - 1 { Ordered(h, j, n - 1); }
      }
    }
  }

  // The request for which the room check overflows and passes although there is no room.
  predicate WrapHazard(h: State, size: nat) {
    && 0 < size
    && FirstFit(h.blocks, size) == |h.blocks|
    && WORD <= h.Top() + size + NODE_SIZE
    && HasRoom(h, size)
  }

  // Tiling survives an allocation exactly when the request does not make the room check wrap around.
  lemma AllocTilesIff(h: State, size: nat)
    requires h.Tiled() && size < WORD
    ensures Alloc(h, size).0.Tiled() <==> !WrapHazard(h, size)
  {
    var h' := Alloc(h, size).0;
    if 0 < size && FirstFit(h.blocks, size) < |h.blocks| {
      FlagKeepsTiled(h, FirstFit(h.blocks, size), false);
    }
    if 0 < size && FirstFit(h.blocks, size) == |h.blocks| && HasRoom(h, size) {
      assert h'.Top() == h.Top() + NODE_SIZE + size;
      forall j | 0 < j < |h'.blocks|
        ensures h'.Follows(j)
      {
        assert j < |h.blocks| ==> h.Follows(j);
      }
      if h'.Tiled() {
        assert h'.Top() < WORD;
      }
    }
  }
}
