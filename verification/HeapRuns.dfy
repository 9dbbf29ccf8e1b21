/** What the kernel heap promises over whole runs of `mem_alloc` and `mem_free`. */
module HeapRuns {
  import opened Heap

  // ---------- one call ----------

  // Same blocks at the same places; only free flags may differ, and new blocks may follow.
  ghost predicate Extends(h: State, h': State) {
    && h'.start == h.start && h'.end == h.end
    && |h.blocks| <= |h'.blocks|
    && forall i :: 0 <= i < |h.blocks| ==>
      h'.blocks[i].header == h.blocks[i].header && h'.blocks[i].size == h.blocks[i].size
  }

  // Block `i` is the live block with payload address `p`.
  ghost predicate LiveAt(h: State, i: int, p: nat) {
    0 <= i < |h.blocks| && h.blocks[i].Payload() == p && !h.blocks[i].free
  }

  lemma PayloadsDistinct(h: State, i: int, j: int)
    requires h.Tiled() && 0 <= i < |h.blocks| && 0 <= j < |h.blocks|
    requires h.blocks[i].Payload() == h.blocks[j].Payload()
    ensures i == j
  {
    if i < j { Ordered(h, i, j); } else if j < i { Ordered(h, j, i); }
  }

  // NULL means size 0 or no room anywhere; otherwise the block returned was not live, is large
  // enough, lies inside the heap, and overlaps no other block. No size ever changes.
  lemma AllocMeaning(h: State, size: nat)
    requires h.Tiled() && size < WORD && !WrapHazard(h, size)
    ensures
      var (h', p) := Alloc(h, size);
      && h'.Tiled() && Extends(h, h')
      && (p == 0 <==> size == 0 || ((forall b :: b in h.blocks ==> !Fits(b, size)) && h.end < h.Top() + NODE_SIZE + size))
      && (p == 0 ==> h' == h)
      && (p != 0 ==> !h.Live(p) && exists i :: LiveAt(h', i, p) && Granted(h, h', i, size))
  {
    AllocTilesIff(h, size);
    var (h', p) := Alloc(h, size);
    var i := FirstFit(h.blocks, size);
    if size != 0 {
      if i < |h.blocks| {
        assert h.blocks[i] in h.blocks;
        assert LiveAt(h', i, p) && Granted(h, h', i, size) by { GrantedBlock(h, h', i, size); }
        forall j | 0 <= j < |h.blocks| && h.blocks[j].Payload() == p
          ensures h.blocks[j].free
        {
          PayloadsDistinct(h, i, j);
        }
      } else if p != 0 {
        assert LiveAt(h', i, p) && Granted(h, h', i, size) by { GrantedBlock(h, h', i, size); }
        HeadersDistinct(h);
      }
    }
  }

  // Block `j` was there before as it is now, and lies apart from block `i`.
  ghost predicate KeptApart(h: State, h': State, i: int, j: int)
    requires 0 <= i < |h'.blocks| && 0 <= j < |h'.blocks|
  {
    && j < |h.blocks| && h'.blocks[j] == h.blocks[j]
    && (h'.blocks[j].End() <= h'.blocks[i].header || h'.blocks[i].End() <= h'.blocks[j].header)
  }

  // What a caller may rely on: room for `size` bytes inside the heap, apart from every other
  // block (header and payload), and all those blocks untouched.
  ghost predicate Granted(h: State, h': State, i: int, size: nat)
    requires 0 <= i < |h'.blocks|
  {
    var b := h'.blocks[i];
    && size <= b.size
    && h.start + NODE_SIZE <= b.Payload() && b.End() <= h.end
    && (i < |h.blocks| ==> h.blocks[i].free)
    && forall j :: 0 <= j < |h'.blocks| && j != i ==> KeptApart(h, h', i, j)
  }

  lemma GrantedBlock(h: State, h': State, i: nat, size: nat)
    requires h'.Tiled() && i < |h'.blocks| && size <= h'.blocks[i].size
    requires h'.start == h.start && h'.end == h.end
    requires i < |h.blocks| ==> h.blocks[i].free
    requires forall j :: 0 <= j < |h'.blocks| && j != i ==> j < |h.blocks| && h'.blocks[j] == h.blocks[j]
    ensures Granted(h, h', i, size)
  {
    forall j | 0 <= j < |h'.blocks| && j != i
      ensures KeptApart(h, h', i, j)
    {
      if j < i { Ordered(h', j, i); } else { Ordered(h', i, j); }
    }
    HeadersDistinct(h');
  }

  // A request that no free block fits and the tail has room for becomes a new block behind the last.
  lemma AllocBehind(h: State, size: nat)
    requires 0 < size && (forall i :: 0 <= i < |h.blocks| ==> !Fits(h.blocks[i], size))
    requires h.Top() + size + NODE_SIZE <= h.end < WORD
    ensures Alloc(h, size) == (h.(blocks := h.blocks + [Block(h.Top(), size, false)]), h.Top() + NODE_SIZE)
  {
  }

  // A fresh heap goes from behind the manager's struct to the last address given, and its first
  // allocation succeeds exactly when it and a header fit in between.
  lemma FreshHeap(start: nat, size: nat, n: nat)
    requires 56 <= size && 0 < start && start + size < WORD && n < WORD && start + 24 + n + 32 < WORD
    ensures Init(start, size).start == start + 24 && Init(start, size).end == start + size
    ensures Alloc(Init(start, size), n).1 == if 0 < n <= size - 56 then start + 56 else 0
  {
  }

  // Freeing a live block makes exactly that block free; any other address changes nothing.
  lemma FreeMeaning(h: State, p: nat, i: int)
    requires h.Tiled() && 0 <= i < |h.blocks|
    ensures Free(h, p).Tiled() && Extends(h, Free(h, p)) && |Free(h, p).blocks| == |h.blocks|
    ensures Free(h, p).blocks[i] == h.blocks[i].(free := h.blocks[i].free || h.blocks[i].Payload() == p)
  {
    var k := Find(h.blocks, p);
    if k < |h.blocks| {
      FlagKeepsTiled(h, k, true);
      if h.blocks[i].Payload() == p {
        PayloadsDistinct(h, k, i);
      }
    }
  }

  // With the whole address space as request the room check wraps around and hands out a block
  // that runs past the end of the heap.
  lemma WrapExample()
    ensures
      var h := Init(0x100_0000, 0x100_0000);
      var size := WORD - 0x100_0038;
      && h.Tiled() && WrapHazard(h, size)
      && Alloc(h, size).1 == 0x100_0038
      && Alloc(h, size).0.Top() == WORD > h.end
  {
    var h := Init(0x100_0000, 0x100_0000);
    var size := WORD - 0x100_0038;
    assert FirstFit(h.blocks, size) == 0;
    assert h.Top() + size + NODE_SIZE == WORD;
  }

  // ---------- runs ----------

  datatype Op = AllocOp(size: nat) | FreeOp(p: nat)

  function Step(h: State, op: Op): State {
    match op
    case AllocOp(size) => Alloc(h, size).0
    case FreeOp(p) => Free(h, p)
  }

  function Run(h: State, ops: seq<Op>): State
    decreases |ops|
  {
    if ops == [] then h else Run(Step(h, ops[0]), ops[1..])
  }

  // No request of the run makes the room check wrap around.
  predicate NoWrap(h: State, ops: seq<Op>) {
    forall op :: op in ops && op.AllocOp? ==> h.end + op.size + NODE_SIZE < WORD
  }

  lemma NoWrapHazard(h: State, size: nat)
    requires h.Tiled() && h.end + size + NODE_SIZE < WORD
    ensures !WrapHazard(h, size)
  {
  }

  // Over every run: headers and payloads tile the heap, no block moves or changes size, and a
  // block handed out stays live and in place until the run frees its address.
  lemma {:induction false} RunKeepsHeap(h: State, ops: seq<Op>)
    requires h.Tiled() && NoWrap(h, ops)
    ensures Run(h, ops).Tiled() && Extends(h, Run(h, ops))
    ensures forall i, p :: LiveAt(h, i, p) && FreeOp(p) !in ops ==> LiveAt(Run(h, ops), i, p)
    decreases |ops|
  {
    if ops != [] {
      var h1 := Step(h, ops[0]);
      assert ops[0] in ops;
      StepKeepsHeap(h, ops[0]);
      RunKeepsHeap(h1, ops[1..]);
      forall i, p | LiveAt(h, i, p) && FreeOp(p) !in ops
        ensures LiveAt(Run(h, ops), i, p)
      {
        assert LiveAt(h1, i, p);
      }
    }
  }

  lemma StepKeepsHeap(h: State, op: Op)
    requires h.Tiled() && NoWrap(h, [op])
    ensures Step(h, op).Tiled() && Extends(h, Step(h, op))
    ensures forall i, p :: LiveAt(h, i, p) && op != FreeOp(p) ==> LiveAt(Step(h, op), i, p)
  {
    assert op in [op];
    match op
    case AllocOp(size) =>
      NoWrapHazard(h, size);
      AllocMeaning(h, size);
    case FreeOp(q) =>
      forall i | 0 <= i < |h.blocks|
        ensures Free(h, q).blocks[i] == h.blocks[i].(free := h.blocks[i].free || h.blocks[i].Payload() == q)
      {
        FreeMeaning(h, q, i);
      }
      var k := Find(h.blocks, q);
      if k < |h.blocks| { FlagKeepsTiled(h, k, true); }
  }

  // ---------- replay ----------

  // A list of allocations: the heap afterwards and the address of each.
  function AllocAll(h: State, sizes: seq<nat>): (r: (State, seq<nat>))
    ensures |r.1| == |sizes|
    decreases |sizes|
  {
    if sizes == [] then (h, [])
    else
      var (h1, p) := Alloc(h, sizes[0]);
      var (h2, ps) := AllocAll(h1, sizes[1..]);
      (h2, [p] + ps)
  }

  function FreeAll(h: State, ps: seq<nat>): State
    decreases |ps|
  {
    if ps == [] then h else FreeAll(Free(h, ps[0]), ps[1..])
  }

  predicate NoWrapSizes(h: State, sizes: seq<nat>) {
    forall s :: s in sizes ==> h.end + s + NODE_SIZE < WORD
  }

  lemma NoWrapTail(h: State, sizes: seq<nat>, h1: State)
    requires NoWrapSizes(h, sizes) && sizes != [] && h1.end == h.end
    ensures NoWrapSizes(h1, sizes[1..])
  {
    forall s | s in sizes[1..]
      ensures h1.end + s + NODE_SIZE < WORD
    {
      assert s in sizes;
    }
  }

  function Freed(bs: seq<Block>): (r: seq<Block>)
    ensures |r| == |bs|
  {
    seq(|bs|, i requires 0 <= i < |bs| => bs[i].(free := true))
  }

  lemma FirstFitIs(bs: seq<Block>, size: nat, i: nat)
    requires i <= |bs| && (i < |bs| ==> Fits(bs[i], size))
    requires forall j :: 0 <= j < i ==> !Fits(bs[j], size)
    ensures FirstFit(bs, size) == i
  {
  }

  // What a list of allocations does to the blocks that were there and to the new ones.
  lemma {:induction false} AllocAllMeaning(h: State, sizes: seq<nat>)
    requires h.Tiled() && NoWrapSizes(h, sizes)
    ensures
      var (h', rs) := AllocAll(h, sizes);
      && h'.Tiled() && Extends(h, h')
      && (forall i :: 0 <= i < |h'.blocks| && h'.blocks[i].Payload() in rs ==>
          !h'.blocks[i].free && (i < |h.blocks| ==> h.blocks[i].free))
      && (forall i :: 0 <= i < |h'.blocks| && h'.blocks[i].Payload() !in rs ==>
          i < |h.blocks| && h'.blocks[i] == h.blocks[i])
    decreases |sizes|
  {
    if sizes != [] {
      assert sizes[0] in sizes;
      NoWrapHazard(h, sizes[0]);
      AllocMeaning(h, sizes[0]);
      var (h1, p) := Alloc(h, sizes[0]);
      NoWrapTail(h, sizes, h1);
      AllocAllMeaning(h1, sizes[1..]);
      var (h', rs') := AllocAll(h1, sizes[1..]);
      var rs := AllocAll(h, sizes).1;
      assert rs == [p] + rs';
      if p != 0 {
        var k :| LiveAt(h1, k, p) && Granted(h, h1, k, sizes[0]);
        forall i | 0 <= i < |h'.blocks|
          ensures h'.blocks[i].Payload() in rs ==> !h'.blocks[i].free && (i < |h.blocks| ==> h.blocks[i].free)
          ensures h'.blocks[i].Payload() !in rs ==> i < |h.blocks| && h'.blocks[i] == h.blocks[i]
        {
          if h'.blocks[i].Payload() == p { PayloadsDistinct(h', i, k); }
        }
      }
    }
  }

  lemma {:induction false} FreeAllMeaning(h: State, ps: seq<nat>)
    requires h.Tiled()
    ensures FreeAll(h, ps).Tiled() && Extends(h, FreeAll(h, ps))
    ensures |FreeAll(h, ps).blocks| == |h.blocks|
    ensures forall i :: 0 <= i < |h.blocks| ==>
      FreeAll(h, ps).blocks[i] == h.blocks[i].(free := h.blocks[i].free || h.blocks[i].Payload() in ps)
    decreases |ps|
  {
    if ps != [] {
      var h1 := Free(h, ps[0]);
      assert h1.Tiled() && |h1.blocks| == |h.blocks| by {
        StepKeepsHeap(h, FreeOp(ps[0]));
      }
      FreeAllMeaning(h1, ps[1..]);
      forall i | 0 <= i < |h.blocks|
        ensures FreeAll(h, ps).blocks[i] == h.blocks[i].(free := h.blocks[i].free || h.blocks[i].Payload() in ps)
      {
        FreeMeaning(h, ps[0], i);
      }
    }
  }

  // Every block the allocations add is smaller than a request that found no room before them.
  lemma AddedAreSmaller(h: State, h': State, size: nat)
    requires h.Tiled() && h'.Tiled() && Extends(h, h')
    requires h.end < h.Top() + size + NODE_SIZE
    ensures forall i :: |h.blocks| <= i < |h'.blocks| ==> h'.blocks[i].size < size
  {
    HeadersDistinct(h');
    forall i | |h.blocks| <= i < |h'.blocks|
      ensures h'.blocks[i].size < size
    {
      if 0 < |h.blocks| { assert h'.blocks[|h.blocks| - 1].End() == h.Top(); }
    }
  }

  // Running the same allocations again, with the added blocks present but free, gives the same
  // addresses and ends in the same heap.
  lemma {:induction false} ReplayFromFreed(h: State, sizes: seq<nat>)
    requires h.Tiled() && NoWrapSizes(h, sizes)
    ensures
      var (h', rs) := AllocAll(h, sizes);
      |h.blocks| <= |h'.blocks| &&
      AllocAll(h.(blocks := h.blocks + Freed(h'.blocks[|h.blocks|..])), sizes) == (h', rs)
    decreases |sizes|
  {
    AllocAllMeaning(h, sizes);
    var (h', rs) := AllocAll(h, sizes);
    var n := |h.blocks|;
    var added := Freed(h'.blocks[n..]);
    var g := h.(blocks := h.blocks + added);
    if sizes == [] {
      assert g == h;
    } else {
      var s := sizes[0];
      assert s in sizes;
      NoWrapHazard(h, s);
      AllocMeaning(h, s);
      var (h1, p) := Alloc(h, s);
      NoWrapTail(h, sizes, h1);
      AllocAllMeaning(h1, sizes[1..]);
      ReplayFromFreed(h1, sizes[1..]);
      var i := FirstFit(h.blocks, s);
      ReplayStep(h, h1, h', p, s);
    }
  }

  // One allocation in step with its replay.
  lemma ReplayStep(h: State, h1: State, h': State, p: nat, s: nat)
    requires h.Tiled() && h'.Tiled() && s + h.end + NODE_SIZE < WORD
    requires (h1, p) == Alloc(h, s)
    requires Extends(h, h1) && Extends(h1, h')
    ensures |h.blocks| <= |h1.blocks| <= |h'.blocks|
    ensures
      Alloc(h.(blocks := h.blocks + Freed(h'.blocks[|h.blocks|..])), s)
      == (h1.(blocks := h1.blocks + Freed(h'.blocks[|h1.blocks|..])), p)
  {
    if s != 0 {
      var n := |h.blocks|;
      if FirstFit(h.blocks, s) < n {
        ReplayReuse(h, Freed(h'.blocks[n..]), s);
      } else if p != 0 {
        ReplayAppend(h, h1, h', p, s);
      } else {
        ReplayNull(h, h', s);
      }
    }
  }

  lemma ReplayReuse(h: State, added: seq<Block>, s: nat)
    requires s != 0 && FirstFit(h.blocks, s) < |h.blocks|
    ensures
      var (h1, p) := Alloc(h, s);
      Alloc(h.(blocks := h.blocks + added), s) == (h1.(blocks := h1.blocks + added), p)
  {
    var i := FirstFit(h.blocks, s);
    FirstFitIs(h.blocks + added, s, i);
    var b := h.blocks[i].(free := false);
    assert (h.blocks + added)[i := b] == h.blocks[i := b] + added;
  }

  lemma ReplayAppend(h: State, h1: State, h': State, p: nat, s: nat)
    requires s != 0 && FirstFit(h.blocks, s) == |h.blocks| && p != 0
    requires (h1, p) == Alloc(h, s) && Extends(h1, h')
    ensures |h1.blocks| == |h.blocks| + 1 <= |h'.blocks|
    ensures
      Alloc(h.(blocks := h.blocks + Freed(h'.blocks[|h.blocks|..])), s)
      == (h1.(blocks := h1.blocks + Freed(h'.blocks[|h1.blocks|..])), p)
  {
    var n := |h.blocks|;
    var added := Freed(h'.blocks[n..]);
    FirstFitIs(h.blocks + added, s, n);
    assert h1.blocks[n] == Block(h.Top(), s, false);
    var b := added[0].(free := false);
    assert b == h1.blocks[n];
    assert added[1..] == Freed(h'.blocks[n + 1..]);
    SetFirst(h.blocks, added, b);
  }

  lemma SetFirst(bs: seq<Block>, added: seq<Block>, b: Block)
    requires added != []
    ensures (bs + added)[|bs| := b] == bs + [b] + added[1..]
  {
  }

  lemma ReplayNull(h: State, h': State, s: nat)
    requires h.Tiled() && h'.Tiled() && Extends(h, h') && s + h.end + NODE_SIZE < WORD
    requires s != 0 && FirstFit(h.blocks, s) == |h.blocks| && !HasRoom(h, s)
    ensures
      var g := h.(blocks := h.blocks + Freed(h'.blocks[|h.blocks|..]));
      Alloc(g, s) == (g, 0)
  {
    var g := h.(blocks := h.blocks + Freed(h'.blocks[|h.blocks|..]));
    assert h.Top() + s + NODE_SIZE < WORD;
    AddedAreSmaller(h, h', s);
    FirstFitIs(g.blocks, s, |g.blocks|);
    assert g.Top() == h'.Top();
    TopGrows(h, h');
  }

  lemma TopGrows(h: State, g: State)
    requires h.Tiled() && g.Tiled() && Extends(h, g)
    ensures h.Top() <= g.Top()
  {
    HeadersDistinct(g);
    if h.blocks != [] { assert g.blocks[|h.blocks| - 1].End() == h.Top(); }
  }

  // Allocate, free exactly those blocks in any order, allocate again: the same addresses, the
  // same NULLs and the same heap.
  lemma Replay(h: State, sizes: seq<nat>, order: seq<nat>)
    requires h.Tiled() && NoWrapSizes(h, sizes)
    requires forall p :: p != 0 ==> (p in order <==> p in AllocAll(h, sizes).1)
    ensures AllocAll(FreeAll(AllocAll(h, sizes).0, order), sizes) == AllocAll(h, sizes)
  {
    AllocAllMeaning(h, sizes);
    FreedAgain(h, AllocAll(h, sizes).0, AllocAll(h, sizes).1, order);
    ReplayFromFreed(h, sizes);
  }

  // Freeing the blocks that were handed out restores the old blocks and leaves the added ones free.
  lemma FreedAgain(h: State, h': State, rs: seq<nat>, order: seq<nat>)
    requires h'.Tiled() && Extends(h, h')
    requires forall p :: p != 0 ==> (p in order <==> p in rs)
    requires forall i :: 0 <= i < |h'.blocks| && h'.blocks[i].Payload() in rs ==>
      !h'.blocks[i].free && (i < |h.blocks| ==> h.blocks[i].free)
    requires forall i :: 0 <= i < |h'.blocks| && h'.blocks[i].Payload() !in rs ==>
      i < |h.blocks| && h'.blocks[i] == h.blocks[i]
    ensures FreeAll(h', order) == h.(blocks := h.blocks + Freed(h'.blocks[|h.blocks|..]))
  {
    FreeAllMeaning(h', order);
    var h2 := FreeAll(h', order);
    var bs := h.blocks + Freed(h'.blocks[|h.blocks|..]);
    forall i | 0 <= i < |bs|
      ensures h2.blocks[i] == bs[i]
    {
      assert h2.blocks[i] == h'.blocks[i].(free := h'.blocks[i].free || h'.blocks[i].Payload() in order);
    }
  }
}
