/** Whole runs of the kernel's scheduler in memory, from `init_scheduler` on. */
module KernelRuns {
  import opened Scheduling
  import opened ProcessTable
  import opened KernelScheduler
  import Heap
  import HeapRuns

  // ---------- runs ----------

  ghost function KernelStep(k: Kernel, e: Event): Kernel {
    match e
    case Tick(sp) => k.(s := DoTick(k.s, sp))
    case Create(pid, proc) => AfterCreate(k, pid, proc)
    case Kill(pid) => AfterKill(k, pid)
    case Block(pid) => AfterBlock(k, pid)
    case Unblock(pid) => AfterUnblock(k, pid)
  }

  ghost function KernelRun(k: Kernel, es: seq<Event>): Kernel
    decreases |es|
  {
    if es == [] then k else KernelRun(KernelStep(k, es[0]), es[1..])
  }

  // What callers and memory must provide: the discipline of the scheduler, every allocation
  // succeeding, and a stack pointer inside a heap block when some process is preempted. The code
  // that runs before the first process may have its stack anywhere.
  ghost predicate Permitted(k: Kernel, e: Event) {
    Allowed(k.s, e) &&
    match e
    case Tick(sp) => 0 <= k.s.cur ==> Interior(k.h, sp)
    case Create(pid, proc) =>
      var ps := HeapRuns.AllocAll(k.h, PROCESS_ALLOCATIONS).1;
      && OutsideHeap(k.h, proc.argv)
      && (k.s.count < MAX_PROCESSES ==>
        0 !in ps && proc == Proc(Ready, ps[1], ps[1] + STACK_SIZE - FRAME_SIZE, proc.argv))
    case Kill(pid) => pid < MAX_PROCESSES
    case Block(pid) => pid < MAX_PROCESSES
    case Unblock(pid) =>
      pid < MAX_PROCESSES && (pid in k.s.table ==> Heap.Alloc(k.h, ProcessTable.NODE_SIZE).1 != 0)
  }

  ghost predicate Playable(k: Kernel, es: seq<Event>)
    decreases |es|
  {
    es != [] ==> Permitted(k, es[0]) && Playable(KernelStep(k, es[0]), es[1..])
  }

  // ---------- blocks ----------

  // The block at `a` serves for `o`.
  ghost predicate InUse(k: Kernel, a: nat, o: Owner) {
    match o
    case StructOf(pid) => pid in k.s.table && pid < |k.procs| && a == k.procs[pid]
    case StackOf(pid) => pid in k.s.table && a == k.s.table[pid].base
    case NodeOf(pid) => pid in k.s.ready && a == NodeFor(k.nodes, k.s.ready, pid)
  }

  // Struct and stack of every process and the node of every queued one are live heap blocks, and no
  // two of all these overlap.
  ghost predicate BlocksApart(k: Kernel) {
    && (forall a: nat, o :: InUse(k, a, o) ==> a != 0 && LiveFor(k.h, a, SizeOf(o)))
    && (forall a: nat, o, b: nat, q :: InUse(k, a, o) && InUse(k, b, q) && o != q ==> a + SizeOf(o) <= b || b + SizeOf(q) <= a)
  }

  lemma UseIsOwned(k: Kernel, m: Image, own: map<nat, Owner>, a: nat, o: Owner)
    requires Good(k.h, m, k.s, own) && Inv(k.s) && m.procs == k.procs && m.nodes == k.nodes && InUse(k, a, o)
    ensures a in own && own[a] == o && a != 0 && LiveFor(k.h, a, SizeOf(o))
  {
    BlocksOfProcess(k.h, m, k.s, own, o.pid);
  }

  lemma OwnedApart(k: Kernel, m: Image, own: map<nat, Owner>)
    requires Good(k.h, m, k.s, own) && Inv(k.s) && m.procs == k.procs && m.nodes == k.nodes
    ensures BlocksApart(k)
  {
    hide Good, Inv, InUse;
    forall a: nat, o | InUse(k, a, o)
      ensures a != 0 && LiveFor(k.h, a, SizeOf(o))
    {
      UseIsOwned(k, m, own, a, o);
    }
    forall a: nat, o, b: nat, q | InUse(k, a, o) && InUse(k, b, q) && o != q
      ensures a + SizeOf(o) <= b || b + SizeOf(q) <= a
    {
      UseIsOwned(k, m, own, a, o);
      UseIsOwned(k, m, own, b, q);
      BlocksDisjoint(k.h, m, k.s, own, a, b);
    }
  }

  // ---------- the run theorem ----------

  // One event through the kernel's calls.
  method PlayEvent(kernel: Scheduler, e: Event)
    requires kernel.Valid() && Permitted(kernel.Abs(), e)
    modifies kernel, kernel.heap, kernel.processes
    ensures kernel.Valid() && kernel.Abs() == KernelStep(old(kernel.Abs()), e)
    ensures kernel.s == Step(old(kernel.s), e)
  {
    hide Good, Inv, Interior, HeapRuns.AllocAll, Heap.Alloc, AfterKill, AfterBlock, AfterRemove, Heap.Free, DoKill, DoBlock, DoTick;
    match e {
      case Tick(sp) =>
        var resume := kernel.Tick(sp);
      case Create(pid, proc) =>
        TableEntry(kernel.heap.Abs(), kernel.Img(), kernel.s, kernel.own, pid);
        var r := kernel.CreateProcess(pid, proc.argv);
      case Kill(pid) =>
        var r := kernel.KillProcess(pid);
      case Block(pid) =>
        var r := kernel.BlockProcess(pid);
      case Unblock(pid) =>
        var r := kernel.UnblockProcess(pid);
    }
  }

  // From `init_scheduler` on, over every disciplined run whose allocations succeed: the kernel in
  // memory goes through the states of the scheduler's state machine, and all blocks in use stay
  // live and apart.
  method PlayFromStart(heap: Heap.MemoryManager, es: seq<Event>) returns (kernel: Scheduler)
    requires heap.Valid() && heap.heapEnd + STACK_SIZE + Heap.NODE_SIZE < Heap.WORD
    requires Playable(Start(heap.Abs()), es)
    modifies heap
    ensures kernel.Valid() && kernel.heap == heap
    ensures kernel.s == Run(Initial, es) && Disciplined(Initial, es)
    ensures kernel.Abs() == KernelRun(Start(old(heap.Abs())), es)
    ensures BlocksApart(kernel.Abs())
  {
    hide Permitted, Good, Inv, KernelStep, Step;
    kernel := new Scheduler(heap);
    ghost var start := kernel.Abs();
    assert es[0..] == es;
    for i := 0 to |es|
      invariant kernel.Valid() && kernel.heap == heap && fresh(kernel) && fresh(kernel.processes)
      invariant Playable(kernel.Abs(), es[i..])
      invariant KernelRun(kernel.Abs(), es[i..]) == KernelRun(start, es)
      invariant Run(kernel.s, es[i..]) == Run(Initial, es)
      invariant Disciplined(kernel.s, es[i..]) ==> Disciplined(Initial, es)
    {
      assert es[i..][0] == es[i] && es[i..][1..] == es[i + 1..];
      AllowedOf(kernel.Abs(), es[i]);
      PlayEvent(kernel, es[i]);
    }
    assert es[|es|..] == [];
    OwnedApart(kernel.Abs(), kernel.Img(), kernel.own);
  }

  lemma AllowedOf(k: Kernel, e: Event)
    requires Permitted(k, e)
    ensures Allowed(k.s, e)
  {
  }

  // ---------- the first dispatch ----------

  const STACK_BLOCK: nat := 0x1000088
  const FIRST: seq<Heap.Block> := [
    Heap.Block(0x1000018, PROCESS_SIZE, false),
    Heap.Block(0x1000068, STACK_SIZE, false),
    Heap.Block(0x1001088, ProcessTable.NODE_SIZE, false)]

  // In the kernel's own heap: the first process is created, dispatched by a tick that preempts code
  // with any stack pointer, and preempted itself.
  lemma FirstDispatch(sp0: nat, sp1: nat, argv: nat)
    requires STACK_BLOCK < sp1 < STACK_BLOCK + STACK_SIZE && argv < 0x1000000
    ensures
      var proc := Proc(Ready, STACK_BLOCK, 0x1000FE8, argv);
      Playable(Start(Heap.Init(0x1000000, 0x1000000)), [Create(0, proc), Tick(sp0), Tick(sp1)])
  {
    var proc := Proc(Ready, STACK_BLOCK, STACK_BLOCK + STACK_SIZE - FRAME_SIZE, argv);
    var es := [Create(0, proc), Tick(sp0), Tick(sp1)];
    assert es[1..] == [Tick(sp0), Tick(sp1)] && es[1..][1..] == [Tick(sp1)] && es[1..][1..][1..] == [];
    var k := Start(Heap.Init(0x1000000, 0x1000000));
    FirstBlocks();
    hide HeapRuns.AllocAll;
    var k1 := KernelStep(k, es[0]);
    assert k1.h.blocks == FIRST && k1.s.ready == [0];
    var k2 := KernelStep(k1, es[1]);
    assert k2.h.blocks[1].Payload() == STACK_BLOCK;
    assert Interior(k2.h, sp1);
    assert Permitted(k, es[0]) && Permitted(k1, es[1]) && Permitted(k2, es[2]);
    hide Permitted, KernelStep;
    OnePlayable(k2, es[2]);
    assert Playable(k1, es[1..]);
  }

  lemma OnePlayable(k: Kernel, e: Event)
    requires Permitted(k, e)
    ensures Playable(k, [e])
  {
    assert [e][1..] == [];
  }

  lemma FirstBlocks()
    ensures
      var h := Heap.Init(0x1000000, 0x1000000);
      HeapRuns.AllocAll(h, PROCESS_ALLOCATIONS) == (h.(blocks := FIRST), [0x1000038, STACK_BLOCK, 0x10010A8])
  {
    var h := Heap.Init(0x1000000, 0x1000000);
    AllocThree(h);
    var h1 := h.(blocks := FIRST[..1]);
    var h2 := h.(blocks := FIRST[..2]);
    assert h.blocks + [FIRST[0]] == h1.blocks && h1.blocks + [FIRST[1]] == h2.blocks && h2.blocks + [FIRST[2]] == FIRST;
    hide HeapRuns.AllocAll, Heap.Alloc;
    HeapRuns.AllocBehind(h, PROCESS_SIZE);
    HeapRuns.AllocBehind(h1, STACK_SIZE);
    HeapRuns.AllocBehind(h2, ProcessTable.NODE_SIZE);
  }
}
