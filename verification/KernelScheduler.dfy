/** The scheduler and process calls of the kernel, working on the ready list in memory. */
module KernelScheduler {
  import opened Scheduling
  import opened ProcessTable
  import Heap
  import HeapRuns

  const PROCESS_ALLOCATIONS: seq<nat> := [PROCESS_SIZE, STACK_SIZE, ProcessTable.NODE_SIZE]

  lemma AllocThree(h: Heap.State)
    ensures
      var (h1, p) := Heap.Alloc(h, PROCESS_SIZE);
      var (h2, q) := Heap.Alloc(h1, STACK_SIZE);
      var (h3, r) := Heap.Alloc(h2, ProcessTable.NODE_SIZE);
      HeapRuns.AllocAll(h, PROCESS_ALLOCATIONS) == (h3, [p, q, r])
  {
    var h1 := Heap.Alloc(h, PROCESS_SIZE).0;
    var h2 := Heap.Alloc(h1, STACK_SIZE).0;
    var h3 := Heap.Alloc(h2, ProcessTable.NODE_SIZE).0;
    assert PROCESS_ALLOCATIONS[1..] == [STACK_SIZE, ProcessTable.NODE_SIZE];
    assert PROCESS_ALLOCATIONS[1..][1..] == [ProcessTable.NODE_SIZE];
    assert PROCESS_ALLOCATIONS[1..][1..][1..] == [];
    AllocFirst(h, PROCESS_ALLOCATIONS);
    AllocFirst(h1, PROCESS_ALLOCATIONS[1..]);
    AllocFirst(h2, PROCESS_ALLOCATIONS[1..][1..]);
    assert HeapRuns.AllocAll(h3, []) == (h3, []);
    var p, q, r := Heap.Alloc(h, PROCESS_SIZE).1, Heap.Alloc(h1, STACK_SIZE).1, Heap.Alloc(h2, ProcessTable.NODE_SIZE).1;
    assert [p] + ([q] + ([r] + [])) == [p, q, r];
  }

  lemma AllocFirst(h: Heap.State, sizes: seq<nat>)
    requires sizes != []
    ensures
      var (h1, p) := Heap.Alloc(h, sizes[0]);
      var (h2, ps) := HeapRuns.AllocAll(h1, sizes[1..]);
      HeapRuns.AllocAll(h, sizes) == (h2, [p] + ps)
  {
  }

  // ---------- the calls on heap, processes and addresses ----------

  // The list node of a queued process.
  ghost function NodeFor(nodes: seq<nat>, ready: seq<nat>, pid: nat): nat {
    NodeAddr(nodes, IndexOf(ready, pid))
  }

  /** The heap, the scheduler's state, the `processes` array and the list's nodes from the head. */
  datatype Kernel = Kernel(h: Heap.State, s: State, procs: seq<nat>, nodes: seq<nat>)

  function Start(h: Heap.State): Kernel {
    Kernel(h, Initial, seq(MAX_PROCESSES, _ => 0), [])
  }

  // The pid off the ready list, its node back in the heap.
  ghost function AfterRemove(k: Kernel, pid: nat): Kernel {
    var i := IndexOf(k.s.ready, pid);
    if i < |k.s.ready| && i < |k.nodes|
    then k.(h := Heap.Free(k.h, k.nodes[i]), s := DoRemove(k.s, pid), nodes := k.nodes[..i] + k.nodes[i + 1..])
    else k
  }

  ghost function AfterCreate(k: Kernel, pid: nat, proc: Proc): Kernel {
    var (h', ps) := HeapRuns.AllocAll(k.h, PROCESS_ALLOCATIONS);
    if k.s.count >= MAX_PROCESSES || |k.procs| <= pid then k
    else Kernel(h', DoCreate(k.s, pid, proc), k.procs[pid := ps[0]], k.nodes + [ps[2]])
  }

  // The heap a creation leaves: it stops at the first allocation that fails, and what was allocated
  // before stays allocated.
  function CreateHeap(h: Heap.State): Heap.State {
    var (h1, p) := Heap.Alloc(h, PROCESS_SIZE);
    if p == 0 then h1
    else
      var (h2, q) := Heap.Alloc(h1, STACK_SIZE);
      if q == 0 then h2 else Heap.Alloc(h2, ProcessTable.NODE_SIZE).0
  }

  ghost function AfterKill(k: Kernel, pid: nat): Kernel {
    if pid !in k.s.table || |k.procs| <= pid then k
    else
      var r := AfterRemove(k, pid);
      Kernel(Heap.Free(Heap.Free(r.h, k.s.table[pid].base), k.procs[pid]), DoKill(k.s, pid), k.procs[pid := 0], r.nodes)
  }

  ghost function AfterBlock(k: Kernel, pid: nat): Kernel {
    if pid !in k.s.table then k
    else AfterRemove(k.(s := k.s.(table := k.s.table[pid := k.s.table[pid].(status := Blocked)])), pid)
  }

  ghost function AfterUnblock(k: Kernel, pid: nat): Kernel {
    var (h', a) := Heap.Alloc(k.h, ProcessTable.NODE_SIZE);
    if pid !in k.s.table then k
    else Kernel(h', DoUnblock(k.s, pid), k.procs, k.nodes + [a])
  }

  /** `scheduler_cdt` and the objects it points to, by address. */
  class Scheduler {
    var processCount: int
    var head: nat
    var current: nat
    const processes: array<nat>
    var mem: map<nat, Object>
    const heap: Heap.MemoryManager

    ghost var nodes: seq<nat>
    ghost var s: State
    ghost var own: map<nat, Owner>

    ghost function Img(): Image
      reads this, processes
    {
      Image(mem, processes[..], head, current, nodes)
    }

    ghost function Abs(): Kernel
      reads this, processes, heap
    {
      Kernel(heap.Abs(), s, processes[..], nodes)
    }

    // The memory image stands for `s`, and every block in use is accounted for.
    ghost predicate Consistent()
      reads this, processes, heap
    {
      heap.Valid() && processCount == s.count && Good(heap.Abs(), Img(), s, own)
    }

    ghost predicate Valid()
      reads this, processes, heap
    {
      Consistent() && Inv(s)
    }

    // `init_scheduler`
    constructor (h: Heap.MemoryManager)
      requires h.Valid() && h.heapEnd + STACK_SIZE + Heap.NODE_SIZE < Heap.WORD
      ensures Valid() && heap == h && fresh(processes) && Abs() == Start(h.Abs())
    {
      heap := h;
      processCount := 0;
      var table := new nat[MAX_PROCESSES](_ => 0);
      processes := table;
      head, current := 0, 0;
      mem := map[];
      nodes, s, own := [], Initial, map[];
    }

    // `scheduler`: called with the stack pointer of the preempted code.
    method Tick(sp: nat) returns (resume: nat)
      requires Valid() && (0 <= s.cur ==> Interior(heap.Abs(), sp))
      modifies `mem, `current, `s
      ensures Valid() && s == DoTick(old(s), sp) && resume == Resumed(old(s), sp)
    {
      hide Good, Inv, Interior, Heap.Linked, Heap.State.Tiled;
      HeadIsNull(heap.Abs(), Img(), s, own);
      if head == 0 {
        return sp;
      }
      TickParts(s, sp);
      if current != 0 {
        SaveContext(sp);
      }
      HeadIsNull(heap.Abs(), Img(), s, own);
      AdvancedGood(heap.Abs(), Img(), s, own);
      if current == 0 || mem[current].next == 0 {
        current := head;
      } else {
        current := mem[current].next;
      }
      s := s.(cur := Next(s));
      CurrentProcess(heap.Abs(), Img(), s, own);
      resume := mem[mem[current].process].proc.sp;
    }

    // Stores the stack pointer of the process `current` names.
    method SaveContext(sp: nat)
      requires Valid() && Interior(heap.Abs(), sp) && 0 <= s.cur
      modifies `mem, `s
      ensures Consistent() && s.cur < |s.ready| && s.ready[s.cur] in old(s).table
      ensures s == old(s).(table := old(s).table[s.ready[s.cur] := old(s).table[s.ready[s.cur]].(sp := sp)])
    {
      hide Good, Inv, Interior, Heap.Linked, Heap.State.Tiled;
      CurrentProcess(heap.Abs(), Img(), s, own);
      ghost var pid := s.ready[s.cur];
      ghost var proc := s.table[pid].(sp := sp);
      RewrittenGood(heap.Abs(), Img(), s, own, pid, proc);
      var process := mem[current].process;
      mem := mem[process := mem[process].(proc := mem[process].proc.(sp := sp))];
      s := s.(table := s.table[pid := proc]);
    }

    // `add_process`: -1 and no change when there is no memory for the node.
    method AddProcess(process: nat) returns (r: int)
      requires heap.Valid() && !Heap.WrapHazard(heap.Abs(), ProcessTable.NODE_SIZE)
      requires Chained(Img()) && NoDup(nodes) && forall a :: a in nodes ==> heap.Abs().Live(a)
      modifies `mem, `head, `nodes, heap
      ensures heap.Valid() && heap.Abs() == Heap.Alloc(old(heap.Abs()), ProcessTable.NODE_SIZE).0
      ensures
        var a := Heap.Alloc(old(heap.Abs()), ProcessTable.NODE_SIZE).1;
        if a == 0 then r == -1 && Img() == old(Img())
        else r == 0 && Img() == Appended(old(Img()), a, process)
    {
      HeapRuns.AllocMeaning(heap.Abs(), ProcessTable.NODE_SIZE);
      ghost var m := Img();
      hide NoDup, Heap.Linked, Heap.State.Tiled, Heap.State.Top, Heap.HasRoom, Heap.FirstFit, HeapRuns.Granted, HeapRuns.LiveAt, HeapRuns.Extends;
      var newNode := heap.MemAlloc(ProcessTable.NODE_SIZE);
      if newNode == 0 {
        return -1;
      }
      mem := mem[newNode := NodeObj(process, 0)];
      if head == 0 {
        assert nodes != [] ==> NodeOk(m, 0);
        head := newNode;
      } else {
        var last := LastNode(m, newNode);
        mem := mem[last := mem[last].(next := newNode)];
      }
      nodes := nodes + [newNode];
      r := 0;
    }

    // The walk to the end of the list.
    method LastNode(ghost m: Image, ghost newNode: nat) returns (last: nat)
      requires Chained(m) && m.nodes == nodes != [] && m.head == head && newNode !in nodes
      requires newNode in mem && mem == m.mem[newNode := mem[newNode]]
      ensures last == nodes[|nodes| - 1] && last in m.mem && m.mem[last].NodeObj? && last != newNode
    {
      last := head;
      ghost var i := 0;
      assert NodeOk(m, i) && nodes[i] in nodes;
      while mem[last].next != 0
        invariant i < |nodes| && last == nodes[i] && last in m.mem && m.mem[last].NodeObj?
        invariant last != newNode && m.mem[last].next == NodeAddr(nodes, i + 1)
        decreases |nodes| - i
      {
        last := mem[last].next;
        i := i + 1;
        assert NodeOk(m, i) && nodes[i] in nodes;
      }
      assert i + 1 < |nodes| ==> NodeOk(m, i + 1);
    }

    // `remove_process`: only the ready list changes.
    method RemoveProcess(pid: nat)
      requires Consistent() && (pid in s.ready ==> 0 <= s.cur)
      modifies this, heap
      ensures Consistent() && s == DoRemove(old(s), pid) && Abs() == AfterRemove(old(Abs()), pid)
      ensures forall p :: p in own ==> p in old(own)
    {
      hide Good, Inv, Interior, Heap.Linked, Heap.State.Tiled;
      ListFacts(heap.Abs(), Img(), s, own);
      var node, prev := head, 0;
      ghost var i := 0;
      while node != 0
        invariant i <= |nodes| == |s.ready| && node == NodeAddr(nodes, i)
        invariant prev == if i == 0 then 0 else nodes[i - 1]
        invariant forall j :: 0 <= j < i ==> s.ready[j] != pid
        invariant i > 0 ==> prev != 0 && prev in mem && mem[prev].NodeObj?
        invariant unchanged(this) && unchanged(heap)
        decreases |nodes| - i
      {
        NodeProcess(heap.Abs(), Img(), s, own, i);
        if mem[mem[node].process].pid == pid {
          assert i == IndexOf(s.ready, pid) && s.ready[i] in s.ready;
          UnlinkAt(node, prev, pid, i);
          return;
        }
        prev, node := node, mem[node].next;
        i := i + 1;
      }
      if i < |nodes| { NodeProcess(heap.Abs(), Img(), s, own, i); }
      assert IndexOf(s.ready, pid) == |s.ready|;
    }

    // The body of the walk's match: unlink the node and give it back to the heap.
    method UnlinkAt(node: nat, prev: nat, pid: nat, ghost i: nat)
      requires Consistent() && pid in s.ready && 0 <= s.cur && i == IndexOf(s.ready, pid) < |nodes|
      requires node == nodes[i] && prev == if i == 0 then 0 else nodes[i - 1]
      requires i > 0 ==> prev != 0 && prev in mem && mem[prev].NodeObj?
      modifies this, heap
      ensures Consistent() && s == DoRemove(old(s), pid)
      ensures heap.Abs() == Heap.Free(old(heap.Abs()), node)
      ensures nodes == old(nodes)[..i] + old(nodes)[i + 1..] && own == old(own) - {node}
    {
      hide Good, Inv, Interior, NoDup, Chained, IndexOf, DoRemove, Heap.Linked, Heap.State.Tiled, Heap.Free;
      ghost var m := Img();
      ListFacts(heap.Abs(), m, s, own);
      NodeProcess(heap.Abs(), m, s, own, i);
      UnlinkedGood(heap.Abs(), m, s, own, pid);
      RemoveCounts(s, pid);
      var next := mem[node].next;
      var wasCurrent := mem[node].process == mem[current].process;
      if prev == 0 {
        head := next;
      } else {
        mem := mem[prev := mem[prev].(next := next)];
      }
      if wasCurrent {
        current := next;
        if current == 0 {
          current := head;
        }
      }
      processCount := processCount - 1;
      nodes := nodes[..i] + nodes[i + 1..];
      assert Img() == Unlinked(m, i);
      heap.MemFree(node);
      assert Img() == Unlinked(m, i);
      s := DoRemove(s, pid);
      own := own - {node};
    }

    // One allocation while the scheduler's own blocks stay put.
    method Allocate(size: nat) returns (a: nat)
      requires Consistent() && 0 < size <= STACK_SIZE
      modifies heap
      ensures Consistent() && (heap.Abs(), a) == Heap.Alloc(old(heap.Abs()), size)
      ensures heap.heapStart == old(heap.heapStart) && heap.heapEnd == old(heap.heapEnd)
      ensures a != 0 ==> a !in own && LiveFor(heap.Abs(), a, size)
      ensures forall b, n :: LiveFor(old(heap.Abs()), b, n) ==> LiveFor(heap.Abs(), b, n) && b != a
    {
      hide Heap.Linked, Heap.State.Tiled, Represents, LiveFor, Interior, OwnsNodes, OwnsTable, NoDup;
      ghost var h := heap.Abs();
      AllocOwns(h, size, own, s);
      forall b, n | LiveFor(h, b, n)
        ensures LiveFor(Heap.Alloc(h, size).0, b, n) && b != Heap.Alloc(h, size).1
      {
        AllocKeepsLive(h, size, b, n);
      }
      a := heap.MemAlloc(size);
    }

    // `create_process`; `garbage` is what the fresh struct happens to hold where its pid is read.
    method CreateProcess(garbage: nat, argv: nat) returns (r: int)
      requires Valid() && garbage < MAX_PROCESSES && garbage !in s.table && OutsideHeap(heap.Abs(), argv)
      modifies this, heap, processes
      ensures Valid()
      ensures
        var ps := HeapRuns.AllocAll(old(heap.Abs()), PROCESS_ALLOCATIONS).1;
        if old(s).count >= MAX_PROCESSES then r == -1 && Abs() == old(Abs())
        else if 0 in ps then r == -1 && Abs() == old(Abs()).(h := CreateHeap(old(heap.Abs())))
        else
          && r == garbage && NodeFor(nodes, s.ready, garbage) == ps[2]
          && Abs() == AfterCreate(old(Abs()), garbage, Proc(Ready, ps[1], ps[1] + STACK_SIZE - FRAME_SIZE, argv))
    {
      hide Good, Inv, Interior, LiveFor, Heap.Linked, Heap.State.Tiled, Heap.Alloc, HeapRuns.AllocAll;
      AllocThree(heap.Abs());
      TableEntry(heap.Abs(), Img(), s, own, garbage);
      if processCount >= MAX_PROCESSES {
        return -1;
      }
      var process := Allocate(PROCESS_SIZE);
      if process == 0 {
        return -1;
      }
      var base := Allocate(STACK_SIZE);
      if base == 0 {
        return -1;
      }
      r := Enter(process, garbage, Proc(Ready, base, base + STACK_SIZE - FRAME_SIZE, argv));
    }

    // The second half of `create_process`: fill the struct, queue it, enter it into the table.
    method Enter(process: nat, pid: nat, proc: Proc) returns (r: int)
      requires Valid() && pid < MAX_PROCESSES && pid !in s.table && s.count < MAX_PROCESSES && proc.status == Ready
      requires process != 0 && process !in own && LiveFor(heap.Abs(), process, PROCESS_SIZE)
      requires proc.base != 0 && proc.base !in own && proc.base != process && LiveFor(heap.Abs(), proc.base, STACK_SIZE)
      requires proc.sp == proc.base + STACK_SIZE - FRAME_SIZE && OutsideHeap(heap.Abs(), proc.argv)
      modifies this, heap, processes
      ensures Valid()
      ensures
        var (h', a) := Heap.Alloc(old(heap.Abs()), ProcessTable.NODE_SIZE);
        if a == 0 then r == -1 && Abs() == old(Abs()).(h := h')
        else
          && r == pid && Abs() == Kernel(h', DoCreate(old(s), pid, proc), old(processes[..])[pid := process], old(nodes) + [a])
          && NodeFor(nodes, s.ready, pid) == a
    {
      hide Good, Inv, Interior, LiveFor, Heap.Linked, Heap.State.Tiled, Heap.Alloc, NoDup, Chained;
      ghost var h, m := heap.Abs(), Img();
      ghost var a := Heap.Alloc(h, ProcessTable.NODE_SIZE).1;
      ReadyInTable(s);
      EnteredGood(h, m, s, own, pid, process, proc);
      StepKeepsInv(s, Create(pid, proc));
      mem := mem[process := ProcessObj(pid, proc)];
      ghost var m1 := Img();
      ListFacts(h, m1, s, own);
      r := AddProcess(process);
      if r == -1 {
        return;
      }
      processes[pid] := process;
      processCount := processCount + 1;
      assert Img() == Appended(m1, a, process).(procs := m.procs[pid := process]);
      NewestNode(s.ready, nodes, pid);
      s := DoCreate(s, pid, proc);
      own := own[process := StructOf(pid)][proc.base := StackOf(pid)][a := NodeOf(pid)];
      r := pid;
    }

    // `kill_process`: off the list, out of the table, its blocks back to the heap.
    method KillProcess(pid: nat) returns (r: int)
      requires Valid() && pid < MAX_PROCESSES && (pid in s.ready ==> 0 <= s.cur)
      modifies this, heap, processes
      ensures Valid() && s == DoKill(old(s), pid) && r == (if pid in old(s).table then 0 else -1)
      ensures Abs() == AfterKill(old(Abs()), pid)
    {
      hide Good, Inv, Interior, LiveFor, Heap.Linked, Heap.State.Tiled, Heap.Free, NoDup, IndexOf, DoRemove;
      TableEntry(heap.Abs(), Img(), s, own, pid);
      StepKeepsInv(s, Kill(pid));
      if processes[pid] == 0 {
        return -1;
      }
      RemovedFacts(s, pid);
      RemoveProcess(pid);
      TableEntry(heap.Abs(), Img(), s, own, pid);
      ForgottenGood(heap.Abs(), Img(), s, own, pid);
      ghost var m := Img();
      var process := processes[pid];
      var proc := mem[process].proc;
      heap.MemFree(proc.base);
      heap.MemFree(proc.sp);
      heap.MemFree(proc.argv);
      heap.MemFree(process);
      processes[pid] := 0;
      assert Img() == m.(procs := m.procs[pid := 0]);
      own := own - {proc.base} - {process};
      s := s.(table := s.table - {pid});
      r := 0;
    }

    // Writes the state field of the process with this pid.
    method SetStatus(pid: nat, status: Status)
      requires Consistent() && pid < MAX_PROCESSES && pid in s.table
      modifies `mem, `s
      ensures Consistent() && s == old(s).(table := old(s).table[pid := old(s).table[pid].(status := status)])
    {
      hide Good, Interior, Heap.Linked, Heap.State.Tiled;
      TableEntry(heap.Abs(), Img(), s, own, pid);
      PointerFacts(heap.Abs(), Img(), s, own, pid);
      ghost var proc := s.table[pid].(status := status);
      RewrittenGood(heap.Abs(), Img(), s, own, pid, proc);
      var process := processes[pid];
      mem := mem[process := mem[process].(proc := mem[process].proc.(status := status))];
      s := s.(table := s.table[pid := proc]);
    }

    // `block_process`
    method BlockProcess(pid: nat) returns (r: int)
      requires Valid() && pid < MAX_PROCESSES && (pid in s.ready ==> 0 <= s.cur)
      modifies this, heap
      ensures Valid() && s == DoBlock(old(s), pid) && r == (if pid in old(s).table then 0 else -1)
      ensures Abs() == AfterBlock(old(Abs()), pid)
    {
      hide Good, Inv, Interior, Heap.Linked, Heap.State.Tiled, Heap.Free, NoDup, IndexOf, DoRemove;
      TableEntry(heap.Abs(), Img(), s, own, pid);
      StepKeepsInv(s, Block(pid));
      if processes[pid] == 0 {
        return -1;
      }
      SetStatus(pid, Blocked);
      RemoveProcess(pid);
      r := 0;
    }

    // `unblock_process`: without memory for the node the process is marked READY but not queued,
    // and the call still answers 0.
    method UnblockProcess(pid: nat) returns (r: int)
      requires Valid() && pid < MAX_PROCESSES && (pid in s.table ==> s.table[pid].status == Blocked)
      modifies this, heap
      ensures Consistent() && r == (if pid in old(s).table then 0 else -1)
      ensures
        var a := Heap.Alloc(old(heap.Abs()), ProcessTable.NODE_SIZE).1;
        if pid in old(s).table && a == 0
        then Abs() == old(Abs()).(s := DoUnblock(old(s), pid).(ready := old(s).ready)) && !Inv(s)
        else Inv(s) && s == DoUnblock(old(s), pid) && Abs() == AfterUnblock(old(Abs()), pid)
    {
      hide Good, Inv, Interior, LiveFor, Heap.Linked, Heap.State.Tiled, Heap.Alloc, NoDup, Chained;
      TableEntry(heap.Abs(), Img(), s, own, pid);
      StepKeepsInv(s, Unblock(pid));
      if processes[pid] == 0 {
        return -1;
      }
      LostWakeup(s, pid);
      SetStatus(pid, Ready);
      ghost var m, a := Img(), Heap.Alloc(heap.Abs(), ProcessTable.NODE_SIZE).1;
      ListFacts(heap.Abs(), m, s, own);
      QueuedGood(heap.Abs(), m, s, own, pid);
      var added := AddProcess(processes[pid]);
      if a != 0 {
        assert Img() == Appended(m, a, m.procs[pid]);
        s := s.(ready := s.ready + [pid]);
        own := own[a := NodeOf(pid)];
      }
      r := 0;
    }

    // Create, kill, create: the second process gets the very blocks of the first.
    method CreateKillCreate(pid: nat, pid': nat, argv: nat) returns (r: int)
      requires Valid() && pid < MAX_PROCESSES && pid !in s.table && pid' < MAX_PROCESSES && pid' !in s.table
      requires OutsideHeap(heap.Abs(), argv) && 0 <= s.cur && s.count < MAX_PROCESSES
      modifies this, heap, processes
      ensures Valid()
      ensures
        var (h', ps) := HeapRuns.AllocAll(old(heap.Abs()), PROCESS_ALLOCATIONS);
        0 !in ps ==>
          && r == pid' && heap.Abs() == h' && pid' in s.table
          && processes[pid'] == ps[0] && s.table[pid'].base == ps[1] && NodeFor(nodes, s.ready, pid') == ps[2]
    {
      hide Good, Inv, Interior, LiveFor, Heap.Linked, Heap.Free, NoDup, IndexOf, DoRemove, HeapRuns.AllocAll;
      ghost var h := heap.Abs();
      HeapBound(h, Img(), s, own);
      TableEntry(h, Img(), s, own, pid);
      ProcessReplay(h);
      r := CreateProcess(pid, argv);
      if r == -1 {
        return;
      }
      assert s.ready[|s.ready| - 1] == pid;
      KilledFacts(s, pid);
      r := KillProcess(pid);
      r := CreateProcess(pid', argv);
    }
  }

  // Marked READY without being queued.
  lemma LostWakeup(s: State, pid: nat)
    requires Inv(s) && pid in s.table && s.table[pid].status == Blocked
    ensures pid !in s.ready
    ensures !Inv(DoUnblock(s, pid).(ready := s.ready))
  {
  }

  lemma KilledFacts(s: State, pid: nat)
    requires Inv(s)
    ensures DoKill(s, pid).table == s.table - {pid}
    ensures pid in s.ready ==> DoKill(s, pid).count == s.count - 1
  {
    RemovedFacts(s, pid);
  }

  lemma RemovedFacts(s: State, pid: nat)
    requires Inv(s)
    ensures pid !in DoRemove(s, pid).ready && DoRemove(s, pid).table == s.table
  {
    RemoveMeaning(s, pid);
  }

  // A creation that fails at a later allocation keeps the blocks it had got: nothing points to them,
  // and they stay in use.
  lemma FailedCreateLeaks(h: Heap.State)
    requires h.Tiled() && h.end + STACK_SIZE + Heap.NODE_SIZE < Heap.WORD
    ensures
      var (h1, p) := Heap.Alloc(h, 48);
      var (h2, q) := Heap.Alloc(h1, 4096);
      && (p != 0 ==> !h.Live(p) && CreateHeap(h).Live(p))
      && (p != 0 && q != 0 ==> !h1.Live(q) && CreateHeap(h).Live(p) && CreateHeap(h).Live(q))
  {
    hide Heap.Alloc, Heap.State.Tiled;
    var (h1, p) := Heap.Alloc(h, 48);
    var (h2, q) := Heap.Alloc(h1, 4096);
    var (h3, r) := Heap.Alloc(h2, 16);
    StaysLive(h, 48);
    StaysLive(h1, 4096);
    StaysLive(h2, 16);
  }

  lemma StaysLive(h: Heap.State, size: nat)
    requires h.Tiled() && size <= STACK_SIZE && h.end + STACK_SIZE + Heap.NODE_SIZE < Heap.WORD
    ensures
      var (h', a) := Heap.Alloc(h, size);
      && h'.Tiled() && h'.end == h.end
      && (a != 0 ==> !h.Live(a) && h'.Live(a)) && forall p :: h.Live(p) ==> h'.Live(p)
  {
    var op := HeapRuns.AllocOp(size);
    HeapRuns.NoWrapHazard(h, size);
    HeapRuns.AllocMeaning(h, size);
    HeapRuns.StepKeepsHeap(h, op);
    var (h', a) := Heap.Alloc(h, size);
    forall p | h.Live(p)
      ensures h'.Live(p)
    {
      var i :| 0 <= i < |h.blocks| && h.blocks[i].Payload() == p && !h.blocks[i].free;
      assert HeapRuns.LiveAt(h, i, p) && HeapRuns.LiveAt(h', i, p);
    }
    if a != 0 {
      var i :| HeapRuns.LiveAt(h', i, a);
    }
  }

  // The blocks of a process come back when it is killed and are handed out again in the same roles.
  lemma ProcessReplay(h: Heap.State)
    requires h.Tiled() && h.end + STACK_SIZE + Heap.NODE_SIZE < Heap.WORD
    ensures
      var (h', ps) := HeapRuns.AllocAll(h, PROCESS_ALLOCATIONS);
      var h2 := Heap.Free(Heap.Free(Heap.Free(h', ps[2]), ps[1]), ps[0]);
      && h2.start == h.start && h2.end == h.end
      && HeapRuns.AllocAll(h2, PROCESS_ALLOCATIONS) == (h', ps)
  {
    hide HeapRuns.AllocAll, Heap.State.Tiled;
    var (h', ps) := HeapRuns.AllocAll(h, PROCESS_ALLOCATIONS);
    FreeThree(h', ps[2], ps[1], ps[0]);
    HeapRuns.AllocAllMeaning(h, PROCESS_ALLOCATIONS);
    assert ps == [ps[0], ps[1], ps[2]];
    HeapRuns.Replay(h, PROCESS_ALLOCATIONS, [ps[2], ps[1], ps[0]]);
  }

  lemma FreeThree(h: Heap.State, a: nat, b: nat, c: nat)
    ensures HeapRuns.FreeAll(h, [a, b, c]) == Heap.Free(Heap.Free(Heap.Free(h, a), b), c)
  {
    hide Heap.Free;
    assert [a, b, c][1..] == [b, c] && [b, c][1..] == [c] && [c][1..] == [];
    assert HeapRuns.FreeAll(Heap.Free(Heap.Free(h, a), b), [c]) == Heap.Free(Heap.Free(Heap.Free(h, a), b), c);
    assert HeapRuns.FreeAll(Heap.Free(h, a), [b, c]) == HeapRuns.FreeAll(Heap.Free(Heap.Free(h, a), b), [c]);
  }

  lemma NewestNode(ready: seq<nat>, nodes: seq<nat>, pid: nat)
    requires pid !in ready && |nodes| == |ready| + 1
    ensures NodeFor(nodes, ready + [pid], pid) == nodes[|nodes| - 1]
  {
    assert (ready + [pid])[|ready|] == pid;
  }

  lemma ReadyInTable(s: State)
    requires Inv(s)
    ensures forall p :: p in s.ready ==> p in s.table
    ensures NoDup(s.ready)
  {
  }

  lemma RemoveCounts(s: State, pid: nat)
    requires pid in s.ready
    ensures DoRemove(s, pid).count == s.count - 1
  {
  }
}
