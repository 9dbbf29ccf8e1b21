/** The scheduler as the kernel runs it: processes, stacks and list nodes are heap blocks, reached
    by address. Every method is tied to the state machine of Scheduling. */
module ProcessTable {
  import opened Scheduling
  import ProcessFrame
  import Heap
  import HeapRuns

  // sizeof(process_t), sizeof(process_node_t) and STACK_SIZE
  const PROCESS_SIZE: nat := 48
  const NODE_SIZE: nat := 16
  const STACK_SIZE: nat := 4096
  // The initial frame, as ProcessFrame builds it
  const FRAME_SIZE: nat := 8 * (ProcessFrame.IRET_WORDS + ProcessFrame.GENERAL_REGISTERS)

  /** What an address the scheduler uses holds. */
  datatype Object = ProcessObj(pid: nat, proc: Proc) | NodeObj(process: nat, next: nat)

  /** What a heap block of the scheduler is for. */
  datatype Owner = StructOf(pid: nat) | StackOf(pid: nat) | NodeOf(pid: nat)

  function SizeOf(o: Owner): nat {
    match o
    case StructOf(_) => PROCESS_SIZE
    case StackOf(_) => STACK_SIZE
    case NodeOf(_) => NODE_SIZE
  }

  /** The memory image: objects by address, the `processes` array, `head`, `current`, and the
      addresses of the list nodes from the head. */
  datatype Image = Image(mem: map<nat, Object>, procs: seq<nat>, head: nat, current: nat, nodes: seq<nat>)

  function NodeAddr(nodes: seq<nat>, i: nat): nat {
    if i < |nodes| then nodes[i] else 0
  }

  ghost predicate NodeOk(m: Image, i: int)
    requires 0 <= i < |m.nodes|
  {
    && m.nodes[i] != 0 && m.nodes[i] in m.mem
    && m.mem[m.nodes[i]].NodeObj?
    && m.mem[m.nodes[i]].next == NodeAddr(m.nodes, i + 1)
  }

  // The nodes are chained from `head`.
  ghost predicate Chained(m: Image) {
    && m.head == NodeAddr(m.nodes, 0)
    && forall i :: 0 <= i < |m.nodes| ==> NodeOk(m, i)
  }

  // Node `i` holds the process with the pid at position `i` of the ready list.
  ghost predicate HoldsOk(m: Image, s: State, i: int)
    requires 0 <= i < |m.nodes| == |s.ready|
  {
    && s.ready[i] in s.table && s.ready[i] < |m.procs|
    && m.nodes[i] in m.mem && m.mem[m.nodes[i]].NodeObj?
    && m.mem[m.nodes[i]].process == m.procs[s.ready[i]]
  }

  ghost predicate EntryOk(m: Image, s: State, p: int)
    requires 0 <= p < |m.procs|
  {
    if m.procs[p] == 0 then p !in s.table
    else p in s.table && m.procs[p] in m.mem && m.mem[m.procs[p]] == ProcessObj(p, s.table[p])
  }

  ghost predicate Represents(m: Image, s: State) {
    && |m.procs| == MAX_PROCESSES
    && |m.nodes| == |s.ready|
    && Chained(m)
    && -1 <= s.cur < |s.ready|
    && m.current == (if s.cur < 0 then 0 else m.nodes[s.cur])
    && (forall i :: 0 <= i < |m.nodes| ==> HoldsOk(m, s, i))
    && (forall p :: 0 <= p < |m.procs| ==> EntryOk(m, s, p))
    && (forall p :: p in s.table ==> p < MAX_PROCESSES)
  }

  // ---------- ownership of heap blocks ----------

  // A live block with payload address `a` and at least `size` bytes.
  ghost predicate LiveFor(h: Heap.State, a: nat, size: nat) {
    exists i :: HeapRuns.LiveAt(h, i, a) && size <= h.blocks[i].size
  }

  // Strictly inside the payload of some block.
  ghost predicate Interior(h: Heap.State, a: nat) {
    exists i :: 0 <= i < |h.blocks| && h.blocks[i].Payload() < a < h.blocks[i].End()
  }

  predicate OutsideHeap(h: Heap.State, a: nat) {
    a < h.start || h.end <= a
  }

  ghost predicate OwnsTable(m: Image, s: State, own: map<nat, Owner>) {
    forall p :: p in s.table && p < |m.procs| ==>
      && m.procs[p] in own && own[m.procs[p]] == StructOf(p)
      && s.table[p].base in own && own[s.table[p].base] == StackOf(p)
  }

  ghost predicate OwnsNodes(m: Image, s: State, own: map<nat, Owner>) {
    && |m.nodes| == |s.ready|
    && forall i :: 0 <= i < |m.nodes| ==> m.nodes[i] in own && own[m.nodes[i]] == NodeOf(s.ready[i])
  }

  ghost predicate OwnsLive(h: Heap.State, own: map<nat, Owner>) {
    forall a :: a in own ==> a != 0 && LiveFor(h, a, SizeOf(own[a]))
  }

  // Stored stack pointers lie inside blocks, and no argument vector is heap memory.
  ghost predicate Pointers(h: Heap.State, s: State) {
    forall p :: p in s.table ==> Interior(h, s.table[p].sp) && OutsideHeap(h, s.table[p].argv)
  }

  // Every struct, stack and node in use is a live heap block of its own: `own` maps each address
  // to the single purpose it serves.
  ghost predicate Owns(h: Heap.State, m: Image, s: State, own: map<nat, Owner>) {
    && h.Tiled() && h.end + STACK_SIZE + Heap.NODE_SIZE < Heap.WORD
    && OwnsTable(m, s, own) && OwnsNodes(m, s, own) && OwnsLive(h, own) && Pointers(h, s)
  }

  // ---------- heap facts in these terms ----------

  lemma AllocOwns(h: Heap.State, size: nat, own: map<nat, Owner>, s: State)
    requires h.Tiled() && h.end + STACK_SIZE + Heap.NODE_SIZE < Heap.WORD && 0 < size <= STACK_SIZE
    requires OwnsLive(h, own) && Pointers(h, s)
    ensures !Heap.WrapHazard(h, size)
    ensures
      var (h', a) := Heap.Alloc(h, size);
      && h'.Tiled() && h'.end == h.end && h'.start == h.start
      && OwnsLive(h', own) && Pointers(h', s)
      && (a == 0 ==> h' == h)
      && (a != 0 ==> a !in own && LiveFor(h', a, size))
  {
    HeapRuns.NoWrapHazard(h, size);
    HeapRuns.AllocMeaning(h, size);
    var op := HeapRuns.AllocOp(size);
    assert [op][0] == op;
    HeapRuns.StepKeepsHeap(h, op);
    ExtendsKeeps(h, Heap.Alloc(h, size).0, own, s);
    forall a | a in own
      ensures h.Live(a)
    {
      var i :| HeapRuns.LiveAt(h, i, a) && SizeOf(own[a]) <= h.blocks[i].size;
    }
  }

  lemma ExtendsKeeps(h: Heap.State, h': Heap.State, own: map<nat, Owner>, s: State)
    requires HeapRuns.Extends(h, h') && OwnsLive(h, own) && Pointers(h, s)
    requires forall i, a :: a in own && HeapRuns.LiveAt(h, i, a) ==> HeapRuns.LiveAt(h', i, a)
    ensures OwnsLive(h', own) && Pointers(h', s)
  {
    forall a | a in own
      ensures LiveFor(h', a, SizeOf(own[a]))
    {
      var i :| HeapRuns.LiveAt(h, i, a) && SizeOf(own[a]) <= h.blocks[i].size;
      assert HeapRuns.LiveAt(h', i, a);
    }
    forall p | p in s.table
      ensures Interior(h', s.table[p].sp)
    {
      var i :| 0 <= i < |h.blocks| && h.blocks[i].Payload() < s.table[p].sp < h.blocks[i].End();
      assert h'.blocks[i].Payload() < s.table[p].sp < h'.blocks[i].End();
    }
  }

  lemma FreeOwns(h: Heap.State, a: nat, own: map<nat, Owner>, s: State)
    requires h.Tiled() && OwnsLive(h, own) && Pointers(h, s)
    ensures
      var h' := Heap.Free(h, a);
      h'.Tiled() && h'.end == h.end && h'.start == h.start && OwnsLive(h', own - {a}) && Pointers(h', s)
  {
    HeapRuns.StepKeepsHeap(h, HeapRuns.FreeOp(a));
    ExtendsKeeps(h, Heap.Free(h, a), own - {a}, s);
  }

  // Freeing an address inside a block, or outside the heap, changes nothing.
  lemma FreeIgnores(h: Heap.State, a: nat)
    requires h.Tiled() && (Interior(h, a) || OutsideHeap(h, a))
    ensures Heap.Free(h, a) == h
  {
    var k := Heap.Find(h.blocks, a);
    if k < |h.blocks| {
      NoPayload(h, a, k);
    }
  }

  lemma NoPayload(h: Heap.State, a: nat, k: nat)
    requires h.Tiled() && (Interior(h, a) || OutsideHeap(h, a)) && k < |h.blocks|
    ensures h.blocks[k].Payload() != a
  {
    Heap.HeadersDistinct(h);
    if Interior(h, a) {
      var i :| 0 <= i < |h.blocks| && h.blocks[i].Payload() < a < h.blocks[i].End();
      if k < i { Heap.Ordered(h, k, i); } else if i < k { Heap.Ordered(h, i, k); }
    }
  }

  // ---------- the three ways the image changes ----------

  lemma NodesDistinct(m: Image, s: State, own: map<nat, Owner>)
    requires OwnsNodes(m, s, own) && NoDup(s.ready)
    ensures NoDup(m.nodes)
  {
    forall i, j | 0 <= i < j < |m.nodes|
      ensures m.nodes[i] != m.nodes[j]
    {
      assert own[m.nodes[i]] == NodeOf(s.ready[i]) && own[m.nodes[j]] == NodeOf(s.ready[j]);
    }
  }

  // A new node at `a` for the process at `process`, behind the last node.
  function Appended(m: Image, a: nat, process: nat): Image {
    var mem1 := m.mem[a := NodeObj(process, 0)];
    var n := |m.nodes|;
    var mem2 :=
      if n > 0 && m.nodes[n - 1] in m.mem && m.mem[m.nodes[n - 1]].NodeObj?
      then mem1[m.nodes[n - 1] := m.mem[m.nodes[n - 1]].(next := a)]
      else mem1;
    m.(mem := mem2, nodes := m.nodes + [a], head := if n == 0 then a else m.head)
  }

  lemma AppendedChained(m: Image, a: nat, process: nat)
    requires Chained(m) && NoDup(m.nodes) && a != 0 && a !in m.nodes
    ensures Chained(Appended(m, a, process))
  {
    var m' := Appended(m, a, process);
    var n := |m.nodes|;
    forall i | 0 <= i < |m'.nodes|
      ensures NodeOk(m', i)
    {
      if i < n {
        assert NodeOk(m, i) && m.nodes[i] in m.nodes;
        if i < n - 1 { assert m.nodes[i] != m.nodes[n - 1]; }
      } else if n > 0 {
        assert NodeOk(m, n - 1) && m.nodes[n - 1] in m.nodes;
      }
    }
    if n > 0 { assert NodeOk(m, 0); }
  }

  // Queueing a process of the table.
  lemma AppendedRepresents(m: Image, s: State, own: map<nat, Owner>, a: nat, pid: nat)
    requires Represents(m, s) && OwnsTable(m, s, own) && OwnsNodes(m, s, own) && NoDup(s.ready)
    requires a != 0 && a !in own && pid in s.table
    ensures
      var m' := Appended(m, a, m.procs[pid]);
      var s' := s.(ready := s.ready + [pid]);
      var own' := own[a := NodeOf(pid)];
      Represents(m', s') && OwnsTable(m', s', own') && OwnsNodes(m', s', own')
  {
    var m' := Appended(m, a, m.procs[pid]);
    var s' := s.(ready := s.ready + [pid]);
    NodesDistinct(m, s, own);
    forall i | 0 <= i < |m.nodes|
      ensures m.nodes[i] != a
    {
      assert m.nodes[i] in own;
    }
    AppendedChained(m, a, m.procs[pid]);
    var n := |m.nodes|;
    forall i | 0 <= i < |m'.nodes|
      ensures HoldsOk(m', s', i)
    {
      if i < n { assert HoldsOk(m, s, i) && NodeOk(m, i); }
      if n > 0 { assert NodeOk(m, n - 1); }
    }
    forall p | 0 <= p < |m'.procs|
      ensures EntryOk(m', s', p)
    {
      assert EntryOk(m, s, p);
      if p in s.table && n > 0 { assert own[m.nodes[n - 1]] == NodeOf(s.ready[n - 1]); }
    }
  }

  // Node `k` unlinked; `current` moves on to its successor, or to the head, if it was there.
  function Unlinked(m: Image, k: nat): Image
    requires k < |m.nodes|
  {
    var next := NodeAddr(m.nodes, k + 1);
    var mem' :=
      if k > 0 && m.nodes[k - 1] in m.mem && m.mem[m.nodes[k - 1]].NodeObj?
      then m.mem[m.nodes[k - 1] := m.mem[m.nodes[k - 1]].(next := next)]
      else m.mem;
    var head' := if k == 0 then next else m.head;
    var current' :=
      if m.current != m.nodes[k] then m.current
      else if next != 0 then next else head';
    m.(mem := mem', nodes := m.nodes[..k] + m.nodes[k + 1..], head := head', current := current')
  }

  lemma UnlinkedChained(m: Image, k: nat)
    requires Chained(m) && NoDup(m.nodes) && k < |m.nodes|
    ensures Chained(Unlinked(m, k))
  {
    var m' := Unlinked(m, k);
    forall i | 0 <= i < |m'.nodes|
      ensures NodeOk(m', i)
    {
      var j := if i < k then i else i + 1;
      assert m'.nodes[i] == m.nodes[j];
      assert NodeOk(m, j);
      if k > 0 {
        assert NodeOk(m, k - 1);
        if j != k - 1 { assert m.nodes[j] != m.nodes[k - 1]; }
      }
    }
    if k > 0 { assert NodeOk(m, 0); }
  }

  lemma UnlinkedRepresents(m: Image, s: State, own: map<nat, Owner>, pid: nat)
    requires Represents(m, s) && OwnsTable(m, s, own) && OwnsNodes(m, s, own) && NoDup(s.ready)
    requires pid in s.ready
    ensures
      var k := IndexOf(s.ready, pid);
      var m' := Unlinked(m, k);
      var s' := DoRemove(s, pid);
      var own' := own - {m.nodes[k]};
      k < |m.nodes| && Represents(m', s') && OwnsTable(m', s', own') && OwnsNodes(m', s', own')
  {
    hide HoldsOk, EntryOk, NodeOk, Chained;
    var k := IndexOf(s.ready, pid);
    var m' := Unlinked(m, k);
    var s' := DoRemove(s, pid);
    var own' := own - {m.nodes[k]};
    NodesDistinct(m, s, own);
    UnlinkedChained(m, k);
    UnlinkedCurrent(m, s, pid);
    forall i | 0 <= i < |m'.nodes|
      ensures HoldsOk(m', s', i)
      ensures m'.nodes[i] in own' && own'[m'.nodes[i]] == NodeOf(s'.ready[i])
    {
      UnlinkedNode(m, s, own, k, s', i);
    }
    forall p | 0 <= p < |m'.procs|
      ensures EntryOk(m', s', p)
    {
      UnlinkedEntry(m, s, own, k, s', p);
    }
    assert own[m.nodes[k]] == NodeOf(pid);
  }

  lemma UnlinkedNode(m: Image, s: State, own: map<nat, Owner>, k: nat, s': State, i: nat)
    requires Represents(m, s) && OwnsNodes(m, s, own) && NoDup(m.nodes)
    requires k < |m.nodes| && i + 1 < |m.nodes|
    requires s'.table == s.table && s'.ready == s.ready[..k] + s.ready[k + 1..]
    ensures
      var m' := Unlinked(m, k);
      && HoldsOk(m', s', i)
      && m'.nodes[i] in own && m'.nodes[i] != m.nodes[k] && own[m'.nodes[i]] == NodeOf(s'.ready[i])
  {
    var j := if i < k then i else i + 1;
    var m' := Unlinked(m, k);
    assert m'.nodes[i] == m.nodes[j] && s'.ready[i] == s.ready[j];
    assert HoldsOk(m, s, j) && NodeOk(m, j);
    assert m.nodes[if j < k then j else k] != m.nodes[if j < k then k else j];
    if k > 0 { assert NodeOk(m, k - 1); }
  }

  lemma UnlinkedEntry(m: Image, s: State, own: map<nat, Owner>, k: nat, s': State, p: nat)
    requires Represents(m, s) && OwnsTable(m, s, own) && OwnsNodes(m, s, own)
    requires k < |m.nodes| && p < |m.procs| && s'.table == s.table
    ensures EntryOk(Unlinked(m, k), s', p)
  {
    assert EntryOk(m, s, p);
    if p in s.table && k > 0 { assert own[m.nodes[k - 1]] == NodeOf(s.ready[k - 1]); }
  }

  lemma UnlinkedCurrent(m: Image, s: State, pid: nat)
    requires Chained(m) && NoDup(m.nodes) && |m.nodes| == |s.ready| && pid in s.ready
    requires -1 <= s.cur < |s.ready| && m.current == (if s.cur < 0 then 0 else m.nodes[s.cur])
    ensures
      var k := IndexOf(s.ready, pid);
      var m' := Unlinked(m, k);
      var s' := DoRemove(s, pid);
      -1 <= s'.cur < |m'.nodes| && m'.current == (if s'.cur < 0 then 0 else m'.nodes[s'.cur])
  {
    var k := IndexOf(s.ready, pid);
    assert NodeOk(m, k);
    if k + 1 < |m.nodes| { assert NodeOk(m, k + 1); }
    if s.cur >= 0 && s.cur != k {
      assert m.nodes[s.cur] != m.nodes[k];
    }
    UnlinkedChained(m, k);
  }

  // A field of the process with this pid overwritten.
  function Rewritten(m: Image, pid: nat, proc: Proc): Image
    requires pid < |m.procs|
  {
    m.(mem := m.mem[m.procs[pid] := ProcessObj(pid, proc)])
  }

  lemma RewrittenRepresents(m: Image, s: State, own: map<nat, Owner>, pid: nat, proc: Proc)
    requires Represents(m, s) && OwnsTable(m, s, own) && OwnsNodes(m, s, own)
    requires pid in s.table && proc.base == s.table[pid].base
    ensures
      var m' := Rewritten(m, pid, proc);
      var s' := s.(table := s.table[pid := proc]);
      Represents(m', s') && OwnsTable(m', s', own) && OwnsNodes(m', s', own)
  {
    var m' := Rewritten(m, pid, proc);
    var s' := s.(table := s.table[pid := proc]);
    forall i | 0 <= i < |m.nodes|
      ensures NodeOk(m', i) && HoldsOk(m', s', i)
    {
      assert NodeOk(m, i) && HoldsOk(m, s, i);
      assert own[m.nodes[i]] == NodeOf(s.ready[i]);
    }
    forall p | 0 <= p < |m'.procs|
      ensures EntryOk(m', s', p)
    {
      assert EntryOk(m, s, p);
      if p in s.table { assert own[m.procs[p]] == StructOf(p); }
    }
  }

  // ---------- all of it together ----------

  // The image stands for `s`, no process is queued twice, and every block in use is accounted for.
  ghost predicate Good(h: Heap.State, m: Image, s: State, own: map<nat, Owner>) {
    Represents(m, s) && NoDup(s.ready) && Owns(h, m, s, own)
  }

  lemma HeadIsNull(h: Heap.State, m: Image, s: State, own: map<nat, Owner>)
    requires Good(h, m, s, own)
    ensures m.head == 0 <==> s.ready == []
    ensures m.current == 0 <==> s.cur < 0
    ensures s.cur < |s.ready| == |m.nodes|
  {
    if m.nodes != [] { assert NodeOk(m, 0); }
    if 0 <= s.cur { assert NodeOk(m, s.cur); }
  }

  // `current` leads to the process at its position of the ready list.
  lemma CurrentProcess(h: Heap.State, m: Image, s: State, own: map<nat, Owner>)
    requires Good(h, m, s, own) && 0 <= s.cur
    ensures s.cur < |s.ready| && s.ready[s.cur] in s.table && s.ready[s.cur] < |m.procs|
    ensures m.current in m.mem && m.mem[m.current].NodeObj?
    ensures m.mem[m.current].process == m.procs[s.ready[s.cur]]
    ensures m.procs[s.ready[s.cur]] in m.mem
    ensures m.mem[m.procs[s.ready[s.cur]]] == ProcessObj(s.ready[s.cur], s.table[s.ready[s.cur]])
  {
    assert HoldsOk(m, s, s.cur) && EntryOk(m, s, s.ready[s.cur]);
  }

  lemma RewrittenGood(h: Heap.State, m: Image, s: State, own: map<nat, Owner>, pid: nat, proc: Proc)
    requires Good(h, m, s, own) && pid in s.table
    requires proc.base == s.table[pid].base && proc.argv == s.table[pid].argv && Interior(h, proc.sp)
    ensures pid < |m.procs| && Good(h, Rewritten(m, pid, proc), s.(table := s.table[pid := proc]), own)
  {
    RewrittenRepresents(m, s, own, pid, proc);
  }

  // `current` moved to the next position of a non-empty ready list.
  lemma AdvancedGood(h: Heap.State, m: Image, s: State, own: map<nat, Owner>)
    requires Good(h, m, s, own) && s.ready != []
    ensures m.current != 0 ==> m.current in m.mem && m.mem[m.current].NodeObj?
    ensures
      var c := if m.current == 0 || m.mem[m.current].next == 0 then m.head else m.mem[m.current].next;
      Good(h, m.(current := c), s.(cur := Next(s)), own)
  {
    assert NodeOk(m, 0);
    if 0 <= s.cur {
      assert NodeOk(m, s.cur);
      if s.cur + 1 < |m.nodes| { assert NodeOk(m, s.cur + 1); }
    }
    var c := if m.current == 0 || m.mem[m.current].next == 0 then m.head else m.mem[m.current].next;
    var m' := m.(current := c);
    var s' := s.(cur := Next(s));
    forall i | 0 <= i < |m.nodes|
      ensures NodeOk(m', i) && HoldsOk(m', s', i)
    {
      assert NodeOk(m, i) && HoldsOk(m, s, i);
    }
    forall p | 0 <= p < |m.procs|
      ensures EntryOk(m', s', p)
    {
      assert EntryOk(m, s, p);
    }
  }

  // What the code finds at node `i`.
  lemma NodeProcess(h: Heap.State, m: Image, s: State, own: map<nat, Owner>, i: nat)
    requires Good(h, m, s, own) && i < |s.ready|
    ensures |m.nodes| == |s.ready| && m.nodes[i] != 0
    ensures m.nodes[i] in m.mem && m.mem[m.nodes[i]].NodeObj? && m.mem[m.nodes[i]].next == NodeAddr(m.nodes, i + 1)
    ensures m.mem[m.nodes[i]].process in m.mem && m.mem[m.mem[m.nodes[i]].process].ProcessObj?
    ensures m.mem[m.mem[m.nodes[i]].process].pid == s.ready[i]
    ensures 0 <= s.cur ==>
      && m.current in m.mem && m.mem[m.current].NodeObj?
      && (m.mem[m.nodes[i]].process == m.mem[m.current].process <==> m.current == m.nodes[i])
  {
    assert NodeOk(m, i) && HoldsOk(m, s, i) && EntryOk(m, s, s.ready[i]);
    if 0 <= s.cur {
      assert NodeOk(m, s.cur) && HoldsOk(m, s, s.cur) && EntryOk(m, s, s.ready[s.cur]);
    }
  }

  // The walk of `remove_process` over the nodes in memory finds the pid while `current` is NULL, and
  // then reads through it, exactly when the process is queued and nothing was dispatched yet.
  lemma RemoveReadsNullIff(h: Heap.State, m: Image, s: State, own: map<nat, Owner>, pid: nat)
    requires Good(h, m, s, own)
    ensures m.current == 0 && (exists i :: FindsAt(m, i, pid)) <==> pid in s.ready && s.cur < 0
  {
    HeadIsNull(h, m, s, own);
    hide Good;
    forall i | 0 <= i < |s.ready|
      ensures FindsAt(m, i, pid) <==> s.ready[i] == pid
    {
      NodeProcess(h, m, s, own, i);
    }
  }

  // Node `i` leads to a process with this pid.
  ghost predicate FindsAt(m: Image, i: int, pid: nat) {
    && 0 <= i < |m.nodes| && m.nodes[i] in m.mem && m.mem[m.nodes[i]].NodeObj?
    && m.mem[m.nodes[i]].process in m.mem && m.mem[m.mem[m.nodes[i]].process].ProcessObj?
    && m.mem[m.mem[m.nodes[i]].process].pid == pid
  }

  // Before the head's list: where the walk starts.
  lemma ListFacts(h: Heap.State, m: Image, s: State, own: map<nat, Owner>)
    requires Good(h, m, s, own)
    ensures m.head == NodeAddr(m.nodes, 0) && |m.nodes| == |s.ready|
    ensures |m.procs| == MAX_PROCESSES && h.Tiled()
    ensures s.cur < |s.ready| && m.current == (if s.cur < 0 then 0 else m.nodes[s.cur])
    ensures Chained(m) && NoDup(m.nodes)
    ensures forall a :: a in m.nodes ==> a in own && h.Live(a)
  {
    NodesDistinct(m, s, own);
    forall a | a in m.nodes
      ensures a in own && h.Live(a)
    {
      var i :| HeapRuns.LiveAt(h, i, a) && SizeOf(own[a]) <= h.blocks[i].size;
    }
  }

  lemma UnlinkedGood(h: Heap.State, m: Image, s: State, own: map<nat, Owner>, pid: nat)
    requires Good(h, m, s, own) && pid in s.ready
    ensures
      var k := IndexOf(s.ready, pid);
      && k < |m.nodes|
      && Good(Heap.Free(h, m.nodes[k]), Unlinked(m, k), DoRemove(s, pid), own - {m.nodes[k]})
  {
    UnlinkedRepresents(m, s, own, pid);
    RemoveMeaning(s, pid);
    FreeOwns(h, m.nodes[IndexOf(s.ready, pid)], own, s);
  }

  // A struct and a stack entered into the table under an unused pid.
  function Inserted(m: Image, pid: nat, p: nat, proc: Proc): Image
    requires pid < |m.procs|
  {
    m.(mem := m.mem[p := ProcessObj(pid, proc)], procs := m.procs[pid := p])
  }

  lemma InsertedRepresents(m: Image, s: State, own: map<nat, Owner>, pid: nat, p: nat, proc: Proc)
    requires Represents(m, s) && OwnsTable(m, s, own) && OwnsNodes(m, s, own)
    requires pid !in s.table && pid < MAX_PROCESSES && p != 0 && p !in own
    ensures Represents(Inserted(m, pid, p, proc), s.(table := s.table[pid := proc]))
  {
    var m' := Inserted(m, pid, p, proc);
    var s' := s.(table := s.table[pid := proc]);
    forall i | 0 <= i < |m.nodes|
      ensures NodeOk(m', i) && HoldsOk(m', s', i)
    {
      assert NodeOk(m, i) && HoldsOk(m, s, i);
      assert m.nodes[i] in own;
    }
    forall q | 0 <= q < |m'.procs|
      ensures EntryOk(m', s', q)
    {
      assert EntryOk(m, s, q);
      if q in s.table { assert m.procs[q] in own; }
    }
  }

  lemma InsertedOwns(h: Heap.State, m: Image, s: State, own: map<nat, Owner>, pid: nat, p: nat, proc: Proc)
    requires Owns(h, m, s, own) && |m.procs| == MAX_PROCESSES && pid < MAX_PROCESSES
    requires p != 0 && p !in own && LiveFor(h, p, PROCESS_SIZE)
    requires proc.base != 0 && proc.base !in own && proc.base != p && LiveFor(h, proc.base, STACK_SIZE)
    requires Interior(h, proc.sp) && OutsideHeap(h, proc.argv)
    ensures Owns(h, Inserted(m, pid, p, proc), s.(table := s.table[pid := proc]),
                 own[p := StructOf(pid)][proc.base := StackOf(pid)])
  {
    hide LiveFor, Interior, Heap.State.Tiled;
  }

  lemma InsertedGood(h: Heap.State, m: Image, s: State, own: map<nat, Owner>, pid: nat, p: nat, proc: Proc)
    requires Good(h, m, s, own) && pid !in s.table && pid < MAX_PROCESSES
    requires p != 0 && p !in own && LiveFor(h, p, PROCESS_SIZE)
    requires proc.base != 0 && proc.base !in own && proc.base != p && LiveFor(h, proc.base, STACK_SIZE)
    requires Interior(h, proc.sp) && OutsideHeap(h, proc.argv)
    ensures
      && |m.procs| == MAX_PROCESSES
      && Good(h, Inserted(m, pid, p, proc), s.(table := s.table[pid := proc]),
              own[p := StructOf(pid)][proc.base := StackOf(pid)])
  {
    InsertedRepresents(m, s, own, pid, p, proc);
    InsertedOwns(h, m, s, own, pid, p, proc);
  }

  // A process of the table queued with a new node.
  lemma QueuedGood(h: Heap.State, m: Image, s: State, own: map<nat, Owner>, pid: nat)
    requires Good(h, m, s, own) && pid in s.table && pid !in s.ready
    ensures pid < |m.procs| && !Heap.WrapHazard(h, NODE_SIZE)
    ensures
      var (h', a) := Heap.Alloc(h, NODE_SIZE);
      if a == 0 then h' == h
      else Good(h', Appended(m, a, m.procs[pid]), s.(ready := s.ready + [pid]), own[a := NodeOf(pid)])
  {
    AllocOwns(h, NODE_SIZE, own, s);
    var (h', a) := Heap.Alloc(h, NODE_SIZE);
    if a != 0 {
      AppendedRepresents(m, s, own, a, pid);
      QueuedOwns(h', own, s, a, pid);
    }
  }

  lemma QueuedOwns(h: Heap.State, own: map<nat, Owner>, s: State, a: nat, pid: nat)
    requires OwnsLive(h, own) && Pointers(h, s) && a != 0 && LiveFor(h, a, NODE_SIZE) && NoDup(s.ready) && pid !in s.ready
    ensures OwnsLive(h, own[a := NodeOf(pid)]) && Pointers(h, s.(ready := s.ready + [pid])) && NoDup(s.ready + [pid])
  {
    hide LiveFor, Interior;
  }

  // A process off the ready list taken out of the table, its stack and struct freed.
  lemma ForgottenGood(h: Heap.State, m: Image, s: State, own: map<nat, Owner>, pid: nat)
    requires Good(h, m, s, own) && pid in s.table && pid !in s.ready
    ensures pid < |m.procs|
    ensures
      var h1 := Heap.Free(h, s.table[pid].base);
      var h2 := Heap.Free(h1, m.procs[pid]);
      && Heap.Free(h1, s.table[pid].sp) == h1 && Heap.Free(h1, s.table[pid].argv) == h1
      && Good(h2, m.(procs := m.procs[pid := 0]), s.(table := s.table - {pid}), own - {s.table[pid].base} - {m.procs[pid]})
  {
    ForgottenHeap(h, s, own, pid, m.procs[pid]);
    ForgottenRepresents(m, s, pid);
    ForgottenOwns(m, s, own, pid);
  }

  lemma ForgottenHeap(h: Heap.State, s: State, own: map<nat, Owner>, pid: nat, p: nat)
    requires h.Tiled() && OwnsLive(h, own) && Pointers(h, s) && pid in s.table
    ensures
      var h1 := Heap.Free(h, s.table[pid].base);
      var h2 := Heap.Free(h1, p);
      && Heap.Free(h1, s.table[pid].sp) == h1 && Heap.Free(h1, s.table[pid].argv) == h1
      && h2.Tiled() && h2.end == h.end
      && OwnsLive(h2, own - {s.table[pid].base} - {p}) && Pointers(h2, s.(table := s.table - {pid}))
  {
    hide Heap.State.Tiled, Interior, LiveFor;
    var proc := s.table[pid];
    FreeOwns(h, proc.base, own, s);
    var h1 := Heap.Free(h, proc.base);
    FreeIgnores(h1, proc.sp);
    FreeIgnores(h1, proc.argv);
    FreeOwns(h1, p, own - {proc.base}, s);
  }

  lemma ForgottenRepresents(m: Image, s: State, pid: nat)
    requires Represents(m, s) && pid in s.table && pid !in s.ready
    ensures Represents(m.(procs := m.procs[pid := 0]), s.(table := s.table - {pid}))
  {
    var m' := m.(procs := m.procs[pid := 0]);
    var s' := s.(table := s.table - {pid});
    forall i | 0 <= i < |m.nodes|
      ensures NodeOk(m', i) && HoldsOk(m', s', i)
    {
      assert NodeOk(m, i) && HoldsOk(m, s, i);
    }
    forall q | 0 <= q < |m'.procs|
      ensures EntryOk(m', s', q)
    {
      assert EntryOk(m, s, q);
    }
  }

  lemma ForgottenOwns(m: Image, s: State, own: map<nat, Owner>, pid: nat)
    requires OwnsTable(m, s, own) && OwnsNodes(m, s, own) && pid in s.table && pid < |m.procs| && pid !in s.ready
    ensures
      var m' := m.(procs := m.procs[pid := 0]);
      var s' := s.(table := s.table - {pid});
      var own' := own - {s.table[pid].base} - {m.procs[pid]};
      OwnsTable(m', s', own') && OwnsNodes(m', s', own')
  {
    assert own[m.procs[pid]] == StructOf(pid) && own[s.table[pid].base] == StackOf(pid);
  }

  // The table entry of a pid, and what the code reads through it.
  lemma TableEntry(h: Heap.State, m: Image, s: State, own: map<nat, Owner>, pid: nat)
    requires Good(h, m, s, own) && pid < MAX_PROCESSES
    ensures |m.procs| == MAX_PROCESSES && (m.procs[pid] != 0 <==> pid in s.table)
    ensures pid in s.table ==> m.procs[pid] in m.mem && m.mem[m.procs[pid]] == ProcessObj(pid, s.table[pid])
  {
    assert EntryOk(m, s, pid);
  }

  // A write to memory that no block in use owns.
  lemma StrayWriteGood(h: Heap.State, m: Image, s: State, own: map<nat, Owner>, a: nat, o: Object)
    requires Good(h, m, s, own) && a !in own
    ensures Good(h, m.(mem := m.mem[a := o]), s, own)
  {
    var m' := m.(mem := m.mem[a := o]);
    forall i | 0 <= i < |m.nodes|
      ensures NodeOk(m', i) && HoldsOk(m', s, i)
    {
      assert NodeOk(m, i) && HoldsOk(m, s, i);
      assert m.nodes[i] in own;
    }
    forall q | 0 <= q < |m'.procs|
      ensures EntryOk(m', s, q)
    {
      assert EntryOk(m, s, q);
      if q in s.table { assert m.procs[q] in own; }
    }
  }

  lemma CountIgnored(h: Heap.State, m: Image, s: State, own: map<nat, Owner>, count: int)
    requires Good(h, m, s, own)
    ensures Good(h, m, s.(count := count), own)
  {
    var s' := s.(count := count);
    forall i | 0 <= i < |m.nodes|
      ensures HoldsOk(m, s', i)
    {
      assert HoldsOk(m, s, i);
    }
    forall q | 0 <= q < |m.procs|
      ensures EntryOk(m, s', q)
    {
      assert EntryOk(m, s, q);
    }
  }

  // The initial frame lies inside its stack.
  lemma FrameInterior(h: Heap.State, base: nat)
    requires LiveFor(h, base, STACK_SIZE)
    ensures Interior(h, base + STACK_SIZE - FRAME_SIZE)
  {
    var i :| HeapRuns.LiveAt(h, i, base) && STACK_SIZE <= h.blocks[i].size;
    assert h.blocks[i].Payload() < base + STACK_SIZE - FRAME_SIZE < h.blocks[i].End();
  }

  lemma AllocKeepsLive(h: Heap.State, size: nat, b: nat, n: nat)
    requires h.Tiled() && !Heap.WrapHazard(h, size) && size < Heap.WORD && LiveFor(h, b, n)
    ensures LiveFor(Heap.Alloc(h, size).0, b, n) && Heap.Alloc(h, size).1 != b
  {
    HeapRuns.AllocMeaning(h, size);
    var i :| HeapRuns.LiveAt(h, i, b) && n <= h.blocks[i].size;
    assert h.Live(b);
    assert HeapRuns.LiveAt(Heap.Alloc(h, size).0, i, b);
  }

  // A new process: its struct written, a node queued for it, its table entry set.
  lemma EnteredGood(h: Heap.State, m: Image, s: State, own: map<nat, Owner>, pid: nat, p: nat, proc: Proc)
    requires Good(h, m, s, own) && pid !in s.table && pid !in s.ready && pid < MAX_PROCESSES
    requires s.count < MAX_PROCESSES && proc.status == Ready
    requires p != 0 && p !in own && LiveFor(h, p, PROCESS_SIZE)
    requires proc.base != 0 && proc.base !in own && proc.base != p && LiveFor(h, proc.base, STACK_SIZE)
    requires proc.sp == proc.base + STACK_SIZE - FRAME_SIZE && OutsideHeap(h, proc.argv)
    ensures |m.procs| == MAX_PROCESSES && !Heap.WrapHazard(h, NODE_SIZE)
    ensures
      var m1 := m.(mem := m.mem[p := ProcessObj(pid, proc)]);
      var (h', a) := Heap.Alloc(h, NODE_SIZE);
      && Good(h, m1, s, own)
      && if a == 0 then h' == h
         else Good(h', Appended(m1, a, p).(procs := m.procs[pid := p]), DoCreate(s, pid, proc),
                   own[p := StructOf(pid)][proc.base := StackOf(pid)][a := NodeOf(pid)])
  {
    hide Good, Interior, LiveFor, Heap.State.Tiled, Heap.Alloc;
    var s1 := s.(table := s.table[pid := proc]);
    var own1 := own[p := StructOf(pid)][proc.base := StackOf(pid)];
    var m1 := m.(mem := m.mem[p := ProcessObj(pid, proc)]);
    FrameInterior(h, proc.base);
    InsertedGood(h, m, s, own, pid, p, proc);
    StrayWriteGood(h, m, s, own, p, ProcessObj(pid, proc));
    QueuedGood(h, Inserted(m, pid, p, proc), s1, own1, pid);
    var (h', a) := Heap.Alloc(h, NODE_SIZE);
    if a != 0 {
      var m2 := Appended(Inserted(m, pid, p, proc), a, p);
      assert m2 == Appended(m1, a, p).(procs := m.procs[pid := p]);
      CountIgnored(h', m2, s1.(ready := s.ready + [pid]), own1[a := NodeOf(pid)], s.count + 1);
      assert proc.(status := Ready) == proc;
    }
  }

  lemma PointerFacts(h: Heap.State, m: Image, s: State, own: map<nat, Owner>, pid: nat)
    requires Good(h, m, s, own) && pid in s.table
    ensures Interior(h, s.table[pid].sp) && OutsideHeap(h, s.table[pid].argv)
  {
  }

  lemma HeapBound(h: Heap.State, m: Image, s: State, own: map<nat, Owner>)
    requires Good(h, m, s, own)
    ensures h.Tiled() && h.end + STACK_SIZE + Heap.NODE_SIZE < Heap.WORD
  {
  }

  // Two blocks in use never overlap, whatever they serve for.
  lemma BlocksDisjoint(h: Heap.State, m: Image, s: State, own: map<nat, Owner>, a: nat, b: nat)
    requires Good(h, m, s, own) && a in own && b in own && a != b
    ensures a + SizeOf(own[a]) <= b || b + SizeOf(own[b]) <= a
  {
    var i :| HeapRuns.LiveAt(h, i, a) && SizeOf(own[a]) <= h.blocks[i].size;
    var j :| HeapRuns.LiveAt(h, j, b) && SizeOf(own[b]) <= h.blocks[j].size;
    if i < j { Heap.Ordered(h, i, j); } else if j < i { Heap.Ordered(h, j, i); }
  }

  // Struct and stack of every process of the table, blocked or ready, and the node of every queued
  // one are live heap blocks, each with its own owner.
  lemma BlocksOfProcess(h: Heap.State, m: Image, s: State, own: map<nat, Owner>, pid: nat)
    requires Good(h, m, s, own) && pid in s.table
    ensures |m.nodes| == |s.ready| && pid < |m.procs|
    ensures
      var (p, b) := (m.procs[pid], s.table[pid].base);
      && p in own && b in own && own[p] == StructOf(pid) && own[b] == StackOf(pid)
      && LiveFor(h, p, PROCESS_SIZE) && LiveFor(h, b, STACK_SIZE)
    ensures forall i :: 0 <= i < |s.ready| ==>
      m.nodes[i] in own && own[m.nodes[i]] == NodeOf(s.ready[i]) && LiveFor(h, m.nodes[i], NODE_SIZE)
  {
    forall i | 0 <= i < |s.ready|
      ensures m.nodes[i] in own && own[m.nodes[i]] == NodeOf(s.ready[i]) && LiveFor(h, m.nodes[i], NODE_SIZE)
    {
      assert SizeOf(own[m.nodes[i]]) == NODE_SIZE;
    }
    assert SizeOf(own[m.procs[pid]]) == PROCESS_SIZE && SizeOf(own[s.table[pid].base]) == STACK_SIZE;
  }
}
