/** The round-robin scheduler as a state machine over its events. */
module Scheduling {

  const MAX_PROCESSES: nat := 4096

  datatype Status = Blocked | Ready

  /** The part of `process_t` that the scheduler reads or writes after creation. */
  datatype Proc = Proc(status: Status, base: nat, sp: nat, argv: nat)

  /** `ready` lists the pids of the ready list from the head; `cur` is the position of `current`
      in it, -1 for NULL; `table` holds the non-NULL entries of `processes`. */
  datatype State = State(ready: seq<nat>, cur: int, table: map<nat, Proc>, count: int)

  const Initial: State := State([], -1, map[], 0)

  datatype Event =
    | Tick(sp: nat)
    | Create(pid: nat, proc: Proc)
    | Kill(pid: nat)
    | Block(pid: nat)
    | Unblock(pid: nat)

  // ---------- the operations ----------

  function Next(s: State): int {
    if s.cur < 0 || s.cur + 1 >= |s.ready| then 0 else s.cur + 1
  }

  // `scheduler`: the state after a timer tick. (A pid of the list that has no table entry, which
  // no invariant state has, is left alone.)
  function DoTick(s: State, sp: nat): State {
    if s.ready == [] then s
    else
      var t :=
        if 0 <= s.cur < |s.ready| && s.ready[s.cur] in s.table
        then s.table[s.ready[s.cur] := s.table[s.ready[s.cur]].(sp := sp)]
        else s.table;
      s.(table := t, cur := Next(s))
  }

  // The stack pointer it returns.
  function Resumed(s: State, sp: nat): nat {
    var s' := DoTick(s, sp);
    if 0 <= s'.cur < |s'.ready| && s'.ready[s'.cur] in s'.table then s'.table[s'.ready[s'.cur]].sp else sp
  }

  function IndexOf(ready: seq<nat>, pid: nat): (k: nat)
    ensures k <= |ready|
    ensures k < |ready| ==> ready[k] == pid
    ensures forall j :: 0 <= j < k ==> ready[j] != pid
  {
    if ready == [] || ready[0] == pid then 0
    else
      var k := IndexOf(ready[1..], pid);
      assert forall j :: 0 < j < |ready| ==> ready[j] == ready[1..][j - 1];
      k + 1
  }

  // `remove_process`: take `pid` off the ready list; a removed `current` moves on to its successor.
  function DoRemove(s: State, pid: nat): State {
    var k := IndexOf(s.ready, pid);
    if k == |s.ready| then s
    else
      var rest := s.ready[..k] + s.ready[k + 1..];
      var c :=
        if k < s.cur then s.cur - 1
        else if s.cur < k then s.cur
        else if k < |rest| then k
        else if rest == [] then -1 else 0;
      s.(ready := rest, cur := c, count := s.count - 1)
  }

  function DoCreate(s: State, pid: nat, proc: Proc): State {
    if s.count >= MAX_PROCESSES then s
    else s.(ready := s.ready + [pid], table := s.table[pid := proc.(status := Ready)], count := s.count + 1)
  }

  function DoKill(s: State, pid: nat): State {
    if pid !in s.table then s
    else var s1 := DoRemove(s, pid); s1.(table := s1.table - {pid})
  }

  function DoBlock(s: State, pid: nat): State {
    if pid !in s.table then s
    else DoRemove(s.(table := s.table[pid := s.table[pid].(status := Blocked)]), pid)
  }

  function DoUnblock(s: State, pid: nat): State {
    if pid !in s.table then s
    else s.(table := s.table[pid := s.table[pid].(status := Ready)], ready := s.ready + [pid])
  }

  function Step(s: State, e: Event): State {
    match e
    case Tick(sp) => DoTick(s, sp)
    case Create(pid, proc) => DoCreate(s, pid, proc)
    case Kill(pid) => DoKill(s, pid)
    case Block(pid) => DoBlock(s, pid)
    case Unblock(pid) => DoUnblock(s, pid)
  }

  function Run(s: State, es: seq<Event>): State
    decreases |es|
  {
    if es == [] then s else Run(Step(s, es[0]), es[1..])
  }

  // ---------- invariant ----------

  ghost predicate NoDup(ready: seq<nat>) {
    forall i, j :: 0 <= i < j < |ready| ==> ready[i] != ready[j]
  }

  // The ready list is duplicate-free and holds exactly the READY processes of the table, and
  // `current` is NULL or in the list.
  ghost predicate Inv(s: State) {
    && NoDup(s.ready)
    && -1 <= s.cur < |s.ready|
    && (forall p :: p in s.ready <==> p in s.table && s.table[p].status == Ready)
    && (forall p :: p in s.table ==> p < MAX_PROCESSES)
  }

  // What callers must keep to: a fresh pid for a new process, `current` set before a process
  // leaves the ready list, and only a BLOCKED process is unblocked.
  predicate Allowed(s: State, e: Event) {
    match e
    case Tick(sp) => true
    case Create(pid, proc) => pid < MAX_PROCESSES && pid !in s.table
    case Kill(pid) => pid in s.ready ==> 0 <= s.cur
    case Block(pid) => pid in s.ready ==> 0 <= s.cur
    case Unblock(pid) => pid in s.table ==> s.table[pid].status == Blocked
  }

  predicate Disciplined(s: State, es: seq<Event>)
    decreases |es|
  {
    es != [] ==> Allowed(s, es[0]) && Disciplined(Step(s, es[0]), es[1..])
  }

  lemma RemoveMeaning(s: State, pid: nat)
    requires NoDup(s.ready) && -1 <= s.cur < |s.ready|
    ensures
      var s' := DoRemove(s, pid);
      && NoDup(s'.ready) && -1 <= s'.cur < |s'.ready| && s'.table == s.table
      && (forall p :: p in s'.ready <==> p in s.ready && p != pid)
      && s'.count - |s'.ready| == s.count - |s.ready|
      && (0 <= s.cur && s.ready[s.cur] != pid ==> 0 <= s'.cur && s'.ready[s'.cur] == s.ready[s.cur])
      && (s.cur < 0 ==> s'.cur < 0 || pid in s.ready)
  {
    var k := IndexOf(s.ready, pid);
    if k < |s.ready| {
      TakenOut(s.ready, k);
    }
  }

  lemma TakenOut(ready: seq<nat>, k: nat)
    requires NoDup(ready) && k < |ready|
    ensures
      var rest := ready[..k] + ready[k + 1..];
      && |rest| == |ready| - 1 && NoDup(rest)
      && (forall i :: 0 <= i < k ==> rest[i] == ready[i])
      && (forall i :: k < i < |ready| ==> rest[i - 1] == ready[i])
      && forall p :: p in rest <==> p in ready && p != ready[k]
  {
    var rest := ready[..k] + ready[k + 1..];
    assert forall i :: 0 <= i < |rest| ==> rest[i] == ready[if i < k then i else i + 1];
    forall p | p in ready && p != ready[k]
      ensures p in rest
    {
      var i :| 0 <= i < |ready| && ready[i] == p;
      assert rest[if i < k then i else i - 1] == p;
    }
  }

  // What a tick does, in two halves: save, then move on.
  lemma TickParts(s: State, sp: nat)
    requires Inv(s) && s.ready != []
    ensures
      var s1 := if s.cur < 0 then s else s.(table := s.table[s.ready[s.cur] := s.table[s.ready[s.cur]].(sp := sp)]);
      var s2 := s1.(cur := Next(s1));
      && (0 <= s.cur ==> s.cur < |s.ready| && s.ready[s.cur] in s.table)
      && Inv(s1) && Inv(s2) && DoTick(s, sp) == s2
      && 0 <= s2.cur < |s2.ready| && s2.ready[s2.cur] in s2.table
      && Resumed(s, sp) == s2.table[s2.ready[s2.cur]].sp
  {
    assert 0 <= s.cur ==> s.ready[s.cur] in s.ready;
    assert s.ready[Next(s)] in s.ready;
  }

  lemma StepKeepsInv(s: State, e: Event)
    requires Inv(s) && Allowed(s, e)
    ensures Inv(Step(s, e))
  {
    match e
    case Kill(pid) => RemovalKeepsInv(s, e);
    case Block(pid) => RemovalKeepsInv(s, e);
    case _ =>
  }

  lemma RemovalKeepsInv(s: State, e: Event)
    requires Inv(s) && (e.Kill? || e.Block?)
    ensures Inv(Step(s, e))
  {
    hide NoDup, IndexOf, DoRemove;
    if e.Kill? {
      RemoveMeaning(s, e.pid);
    } else if e.pid in s.table {
      RemoveMeaning(s.(table := s.table[e.pid := s.table[e.pid].(status := Blocked)]), e.pid);
    }
  }

  // A process created and killed or blocked before the first tick: it is queued, and `current` is NULL.
  lemma BeforeFirstTick(pid: nat, proc: Proc)
    requires pid < MAX_PROCESSES
    ensures
      var s := Step(Initial, Create(pid, proc));
      && Allowed(Initial, Create(pid, proc)) && pid in s.ready && s.cur < 0
      && !Allowed(s, Kill(pid)) && !Allowed(s, Block(pid)) && Allowed(Step(s, Tick(0)), Kill(pid))
  {
    assert Step(Initial, Create(pid, proc)).ready[0] == pid;
  }

  // Unblocking a process of the table keeps the invariant exactly when the process is BLOCKED.
  lemma UnblockIff(s: State, pid: nat)
    requires Inv(s) && pid in s.table
    ensures Inv(DoUnblock(s, pid)) <==> s.table[pid].status == Blocked
  {
    var s' := DoUnblock(s, pid);
    if s.table[pid].status == Ready {
      var i :| 0 <= i < |s.ready| && s.ready[i] == pid;
      assert s'.ready[i] == s'.ready[|s.ready|];
    } else {
      StepKeepsInv(s, Unblock(pid));
    }
  }

  function Unblocks(s: State, es: seq<Event>): nat
    decreases |es|
  {
    if es == [] then 0
    else
      (if es[0].Unblock? && es[0].pid in s.table then 1 else 0) + Unblocks(Step(s, es[0]), es[1..])
  }

  // Over every disciplined run the invariant holds, and `process_count` is the length of the
  // ready list minus the number of successful unblocks.
  lemma {:induction false} RunKeepsInv(s: State, es: seq<Event>)
    requires Inv(s) && Disciplined(s, es)
    ensures Inv(Run(s, es))
    ensures Run(s, es).count - |Run(s, es).ready| == s.count - |s.ready| - Unblocks(s, es)
    decreases |es|
  {
    if es != [] {
      StepKeepsInv(s, es[0]);
      StepCounts(s, es[0]);
      RunKeepsInv(Step(s, es[0]), es[1..]);
    }
  }

  lemma StepCounts(s: State, e: Event)
    requires Inv(s) && Allowed(s, e)
    ensures Step(s, e).count - |Step(s, e).ready| == s.count - |s.ready| - Unblocks(s, [e])
  {
    assert Unblocks(Step(s, e), [e][1..]) == 0;
    match e
    case Kill(pid) => RemoveMeaning(s, pid);
    case Block(pid) =>
      if pid in s.table {
        RemoveMeaning(s.(table := s.table[pid := s.table[pid].(status := Blocked)]), pid);
      }
    case _ =>
  }

  lemma RunFromInitial(es: seq<Event>)
    requires Disciplined(Initial, es)
    ensures Inv(Run(Initial, es))
    ensures Run(Initial, es).count == |Run(Initial, es).ready| - Unblocks(Initial, es)
  {
    RunKeepsInv(Initial, es);
  }

  // ---------- fairness ----------

  // The pids selected by a run of ticks.
  function Selected(s: State, sps: seq<nat>): (r: seq<nat>)
    requires s.ready != [] && -1 <= s.cur < |s.ready|
    ensures |r| == |sps|
    decreases |sps|
  {
    if sps == [] then []
    else
      var s' := DoTick(s, sps[0]);
      [s'.ready[s'.cur]] + Selected(s', sps[1..])
  }

  // Position `k + 1` places behind `cur` in a list of `n`, going round once at most.
  function Position(cur: int, n: nat, k: nat): int {
    if cur + 1 + k < n then cur + 1 + k else cur + 1 + k - n
  }

  lemma {:induction false} SelectedAt(s: State, sps: seq<nat>, k: nat)
    requires s.ready != [] && -1 <= s.cur < |s.ready| && k < |sps| && k < |s.ready|
    ensures 0 <= Position(s.cur, |s.ready|, k) < |s.ready|
    ensures Selected(s, sps)[k] == s.ready[Position(s.cur, |s.ready|, k)]
    decreases |sps|
  {
    if k > 0 {
      SelectedAt(DoTick(s, sps[0]), sps[1..], k - 1);
    }
  }

  // Going round once hits every position once.
  lemma PositionHits(cur: int, n: nat, i: nat) returns (k: nat)
    requires -1 <= cur < n && i < n
    ensures k < n && Position(cur, n, k) == i
    ensures forall j: nat :: j < n && Position(cur, n, j) == i ==> j == k
  {
    k := if i > cur then i - cur - 1 else i - cur - 1 + n;
  }

  lemma OnlyOnce(ready: seq<nat>, i: int, j: int)
    requires NoDup(ready) && 0 <= i < |ready| && 0 <= j < |ready| && ready[i] == ready[j]
    ensures i == j
  {
  }

  // With n ready processes and no change of the list, n consecutive ticks select every ready
  // process exactly once.
  lemma RoundRobin(s: State, sps: seq<nat>, p: nat)
    requires Inv(s) && s.ready != [] && |sps| == |s.ready| && p in s.ready
    ensures exists k :: 0 <= k < |sps| && Selected(s, sps)[k] == p
    ensures forall k, l :: 0 <= k < |sps| && 0 <= l < |sps| && Selected(s, sps)[k] == p == Selected(s, sps)[l] ==> k == l
  {
    InvCursor(s);
    hide Inv, Selected;
    var n := |s.ready|;
    var i :| 0 <= i < n && s.ready[i] == p;
    var k := PositionHits(s.cur, n, i);
    hide Position, NoDup;
    SelectedAt(s, sps, k);
    forall j | 0 <= j < n && Selected(s, sps)[j] == p
      ensures j == k
    {
      SelectedAt(s, sps, j);
      OnlyOnce(s.ready, Position(s.cur, n, j), i);
    }
  }

  // A new or woken process waits for those behind `current`, and for no other: it runs at the next
  // tick after theirs, if nothing else happens.
  lemma NewcomerIsLast(s: State, e: Event, sps: seq<nat>)
    requires Inv(s) && Allowed(s, e)
    requires (e.Create? && s.count < 4096) || (e.Unblock? && e.pid in s.table)
    requires |s.ready| - s.cur <= |sps| && -1 <= s.cur < |s.ready|
    ensures
      var s' := Step(s, e);
      && s'.ready != [] && -1 <= s'.cur < |s'.ready|
      && Selected(s', sps)[|s.ready| - 1 - s.cur] == e.pid
      && forall k :: 0 <= k < |s.ready| - 1 - s.cur ==> Selected(s', sps)[k] == s.ready[s.cur + 1 + k] != e.pid
  {
    var s' := Step(s, e);
    var n := |s.ready| - 1 - s.cur;
    Queued(s, e);
    hide *;
    SelectedAt(s', sps, n);
    assert Position(s'.cur, |s'.ready|, n) == |s.ready| by { PlacesOn(s.cur, |s'.ready|, n); }
    forall k | 0 <= k < n
      ensures Selected(s', sps)[k] == s.ready[s.cur + 1 + k] != e.pid
    {
      SelectedAt(s', sps, k);
      PlacesOn(s.cur, |s'.ready|, k);
      assert s.ready[s.cur + 1 + k] in s.ready;
    }
  }

  lemma PlacesOn(cur: int, n: nat, k: nat)
    requires cur + 1 + k < n
    ensures Position(cur, n, k) == cur + 1 + k
  {
  }

  lemma Queued(s: State, e: Event)
    requires Inv(s) && Allowed(s, e)
    requires (e.Create? && s.count < 4096) || (e.Unblock? && e.pid in s.table)
    ensures e.pid !in s.ready && Step(s, e).ready == s.ready + [e.pid] && Step(s, e).cur == s.cur
  {
  }

  // A creation changes nothing exactly when 4096 processes are counted.
  lemma CreateRefusedIff(s: State, pid: nat, proc: Proc)
    ensures Step(s, Create(pid, proc)) == s <==> s.count >= 4096
  {
    assert s.count < 4096 ==> |Step(s, Create(pid, proc)).ready| == |s.ready| + 1;
  }

  // ---------- context preservation ----------

  /** The scheduler state next to the truth about the processor: which process runs (-1 for code
      that is in no table), and with which stack pointer each process was last preempted. */
  datatype World = World(s: State, running: int, context: map<nat, nat>)

  function WorldStep(w: World, e: Event): World {
    var s' := Step(w.s, e);
    match e
    case Tick(sp) =>
      var context := if w.running >= 0 && w.running in w.context then w.context[w.running := sp] else w.context;
      var running := if 0 <= s'.cur < |s'.ready| then s'.ready[s'.cur] else w.running;
      World(s', running, context)
    case Create(pid, proc) =>
      if w.s.count >= MAX_PROCESSES then w else World(s', w.running, w.context[pid := proc.sp])
    case Kill(pid) => World(s', if w.running == pid then -1 else w.running, w.context - {pid})
    case _ => World(s', w.running, w.context)
  }

  // The process that `current` names is the one that runs, and every other process of the table
  // has its own stack pointer stored.
  ghost predicate Faithful(w: World) {
    && Inv(w.s)
    && w.context.Keys == w.s.table.Keys
    && w.running == (if w.s.cur < 0 then -1 else w.s.ready[w.s.cur])
    && forall p :: p in w.s.table && p != w.running ==> w.s.table[p].sp == w.context[p]
  }

  predicate RemovesCurrent(s: State, e: Event) {
    (e.Kill? || e.Block?) && 0 <= s.cur < |s.ready| && s.ready[s.cur] == e.pid
  }

  // The running process is removed, other than by a kill while it is the only ready one.
  predicate Loses(s: State, e: Event) {
    RemovesCurrent(s, e) && !(e.Kill? && |s.ready| == 1)
  }

  // Discipline for context preservation: as before, and no event that loses a stack pointer.
  predicate Careful(w: World, es: seq<Event>)
    decreases |es|
  {
    es != [] ==>
      && Allowed(w.s, es[0]) && !Loses(w.s, es[0])
      && Careful(WorldStep(w, es[0]), es[1..])
  }

  // Every process of the table has its own stack pointer stored.
  ghost predicate Saved(w: World) {
    forall p :: p in w.s.table ==> p in w.context && w.s.table[p].sp == w.context[p]
  }

  lemma FaithfulStep(w: World, e: Event)
    requires Faithful(w) && Allowed(w.s, e) && !Loses(w.s, e)
    ensures Faithful(WorldStep(w, e))
    ensures e.Tick? && w.s.ready != [] ==>
      var w' := WorldStep(w, e);
      w'.running in w'.context && Resumed(w.s, e.sp) == w'.context[w'.running]
  {
    match e
    case Kill(pid) => FaithfulKill(w, pid);
    case Block(pid) => FaithfulBlock(w, pid);
    case Tick(sp) => FaithfulTick(w, sp);
    case _ => FaithfulAppend(w, e);
  }

  lemma FaithfulKill(w: World, pid: nat)
    requires Faithful(w) && Allowed(w.s, Kill(pid)) && !Loses(w.s, Kill(pid))
    ensures Faithful(WorldStep(w, Kill(pid)))
  {
    hide Faithful, WorldStep;
    if RemovesCurrent(w.s, Kill(pid)) { FaithfulLastKill(w, pid); } else { FaithfulOtherKill(w, pid); }
  }

  lemma FaithfulLastKill(w: World, pid: nat)
    requires Faithful(w) && RemovesCurrent(w.s, Kill(pid)) && |w.s.ready| == 1
    ensures Faithful(WorldStep(w, Kill(pid)))
  {
    StepKeepsInv(w.s, Kill(pid));
    InvCursor(w.s);
    hide NoDup, Inv, IndexOf, DoRemove;
    OnlyOneRemoved(w.s, pid);
  }

  lemma FaithfulOtherKill(w: World, pid: nat)
    requires Faithful(w) && Allowed(w.s, Kill(pid)) && !RemovesCurrent(w.s, Kill(pid))
    ensures Faithful(WorldStep(w, Kill(pid)))
  {
    StepKeepsInv(w.s, Kill(pid));
    InvCursor(w.s);
    hide NoDup, Inv, IndexOf, DoRemove;
    RunningStays(w.s, pid);
  }

  // Taking out the only ready process leaves the list empty and `current` NULL.
  lemma OnlyOneRemoved(s: State, pid: nat)
    requires |s.ready| == 1 && s.ready[0] == pid && s.cur == 0
    ensures DoRemove(s, pid) == s.(ready := [], cur := -1, count := s.count - 1)
  {
  }

  lemma FaithfulBlock(w: World, pid: nat)
    requires Faithful(w) && Allowed(w.s, Block(pid)) && !Loses(w.s, Block(pid))
    ensures Faithful(WorldStep(w, Block(pid)))
  {
    StepKeepsInv(w.s, Block(pid));
    InvCursor(w.s);
    hide NoDup, Inv, IndexOf, DoRemove;
    if pid in w.s.table {
      RunningStays(w.s.(table := w.s.table[pid := w.s.table[pid].(status := Blocked)]), pid);
    }
  }

  // Taking out another process leaves `current` on the same one.
  lemma RunningStays(s: State, pid: nat)
    requires NoDup(s.ready) && -1 <= s.cur < |s.ready| && (pid in s.ready ==> 0 <= s.cur)
    requires 0 <= s.cur ==> s.ready[s.cur] != pid
    ensures
      var s' := DoRemove(s, pid);
      && s'.table == s.table && -1 <= s'.cur < |s'.ready| && (s'.cur < 0 <==> s.cur < 0)
      && (0 <= s.cur ==> s'.ready[s'.cur] == s.ready[s.cur])
  {
    RemoveMeaning(s, pid);
  }

  lemma InvCursor(s: State)
    requires Inv(s)
    ensures NoDup(s.ready) && -1 <= s.cur < |s.ready|
    ensures 0 <= s.cur ==> s.ready[s.cur] in s.table
  {
  }

  lemma FaithfulAppend(w: World, e: Event)
    requires Faithful(w) && Allowed(w.s, e) && (e.Create? || e.Unblock?)
    ensures Faithful(WorldStep(w, e))
  {
    StepKeepsInv(w.s, e);
    hide NoDup, Inv;
    InvCursor(w.s);
  }

  lemma FaithfulTick(w: World, sp: nat)
    requires Faithful(w)
    ensures Faithful(WorldStep(w, Tick(sp))) && Saved(WorldStep(w, Tick(sp)))
    ensures w.s.ready != [] ==>
      var w' := WorldStep(w, Tick(sp));
      w'.running in w'.context && Resumed(w.s, sp) == w'.context[w'.running]
  {
    if w.s.ready != [] {
      assert w.s.ready[Next(w.s)] in w.s.ready;
      assert w.s.ready[if w.s.cur < 0 then 0 else w.s.cur] in w.s.ready;
    }
  }

  function WorldRun(w: World, es: seq<Event>): World
    decreases |es|
  {
    if es == [] then w else WorldRun(WorldStep(w, es[0]), es[1..])
  }

  // After any careful run, the next tick resumes the selected process with exactly the stack
  // pointer it had when it was last preempted, or its initial frame; blocking and unblocking in
  // between do not matter.
  lemma {:induction false} ContextPreserved(w: World, es: seq<Event>, sp: nat)
    requires Faithful(w) && Careful(w, es)
    ensures Faithful(WorldRun(w, es))
    ensures
      var w1 := WorldRun(w, es);
      var w2 := WorldStep(w1, Tick(sp));
      Saved(w2) && (w1.s.ready != [] ==> w2.running in w2.context && Resumed(w1.s, sp) == w2.context[w2.running])
    decreases |es|
  {
    if es == [] {
      FaithfulTick(w, sp);
    } else {
      FaithfulStep(w, es[0]);
      ContextPreserved(WorldStep(w, es[0]), es[1..], sp);
    }
  }

  // However the run goes on with care after `e`, the next tick leaves every stack pointer stored.
  ghost predicate KeepsContexts(w: World, e: Event) {
    forall es, sp :: Careful(WorldStep(w, e), es) ==> Saved(WorldStep(WorldRun(WorldStep(w, e), es), Tick(sp)))
  }

  // An event keeps all contexts exactly when it does not remove the running process, or kills it
  // while no other process is ready.
  lemma RemovingCurrentIff(w: World, e: Event)
    requires Faithful(w) && Allowed(w.s, e)
    ensures KeepsContexts(w, e) <==> !Loses(w.s, e)
  {
    var w1 := WorldStep(w, e);
    if !Loses(w.s, e) {
      FaithfulStep(w, e);
      forall es, sp | Careful(w1, es)
        ensures Saved(WorldStep(WorldRun(w1, es), Tick(sp)))
      {
        ContextPreserved(w1, es, sp);
      }
    } else if e.Kill? {
      var q := w.s.ready[Next(w.s)];
      KilledRunner(w, e.pid, 0);
      KilledRunner(w, e.pid, w.context[q] + 1);
      assert Careful(w1, []) && WorldRun(w1, []) == w1;
    } else {
      var sp := w.s.table[e.pid].sp + 1;
      BlockedRunner(w, e.pid, sp);
      OneStep(w1, Unblock(e.pid));
    }
  }

  lemma OneStep(w: World, e: Event)
    requires Allowed(w.s, e) && !Loses(w.s, e)
    ensures Careful(w, [e]) && WorldRun(w, [e]) == WorldStep(w, e)
  {
    hide Allowed, Loses;
    assert [e][1..] == [];
    var w' := WorldStep(w, e);
    assert Careful(w', []) && WorldRun(w', []) == w';
  }

  // The running process killed while others are ready: the next tick stores its stack pointer,
  // whatever it is, with the successor.
  lemma KilledRunner(w: World, pid: nat, sp: nat)
    requires Faithful(w) && RemovesCurrent(w.s, Kill(pid)) && 2 <= |w.s.ready|
    ensures 0 <= Next(w.s) < |w.s.ready|
    ensures
      var q := w.s.ready[Next(w.s)];
      var w2 := WorldStep(WorldStep(w, Kill(pid)), Tick(sp));
      && q in w.context && q in w2.s.table && q in w2.context
      && w2.s.table[q].sp == sp && w2.context[q] == w.context[q]
  {
    Successor(w.s, Kill(pid));
    var s1 := Step(w.s, Kill(pid));
    hide Step, Inv, Next;
    assert DoTick(s1, sp).table == s1.table[s1.ready[s1.cur] := s1.table[s1.ready[s1.cur]].(sp := sp)] by {
      hide *;
      TickSaves(s1, sp);
    }
    assert WorldStep(w, Kill(pid)).s == s1;
    TickIsStep(s1, sp);
  }

  lemma TickIsStep(s: State, sp: nat)
    ensures Step(s, Tick(sp)) == DoTick(s, sp)
  {
  }

  // The running process blocked and unblocked again: the next tick stores its stack pointer
  // nowhere, and what is stored with it is still the old one.
  lemma BlockedRunner(w: World, pid: nat, sp: nat)
    requires Faithful(w) && RemovesCurrent(w.s, Block(pid))
    ensures pid in w.s.table
    ensures
      var w1 := WorldStep(w, Block(pid));
      var w3 := WorldStep(WorldStep(w1, Unblock(pid)), Tick(sp));
      && Allowed(w1.s, Unblock(pid))
      && pid in w3.s.table && pid in w3.context
      && w3.s.table[pid].sp == w.s.table[pid].sp && w3.context[pid] == sp
  {
    InvCursor(w.s);
    var s0 := w.s.(table := w.s.table[pid := w.s.table[pid].(status := Blocked)]);
    RemoveMeaning(s0, pid);
    var s1 := DoRemove(s0, pid);
    hide NoDup, Inv, IndexOf, DoRemove;
    assert 0 <= s1.cur ==> s1.ready[s1.cur] in s1.ready;
    var s2 := DoUnblock(s1, pid);
    assert 0 <= s1.cur ==> s2.ready[s2.cur] != pid;
    assert DoTick(s2, sp).table[pid].sp == w.s.table[pid].sp;
  }

  // Process 7 runs alone, last preempted at 100; it is blocked, unblocked, and preempted at 90. The
  // tick resumes it at 100.
  lemma BlockedExample()
    ensures
      var s := State([7], 0, map[7 := Proc(Ready, 0, 100, 0)], 1);
      var s2 := Step(Step(s, Block(7)), Unblock(7));
      && Inv(s) && Disciplined(s, [Block(7), Unblock(7), Tick(90)])
      && Step(s2, Tick(90)).ready == [7] && Resumed(s2, 90) == 100
  {
    var s := State([7], 0, map[7 := Proc(Ready, 0, 100, 0)], 1);
    var es := [Block(7), Unblock(7), Tick(90)];
    assert es[1..] == [Unblock(7), Tick(90)] && es[1..][1..] == [Tick(90)] && es[1..][1..][1..] == [];
    var s0 := s.(table := s.table[7 := s.table[7].(status := Blocked)]);
    OnlyOneRemoved(s0, 7);
  }

  lemma TickSaves(s: State, sp: nat)
    requires 0 <= s.cur < |s.ready| && s.ready[s.cur] in s.table
    ensures DoTick(s, sp).table == s.table[s.ready[s.cur] := s.table[s.ready[s.cur]].(sp := sp)]
  {
  }

  // Where `current` goes when its process is removed, with the table otherwise as it was.
  lemma Successor(s: State, e: Event)
    requires Inv(s) && RemovesCurrent(s, e) && 2 <= |s.ready|
    ensures
      var s1 := Step(s, e);
      && 0 <= Next(s) < |s.ready| && 0 <= s1.cur < |s1.ready| && s1.ready[s1.cur] == s.ready[Next(s)]
      && s1.ready[s1.cur] != e.pid && s1.ready[s1.cur] in s1.table
      && (forall p :: p in s1.table && p != e.pid ==> p in s.table && s1.table[p].sp == s.table[p].sp)
  {
    var s0 := if e.Block? then s.(table := s.table[e.pid := s.table[e.pid].(status := Blocked)]) else s;
    assert s.ready[s.cur] in s.ready;
    RemoveMeaning(s0, e.pid);
    assert IndexOf(s.ready, e.pid) == s.cur;
    var s1 := Step(s, e);
    assert s1.ready[s1.cur] == s.ready[Next(s)];
    assert s1.ready[s1.cur] in s1.ready;
  }
}
