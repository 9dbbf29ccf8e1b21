/** The frame a new process starts from, and the register save and restore around interrupts. */
module ProcessFrame {

  const GENERAL_REGISTERS: nat := 15
  // ss, rsp, rflags, cs and rip
  const IRET_WORDS: nat := 5
  const KERNEL_CS: nat := 0x8
  const INITIAL_FLAGS: nat := 0x202

  /** The general registers, in the order push_state pushes them. */
  datatype Regs = Regs(
    rax: nat, rbx: nat, rcx: nat, rdx: nat, rbp: nat, rdi: nat, rsi: nat, r8: nat,
    r9: nat, r10: nat, r11: nat, r12: nat, r13: nat, r14: nat, r15: nat)
  {
    function InPushOrder(): (r: seq<nat>)
      ensures |r| == GENERAL_REGISTERS
    {
      [rax, rbx, rcx, rdx, rbp, rdi, rsi, r8, r9, r10, r11, r12, r13, r14, r15]
    }
  }

  // 64-bit words by address. All words lie on one grid, that of the stack in use, so no two overlap.
  type Memory = map<nat, nat>

  predicate OnGrid(mem: Memory, top: nat) {
    forall a :: a in mem ==> a % 8 == top % 8
  }

  ghost predicate Holds(mem: Memory, a: int, v: nat) {
    0 <= a && a in mem && mem[a] == v
  }

  // The first `n` values of `vs` lie below `top`, the first one highest, in a memory that is `base`
  // outside of these words.
  ghost predicate Stacked(base: Memory, mem: Memory, top: nat, vs: seq<nat>, n: nat)
    requires n <= |vs|
  {
    && 8 * n <= top
    && (forall k :: 0 <= k < n ==> Holds(mem, top - 8 * (k + 1), vs[k]))
    && forall a :: a in base && !(top - 8 * n <= a < top) ==> Holds(mem, a, base[a])
  }

  /** The processor, with the stack in a memory of 64-bit words. */
  class Cpu {
    var regs: Regs
    var rsp: nat
    var rip: nat
    var cs: nat
    var rflags: nat
    var ss: nat
    var mem: Memory

    constructor (regs: Regs, rsp: nat, rip: nat, mem: Memory)
      ensures this.regs == regs && this.rsp == rsp && this.rip == rip && this.mem == mem
    {
      this.regs, this.rsp, this.rip, this.mem := regs, rsp, rip, mem;
      cs, rflags, ss := KERNEL_CS, INITIAL_FLAGS, 0;
    }

    // push: value `n` of a series that started at `top`.
    method Push(v: nat, ghost base: Memory, ghost top: nat, ghost vs: seq<nat>, ghost n: nat)
      requires n < |vs| && v == vs[n] && 8 * |vs| <= top
      requires rsp == top - 8 * n && Stacked(base, mem, top, vs, n)
      modifies `rsp, `mem
      ensures rsp == top - 8 * (n + 1) && Stacked(base, mem, top, vs, n + 1)
    {
      ghost var was := mem;
      rsp := rsp - 8;
      mem := mem[rsp := v];
      forall k | 0 <= k < n + 1
        ensures Holds(mem, top - 8 * (k + 1), vs[k])
      {
        if k < n { assert Holds(was, top - 8 * (k + 1), vs[k]); }
      }
    }

    // pop: undoes value `n` of such a series.
    method Pop(ghost base: Memory, ghost top: nat, ghost vs: seq<nat>, ghost n: nat) returns (v: nat)
      requires n < |vs| && rsp == top - 8 * (n + 1) && Stacked(base, mem, top, vs, |vs|)
      modifies `rsp
      ensures v == vs[n] && rsp == top - 8 * n
    {
      assert Holds(mem, top - 8 * (n + 1), vs[n]);
      v := mem[rsp];
      rsp := rsp + 8;
    }

    // The macro push_state, the general registers being `from` words into the series `vs`.
    method PushState(ghost base: Memory, ghost top: nat, ghost vs: seq<nat>, ghost from: nat)
      requires from + GENERAL_REGISTERS == |vs| && vs[from..] == regs.InPushOrder() && 8 * |vs| <= top
      requires rsp == top - 8 * from && Stacked(base, mem, top, vs, from)
      modifies `rsp, `mem
      ensures rsp == top - 8 * |vs| && Stacked(base, mem, top, vs, |vs|)
    {
      hide Stacked, Regs.InPushOrder;
      InOrder(vs, from, regs);
      Push(regs.rax, base, top, vs, from);
      Push(regs.rbx, base, top, vs, from + 1);
      Push(regs.rcx, base, top, vs, from + 2);
      Push(regs.rdx, base, top, vs, from + 3);
      Push(regs.rbp, base, top, vs, from + 4);
      Push(regs.rdi, base, top, vs, from + 5);
      Push(regs.rsi, base, top, vs, from + 6);
      Push(regs.r8, base, top, vs, from + 7);
      Push(regs.r9, base, top, vs, from + 8);
      Push(regs.r10, base, top, vs, from + 9);
      Push(regs.r11, base, top, vs, from + 10);
      Push(regs.r12, base, top, vs, from + 11);
      Push(regs.r13, base, top, vs, from + 12);
      Push(regs.r14, base, top, vs, from + 13);
      Push(regs.r15, base, top, vs, from + 14);
    }

    // The macro pop_state: the saved general registers come back.
    method PopState(ghost base: Memory, ghost top: nat, ghost vs: seq<nat>, ghost from: nat, ghost saved: Regs)
      requires from + GENERAL_REGISTERS == |vs| && vs[from..] == saved.InPushOrder()
      requires rsp == top - 8 * |vs| && Stacked(base, mem, top, vs, |vs|)
      modifies `rsp, `regs
      ensures rsp == top - 8 * from && regs == saved
    {
      hide Stacked, Regs.InPushOrder;
      InOrder(vs, from, saved);
      var r15 := Pop(base, top, vs, from + 14);
      var r14 := Pop(base, top, vs, from + 13);
      var r13 := Pop(base, top, vs, from + 12);
      var r12 := Pop(base, top, vs, from + 11);
      var r11 := Pop(base, top, vs, from + 10);
      var r10 := Pop(base, top, vs, from + 9);
      var r9 := Pop(base, top, vs, from + 8);
      var r8 := Pop(base, top, vs, from + 7);
      var rsi := Pop(base, top, vs, from + 6);
      var rdi := Pop(base, top, vs, from + 5);
      var rbp := Pop(base, top, vs, from + 4);
      var rdx := Pop(base, top, vs, from + 3);
      var rcx := Pop(base, top, vs, from + 2);
      var rbx := Pop(base, top, vs, from + 1);
      var rax := Pop(base, top, vs, from);
      regs := Regs(rax, rbx, rcx, rdx, rbp, rdi, rsi, r8, r9, r10, r11, r12, r13, r14, r15);
    }

    // iretq: pops rip, cs, rflags, rsp and ss.
    method Iretq(ghost base: Memory, ghost top: nat, ghost vs: seq<nat>)
      requires IRET_WORDS <= |vs| && rsp == top - 8 * IRET_WORDS && Stacked(base, mem, top, vs, |vs|)
      modifies `rsp, `rip, `cs, `rflags, `ss
      ensures ss == vs[0] && rsp == vs[1] && rflags == vs[2] && cs == vs[3] && rip == vs[4]
    {
      hide Stacked;
      rip := Pop(base, top, vs, 4);
      cs := Pop(base, top, vs, 3);
      rflags := Pop(base, top, vs, 2);
      var sp := Pop(base, top, vs, 1);
      ss := Pop(base, top, vs, 0);
      rsp := sp;
    }

    // `create_process_stack_frame`: rdi is the entry point, rsi the stack top, rdx the arguments.
    // The result is left in rax.
    method CreateProcessStackFrame() returns (ghost frame: seq<nat>)
      requires 8 * (IRET_WORDS + GENERAL_REGISTERS) <= regs.rsi && OnGrid(mem, regs.rsi)
      modifies `regs, `rsp, `mem
      ensures frame == InitialFrame(old(regs), old(rsp))
      ensures Stacked(old(mem), mem, old(regs).rsi, frame, |frame|)
      ensures regs.rax == old(regs).rsi - 8 * |frame|
      ensures rsp == old(rsp) && regs.rbp == old(regs).rbp
    {
      ghost var base, top := mem, regs.rsi;
      frame := InitialFrame(regs, rsp);
      regs := regs.(r8 := rsp);
      regs := regs.(r9 := regs.rbp);
      rsp := regs.rsi;
      regs := regs.(rbp := regs.rsi);
      FrameOrder(frame, regs);
      Push(0, base, top, frame, 0);
      Push(regs.rsi, base, top, frame, 1);
      Push(INITIAL_FLAGS, base, top, frame, 2);
      Push(KERNEL_CS, base, top, frame, 3);
      Push(regs.rdi, base, top, frame, 4);
      PushState(base, top, frame, IRET_WORDS);
      regs := regs.(rax := rsp);
      rsp := regs.r8;
      regs := regs.(rbp := regs.r9);
    }

    // The call of `create_process_stack_frame` from C: the frame of a process that has not run, and
    // in rax the stack pointer to store for it.
    method BuildFrame(code: nat, stackTop: nat, argv: nat)
      requires 160 <= stackTop && OnGrid(mem, stackTop)
      modifies `regs, `rsp, `mem
      ensures regs.rax == stackTop - 160 && rsp == old(rsp)
      ensures Startable(old(mem), mem, regs.rax, code, stackTop, argv)
    {
      regs := regs.(rdi := code, rsi := stackTop, rdx := argv);
      ghost var saved := regs.(r8 := rsp, r9 := regs.rbp, rbp := stackTop);
      ghost var frame := CreateProcessStackFrame();
      FrameOrder(frame, saved);
      assert StartsWith(frame, saved, code, stackTop, argv);
    }

    // Dispatch of a process that has not run: the processor takes its stored stack pointer and leaves
    // the interrupt through it. It starts at the entry point, on the empty stack of the process, with
    // interrupts enabled (bit 9 of the flags) and the arguments in rdx.
    method Dispatch(sp: nat, ghost base: Memory, ghost code: nat, ghost stackTop: nat, ghost argv: nat)
      requires Startable(base, mem, sp, code, stackTop, argv)
      modifies `regs, `rsp, `rip, `cs, `rflags, `ss
      ensures rip == code && rsp == stackTop && cs == 8 && rflags == 0x202 && rflags / 512 % 2 == 1 && ss == 0
      ensures regs.rdx == argv && regs.rbp == stackTop
    {
      ghost var frame, saved :| StartsWith(frame, saved, code, stackTop, argv) && Stacked(base, mem, stackTop, frame, |frame|);
      rsp := sp;
      PopState(base, stackTop, frame, IRET_WORDS, saved);
      Iretq(base, stackTop, frame);
    }

    // Both together.
    method StartProcess(code: nat, stackTop: nat, argv: nat)
      requires 160 <= stackTop && OnGrid(mem, stackTop)
      modifies this
      ensures rip == code && rsp == stackTop && cs == 8 && rflags == 0x202 && ss == 0
      ensures regs.rdx == argv && regs.rbp == stackTop
      ensures forall a :: a in old(mem) && !(stackTop - 8 * (IRET_WORDS + GENERAL_REGISTERS) <= a < stackTop) ==>
        a in mem && mem[a] == old(mem)[a]
    {
      ghost var base := mem;
      BuildFrame(code, stackTop, argv);
      Dispatch(regs.rax, base, code, stackTop, argv);
      StartableOutside(base, mem, stackTop - 160, code, stackTop, argv);
    }

    // An exception: the processor pushes its five words and the handler saves the registers. The
    // dispatcher uses the registers and memory outside the frame as it likes and ends in
    // `restore_state`, which writes the restore point into the frame. Then everything is popped: the
    // interrupted code does not go on, but its other registers are what they were.
    method ExceptionToRestorePoint(clobbered: Regs, writes: Memory, ip: nat, sp: nat, bp: nat)
      requires 8 * (IRET_WORDS + GENERAL_REGISTERS) <= rsp
      requires OnGrid(mem, rsp) && OnGrid(writes, rsp)
      requires forall a :: a in writes ==> !(rsp - 8 * (IRET_WORDS + GENERAL_REGISTERS) <= a < rsp)
      modifies this
      ensures regs == old(regs).(rbp := bp) && rip == ip && rsp == sp
      ensures cs == old(cs) && rflags == old(rflags) && ss == old(ss)
      ensures forall a :: a in old(mem) + writes && !(old(rsp) - 8 * (IRET_WORDS + GENERAL_REGISTERS) <= a < old(rsp)) ==>
        a in mem && mem[a] == (old(mem) + writes)[a]
    {
      hide Stacked;
      ghost var base, top, saved := mem, rsp, regs;
      ghost var vs: seq<nat> := [ss, rsp, rflags, cs, rip] + regs.InPushOrder();
      FrameOrder(vs, regs);
      NothingStacked(base, top, vs);
      var interruptedSp := rsp;
      Push(ss, base, top, vs, 0);
      Push(interruptedSp, base, top, vs, 1);
      Push(rflags, base, top, vs, 2);
      Push(cs, base, top, vs, 3);
      Push(rip, base, top, vs, 4);
      PushState(base, top, vs, IRET_WORDS);
      Restored(base, mem, top, vs, writes, ip, sp, bp);
      regs := clobbered;
      mem := mem + writes;
      mem := mem[rsp + 8 * (REGISTERS_SHOWN - 2) := ip];
      mem := mem[rsp + 8 * (REGISTERS_SHOWN + 1) := sp];
      mem := mem[rsp + 8 * (REGISTERS_SHOWN - 7) := bp];
      ghost var vs': seq<nat> := vs[4 := ip][1 := sp][9 := bp];
      RestoredOrder(vs, vs', saved, ip, sp, bp);
      PopState(base + writes, top, vs', IRET_WORDS, saved.(rbp := bp));
      Iretq(base + writes, top, vs');
      OutsideUntouched(base + writes, mem, top, vs', |vs'|);
    }
  }

  // `registers_len`, the length of the list of register names
  const REGISTERS_SHOWN: nat := 17

  // Writes outside the frame, and three words of it replaced.
  lemma Restored(base: Memory, mem: Memory, top: nat, vs: seq<nat>, writes: Memory, ip: nat, sp: nat, bp: nat)
    requires |vs| == IRET_WORDS + GENERAL_REGISTERS && Stacked(base, mem, top, vs, |vs|)
    requires forall a :: a in writes ==> !(top - 8 * |vs| <= a < top)
    ensures
      var rsp := top - 8 * |vs|;
      Stacked(base + writes, (mem + writes)[rsp + 120 := ip][rsp + 144 := sp][rsp + 80 := bp], top, vs[4 := ip][1 := sp][9 := bp], |vs|)
  {
    var rsp := top - 8 * |vs|;
    var mem' := (mem + writes)[rsp + 120 := ip][rsp + 144 := sp][rsp + 80 := bp];
    var vs' := vs[4 := ip][1 := sp][9 := bp];
    forall k | 0 <= k < |vs|
      ensures Holds(mem', top - 8 * (k + 1), vs'[k])
    {
      assert Holds(mem, top - 8 * (k + 1), vs[k]);
    }
    forall a | a in base + writes && !(top - 8 * |vs| <= a < top)
      ensures Holds(mem', a, (base + writes)[a])
    {
      if a !in writes { assert Holds(mem, a, base[a]); }
    }
  }

  lemma RestoredOrder(vs: seq<nat>, vs': seq<nat>, r: Regs, ip: nat, sp: nat, bp: nat)
    requires |vs| == IRET_WORDS + GENERAL_REGISTERS && vs[IRET_WORDS..] == r.InPushOrder() && vs' == vs[4 := ip][1 := sp][9 := bp]
    ensures vs'[IRET_WORDS..] == r.(rbp := bp).InPushOrder()
  {
    InOrder(vs, IRET_WORDS, r);
    var next := r.(rbp := bp).InPushOrder();
    forall k | 0 <= k < GENERAL_REGISTERS
      ensures vs'[IRET_WORDS + k] == next[k]
    {
      assert vs[IRET_WORDS..][k] == vs[IRET_WORDS + k];
    }
  }

  // A frame that starts at `code` on the stack `stackTop` with the arguments in rdx, the other
  // registers being whatever they were.
  ghost predicate StartsWith(frame: seq<nat>, saved: Regs, code: nat, stackTop: nat, argv: nat) {
    && |frame| == IRET_WORDS + GENERAL_REGISTERS && frame[IRET_WORDS..] == saved.InPushOrder()
    && frame[..IRET_WORDS] == [0, stackTop, INITIAL_FLAGS, KERNEL_CS, code]
    && saved.rdx == argv && saved.rbp == stackTop
  }

  // Such a frame stands below `stackTop` in a memory that is `base` outside of it, and `sp` is where
  // it ends.
  ghost predicate Startable(base: Memory, mem: Memory, sp: nat, code: nat, stackTop: nat, argv: nat) {
    && sp + 8 * (IRET_WORDS + GENERAL_REGISTERS) == stackTop
    && exists frame, saved :: StartsWith(frame, saved, code, stackTop, argv) && Stacked(base, mem, stackTop, frame, |frame|)
  }

  lemma StartableOutside(base: Memory, mem: Memory, sp: nat, code: nat, stackTop: nat, argv: nat)
    requires Startable(base, mem, sp, code, stackTop, argv)
    ensures forall a :: a in base && !(sp <= a < stackTop) ==> a in mem && mem[a] == base[a]
  {
    var frame, saved :| StartsWith(frame, saved, code, stackTop, argv) && Stacked(base, mem, stackTop, frame, |frame|);
    OutsideUntouched(base, mem, stackTop, frame, |frame|);
  }

  lemma NothingStacked(base: Memory, top: nat, vs: seq<nat>)
    ensures Stacked(base, base, top, vs, 0)
  {
  }

  lemma OutsideUntouched(base: Memory, mem: Memory, top: nat, vs: seq<nat>, n: nat)
    requires n <= |vs| && Stacked(base, mem, top, vs, n)
    ensures forall a :: a in base && !(top - 8 * n <= a < top) ==> a in mem && mem[a] == base[a]
  {
    assert forall a :: a in base && !(top - 8 * n <= a < top) ==> Holds(mem, a, base[a]);
  }

  // The saved registers by their distance from the stack pointer that push_state leaves, and the five
  // words of the interrupt above them.
  lemma SavedAt(base: Memory, mem: Memory, sp: nat, vs: seq<nat>, r: Regs)
    requires |vs| == 20 && vs[5..] == r.InPushOrder() && Stacked(base, mem, sp + 160, vs, 20)
    ensures Holds(mem, sp, r.r15) && Holds(mem, sp + 8, r.r14) && Holds(mem, sp + 16, r.r13) && Holds(mem, sp + 24, r.r12)
    ensures Holds(mem, sp + 32, r.r11) && Holds(mem, sp + 40, r.r10) && Holds(mem, sp + 48, r.r9) && Holds(mem, sp + 56, r.r8)
    ensures Holds(mem, sp + 64, r.rsi) && Holds(mem, sp + 72, r.rdi) && Holds(mem, sp + 80, r.rbp) && Holds(mem, sp + 88, r.rdx)
    ensures Holds(mem, sp + 96, r.rcx) && Holds(mem, sp + 104, r.rbx) && Holds(mem, sp + 112, r.rax)
    ensures Holds(mem, sp + 120, vs[4]) && Holds(mem, sp + 128, vs[3]) && Holds(mem, sp + 136, vs[2])
    ensures Holds(mem, sp + 144, vs[1]) && Holds(mem, sp + 152, vs[0])
  {
    InOrder(vs, 5, r);
    forall k | 0 <= k < 20
      ensures WordAt(mem, sp, vs, k)
    {
      assert Holds(mem, sp + 160 - 8 * (k + 1), vs[k]);
    }
    hide Holds, Stacked, Regs.InPushOrder;
    assert WordAt(mem, sp, vs, 0) && WordAt(mem, sp, vs, 1) && WordAt(mem, sp, vs, 2) && WordAt(mem, sp, vs, 3) && WordAt(mem, sp, vs, 4);
    assert WordAt(mem, sp, vs, 5) && WordAt(mem, sp, vs, 6) && WordAt(mem, sp, vs, 7) && WordAt(mem, sp, vs, 8) && WordAt(mem, sp, vs, 9);
    assert WordAt(mem, sp, vs, 10) && WordAt(mem, sp, vs, 11) && WordAt(mem, sp, vs, 12) && WordAt(mem, sp, vs, 13) && WordAt(mem, sp, vs, 14);
    assert WordAt(mem, sp, vs, 15) && WordAt(mem, sp, vs, 16) && WordAt(mem, sp, vs, 17) && WordAt(mem, sp, vs, 18) && WordAt(mem, sp, vs, 19);
  }

  ghost predicate WordAt(mem: Memory, sp: nat, vs: seq<nat>, k: int)
    requires 0 <= k < |vs|
  {
    Holds(mem, sp + 152 - 8 * k, vs[k])
  }

  // The words of a new process's frame, from the stack top downwards.
  function InitialFrame(regs: Regs, rsp: nat): (frame: seq<nat>)
    ensures |frame| == IRET_WORDS + GENERAL_REGISTERS
  {
    [0, regs.rsi, INITIAL_FLAGS, KERNEL_CS, regs.rdi] + regs.(r8 := rsp, r9 := regs.rbp, rbp := regs.rsi).InPushOrder()
  }

  lemma FrameOrder(frame: seq<nat>, regs: Regs)
    requires |frame| == IRET_WORDS + GENERAL_REGISTERS && frame == frame[..IRET_WORDS] + regs.InPushOrder()
    ensures frame[IRET_WORDS..] == regs.InPushOrder()
  {
  }

  lemma InOrder(vs: seq<nat>, from: nat, r: Regs)
    requires from + GENERAL_REGISTERS == |vs| && vs[from..] == r.InPushOrder()
    ensures vs[from] == r.rax && vs[from + 1] == r.rbx && vs[from + 2] == r.rcx && vs[from + 3] == r.rdx
    ensures vs[from + 4] == r.rbp && vs[from + 5] == r.rdi && vs[from + 6] == r.rsi && vs[from + 7] == r.r8
    ensures vs[from + 8] == r.r9 && vs[from + 9] == r.r10 && vs[from + 10] == r.r11 && vs[from + 11] == r.r12
    ensures vs[from + 12] == r.r13 && vs[from + 13] == r.r14 && vs[from + 14] == r.r15
  {
    assert forall k :: 0 <= k < GENERAL_REGISTERS ==> vs[from + k] == vs[from..][k];
  }
}
