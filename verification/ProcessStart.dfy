/** From `create_process` to the first instruction of the process: the stack pointer that the
    scheduler stores is where the frame ends that the processor is started through. */
module ProcessStart {
  import opened Scheduling
  import opened ProcessTable
  import opened ProcessFrame
  import KernelScheduler
  import HeapRuns

  // `create_process` with the frame it builds: the stack pointer stored for the process is the one
  // that `create_process_stack_frame` leaves in rax, and the frame stands there.
  method CreateWithFrame(kernel: KernelScheduler.Scheduler, cpu: Cpu, pid: nat, code: nat, argv: nat) returns (r: int)
    requires kernel.Valid() && pid < MAX_PROCESSES && pid !in kernel.s.table && OutsideHeap(kernel.heap.Abs(), argv)
    requires OnGrid(cpu.mem, HeapRuns.AllocAll(kernel.heap.Abs(), KernelScheduler.PROCESS_ALLOCATIONS).1[1])
    modifies kernel, kernel.heap, kernel.processes, cpu
    ensures kernel.Valid()
    ensures
      var ps := HeapRuns.AllocAll(old(kernel.heap.Abs()), KernelScheduler.PROCESS_ALLOCATIONS).1;
      r == -1 <==> old(kernel.s).count >= MAX_PROCESSES || 0 in ps
    ensures r != -1 ==>
      && r == pid && pid in kernel.s.table && kernel.s.ready == old(kernel.s).ready + [pid] && kernel.s.cur == old(kernel.s).cur
      && cpu.regs.rax == kernel.s.table[pid].sp
      && Startable(old(cpu.mem), cpu.mem, kernel.s.table[pid].sp, code, kernel.s.table[pid].base + 4096, argv)
  {
    hide Good, Inv, Startable, HeapRuns.AllocAll;
    ghost var ps := HeapRuns.AllocAll(kernel.heap.Abs(), KernelScheduler.PROCESS_ALLOCATIONS).1;
    KernelScheduler.AllocThree(kernel.heap.Abs());
    TableEntry(kernel.heap.Abs(), kernel.Img(), kernel.s, kernel.own, pid);
    r := kernel.CreateProcess(pid, argv);
    if r != -1 {
      ghost var base := kernel.s.table[pid].base;
      assert base == ps[1];
      var top := StackTop(kernel, pid);
      cpu.BuildFrame(code, top, argv);
    }
  }

  // Behind the last byte of the stack of a process of the table.
  method StackTop(kernel: KernelScheduler.Scheduler, pid: nat) returns (top: nat)
    requires kernel.Valid() && pid < MAX_PROCESSES && pid in kernel.s.table
    ensures top == kernel.s.table[pid].base + 4096
  {
    hide Good, Inv;
    TableEntry(kernel.heap.Abs(), kernel.Img(), kernel.s, kernel.own, pid);
    top := kernel.mem[kernel.processes[pid]].proc.base + STACK_SIZE;
  }

  // A tick that selects a process which has not run: it returns the stored pointer, and the processor
  // that leaves the interrupt through it is at the entry point of the process.
  method FirstRun(kernel: KernelScheduler.Scheduler, cpu: Cpu, sp: nat, ghost pid: nat, ghost base: Memory, ghost code: nat, ghost argv: nat)
    requires kernel.Valid() && (0 <= kernel.s.cur ==> Interior(kernel.heap.Abs(), sp))
    requires kernel.s.ready != [] && kernel.s.ready[Next(kernel.s)] == pid && pid in kernel.s.table
    requires 0 <= kernel.s.cur < |kernel.s.ready| ==> kernel.s.ready[kernel.s.cur] != pid
    requires Startable(base, cpu.mem, kernel.s.table[pid].sp, code, kernel.s.table[pid].base + 4096, argv)
    modifies kernel`mem, kernel`current, kernel`s, cpu
    ensures kernel.Valid() && kernel.s == DoTick(old(kernel.s), sp)
    ensures cpu.rip == code && cpu.rsp == kernel.s.table[pid].base + 4096 && cpu.regs.rdx == argv && cpu.rflags == 0x202
  {
    hide Startable, Good;
    TickParts(kernel.s, sp);
    ghost var top := kernel.s.table[pid].base + 4096;
    var resume := kernel.Tick(sp);
    cpu.Dispatch(resume, base, code, top, argv);
  }

  // The first process of all: created, dispatched by the next tick, and at its entry point with its
  // arguments, on its own empty stack.
  method StartFirst(kernel: KernelScheduler.Scheduler, cpu: Cpu, pid: nat, code: nat, argv: nat, sp: nat) returns (r: int)
    requires kernel.Valid() && pid < MAX_PROCESSES && OutsideHeap(kernel.heap.Abs(), argv)
    requires kernel.s.ready == [] && kernel.s.cur < 0 && pid !in kernel.s.table
    requires OnGrid(cpu.mem, HeapRuns.AllocAll(kernel.heap.Abs(), KernelScheduler.PROCESS_ALLOCATIONS).1[1])
    modifies kernel, kernel.heap, kernel.processes, cpu
    ensures kernel.Valid()
    ensures
      var ps := HeapRuns.AllocAll(old(kernel.heap.Abs()), KernelScheduler.PROCESS_ALLOCATIONS).1;
      r == -1 <==> old(kernel.s).count >= MAX_PROCESSES || 0 in ps
    ensures r != -1 ==>
      && pid in kernel.s.table && kernel.s.ready == [pid] && kernel.s.cur == 0
      && cpu.rip == code && cpu.rsp == kernel.s.table[pid].base + 4096 && cpu.regs.rdx == argv && cpu.rflags == 0x202
  {
    hide Startable, Good, HeapRuns.AllocAll;
    ghost var base := cpu.mem;
    r := CreateWithFrame(kernel, cpu, pid, code, argv);
    if r != -1 {
      FirstRun(kernel, cpu, sp, pid, base, code, argv);
    }
  }
}
