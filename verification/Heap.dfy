/** Heap regions handed out by `mmap` over a whole run. */
module Heap {
  import opened Words
  import opened Results
  import opened UpperTree
  import opened Alu
  import opened Cpu
  import opened Machine
  import opened Runs

  datatype Region = Region(base: Word, size: Word)

  /** The machine is about to serve an `mmap` request that leaves the address open. */
  ghost predicate AtMmap(m: Machine) {
    AtSyscall(m) && m.cpu.registers[2] == MMAP && m.cpu.registers[4] == 0
  }

  /** The regions returned along a run, each with the size that was asked for. */
  ghost function Regions(host: Host, m: Machine, n: nat): seq<Region>
    decreases n
  {
    if n == 0 || MachineStep(host, m).Err? then []
    else
      var m' := MachineStep(host, m).value;
      (if AtMmap(m) then [Region(m'.cpu.registers[2], m.cpu.registers[5])] else []) + Regions(host, m', n - 1)
  }

  /** A size rounded up to whole pages, without wrap-around. */
  function RoundUp(size: Word): nat { (size + 4095) / 4096 * 4096 }

  function TotalSize(regions: seq<Region>): nat {
    if regions == [] then 0 else RoundUp(regions[0].size) + TotalSize(regions[1..])
  }

  lemma RoundingExact(size: Word)
    ensures size <= RoundUp(size) && RoundUp(size) % 4096 == 0
    ensures RoundUp(size) < WORD_LIMIT ==> RoundToPage(size) == RoundUp(size)
  {
  }

  /** Only an open `mmap` moves the heap pointer, and it returns the old one. */
  lemma StepHeap(host: Host, m: Machine)
    requires MachineStep(host, m).Ok?
    ensures var m' := MachineStep(host, m).value;
      if AtMmap(m) then
        m'.cpu.registers[2] == m.cpu.heap && m'.cpu.heap == Add(m.cpu.heap, RoundToPage(m.cpu.registers[5]))
      else m'.cpu.heap == m.cpu.heap
  {
    hide Instruction, WriteOutput, Preimage, AccessedWord, ApplyStore, Access, Syscall, WordAt, RoundToPage, Add;
    if !m.cpu.exited {
      var c, insn := CountStep(m.cpu), Current(m);
      var counted := m.(cpu := c);
      var env := Env(AccessedWord(m.contents, Access(c, insn)), Preimage(host, counted),
                     Succeeded(WriteOutput(host, c, m.contents, m.streams)));
      if IsSyscall(insn) {
        SyscallInstruction(c, insn, env);
        SyscallHeap(c, env);
      } else {
        PlainInstruction(c, insn, env);
      }
    }
  }

  lemma SyscallHeap(c: Cpu, env: Env)
    requires Syscall(c, env).Ok?
    ensures var c' := Syscall(c, env).value.cpu;
      if c.registers[2] == MMAP && c.registers[4] == 0 then
        c'.registers[2] == c.heap && c'.heap == Add(c.heap, RoundToPage(c.registers[5]))
      else c'.heap == c.heap
  {
    hide Add, RoundToPage, ReadCall, WriteCall;
    ReadHeap(c, env);
    WriteHeap(c, env);
  }

  lemma ReadHeap(c: Cpu, env: Env)
    ensures ReadCall(c, env).Ok? ==> ReadCall(c, env).value.cpu.heap == c.heap
  {
    hide Add, PreimageReadCount, PreimageWord;
  }

  lemma WriteHeap(c: Cpu, env: Env)
    ensures WriteCall(c, env).Ok? ==> WriteCall(c, env).value.cpu.heap == c.heap
  {
    hide Add, KeyBytes, ShiftKey, KeyWriteCount;
  }

  /** Page-aligned regions laid out one after the other between `lo` and `hi`. */
  predicate LaidOut(regions: seq<Region>, lo: int, hi: int) {
    if regions == [] then lo <= hi
    else
      && regions[0].base % 4096 == 0 && regions[0].base == lo
      && LaidOut(regions[1..], lo + RoundUp(regions[0].size), hi)
  }

  /** Laid-out regions are disjoint and in range, each at least as large as requested. */
  lemma {:induction false} LaidOutApart(regions: seq<Region>, lo: int, hi: int, i: nat, j: nat)
    requires LaidOut(regions, lo, hi) && i < j < |regions|
    ensures lo <= regions[i].base && regions[i].base + regions[i].size <= regions[j].base
    ensures regions[j].base + regions[j].size <= hi
    ensures regions[i].base % 4096 == 0 && regions[j].base % 4096 == 0
    decreases regions
  {
    RoundingExact(regions[0].size);
    var lo' := lo + RoundUp(regions[0].size);
    if i > 0 {
      LaidOutApart(regions[1..], lo', hi, i - 1, j - 1);
    } else {
      LaidOutOne(regions[1..], lo', hi, j - 1);
    }
  }

  lemma {:induction false} LaidOutOne(regions: seq<Region>, lo: int, hi: int, j: nat)
    requires LaidOut(regions, lo, hi) && j < |regions|
    ensures lo <= regions[j].base && regions[j].base + regions[j].size <= hi && regions[j].base % 4096 == 0
    decreases regions
  {
    RoundingExact(regions[0].size);
    var lo' := lo + RoundUp(regions[0].size);
    if j > 0 {
      LaidOutOne(regions[1..], lo', hi, j - 1);
    } else {
      LaidOutBound(regions[1..], lo', hi);
    }
  }

  lemma {:induction false} LaidOutBound(regions: seq<Region>, lo: int, hi: int)
    requires LaidOut(regions, lo, hi)
    ensures lo <= hi
    decreases regions
  {
    if regions != [] {
      LaidOutBound(regions[1..], lo + RoundUp(regions[0].size), hi);
    }
  }

  /** Heap allocation over any run: starting page-aligned, and with the rounded requests fitting
      below the end of the address space, the returned regions are laid out back to back from
      the initial heap pointer and the pointer ends right behind them. */
  lemma {:induction false} HeapLaidOut(host: Host, m: Machine, n: nat)
    requires MachineRun(host, m, n).Ok? && m.cpu.heap % 4096 == 0
    requires m.cpu.heap + TotalSize(Regions(host, m, n)) < WORD_LIMIT
    ensures var regions := Regions(host, m, n);
      && LaidOut(regions, m.cpu.heap, m.cpu.heap + TotalSize(regions))
      && MachineRun(host, m, n).value.cpu.heap == m.cpu.heap + TotalSize(regions)
    decreases n
  {
    hide MachineStep, RoundUp, RoundToPage, AtMmap;
    if n > 0 {
      var m' := MachineStep(host, m).value;
      var regions, rest := Regions(host, m, n), Regions(host, m', n - 1);
      StepHeap(host, m);
      if AtMmap(m) {
        assert regions[0] == Region(m'.cpu.registers[2], m.cpu.registers[5]) && regions[1..] == rest;
        RoundingExact(m.cpu.registers[5]);
        AlignedSum(m.cpu.heap, RoundUp(m.cpu.registers[5]));
      } else {
        assert regions == rest;
      }
      HeapLaidOut(host, m', n - 1);
    }
  }

  lemma AlignedSum(a: Word, b: nat)
    requires a % 4096 == 0 && b % 4096 == 0 && a + b < WORD_LIMIT
    ensures Add(a, b) == a + b && (a + b) % 4096 == 0
  {
  }
}
