/** System calls by their effect on the whole machine: what the program reads back in its two
    result registers, which stream or memory changes, and that nothing else does. */
module SyscallLaws {
  import opened Words
  import opened Results
  import opened MerkleTree
  import opened UpperTree
  import opened Alu
  import opened Cpu
  import opened Machine
  import opened Assembly
  import opened MemoryLaws
  import opened Streaming

  /** About to execute a system call. */
  ghost predicate AtCall(m: Machine) { exists rd: Reg :: AtR(m, 0x0C, rd) }

  /** The number of the call and the low byte of its descriptor argument. */
  function CallNumber(m: Machine): Word { m.cpu.registers[2] }
  function Descriptor(m: Machine): int { m.cpu.registers[4] % 0x100 }

  /** The two result registers are set and control moves on. */
  function Answer(c: Cpu, v0: Word, v1: Word): Cpu { Put(Put(Forward(c), 2, v0), 7, v1) }

  /** The step only answers. */
  ghost predicate Answers(host: Host, m: Machine, v0: Word, v1: Word) {
    MachineStep(host, m) == Ok(m.(cpu := Answer(m.cpu, v0, v1)))
  }

  /** The step of a system call, with the machine's own view of the outside. */
  lemma CallStep(host: Host, m: Machine)
    requires AtCall(m)
    ensures var counted := m.(cpu := CountStep(m.cpu));
      var access, preimage := SyscallAccess(m.cpu), Preimage(host, counted);
      var output := WriteOutput(host, counted.cpu, m.contents, m.streams);
      var r := Syscall(counted.cpu, Env(AccessedWord(m.contents, access), preimage, Succeeded(output)));
      MachineStep(host, m) ==
        if r.Err? then Err(r.error)
        else Ok(Settle(counted, r.value, access, FetchesPreimage(m.cpu), EmitsOutput(m.cpu), preimage, output))
  {
    hide RType, Syscall, Preimage, WriteOutput, AccessedWord, Settle, BigEndian, WordAt, Branch, Compute;
    var rd: Reg :| AtR(m, 0x0C, rd);
    var rs: Reg, rt: Reg, shamt: Reg :| At(m, RType(0, rs, rt, rd, shamt, 0x0C));
    var insn := RType(0, rs, rt, rd, shamt, 0x0C);
    RFields(0, rs, rt, rd, shamt, 0x0C);
    WordIsBigEndian(m.contents, m.cpu.pc);
    var counted := m.(cpu := CountStep(m.cpu));
    Runs.SyscallInstruction(counted.cpu, insn, Env(AccessedWord(m.contents, Access(counted.cpu, insn)),
      Preimage(host, counted), Succeeded(WriteOutput(host, counted.cpu, m.contents, m.streams))));
  }

  /** A call that only changes registers. */
  lemma QuietStep(host: Host, m: Machine, c: Cpu)
    requires AtCall(m) && !FetchesPreimage(m.cpu) && !EmitsOutput(m.cpu)
    requires forall env :: Syscall(CountStep(m.cpu), env) == Ok(Effect(c, None))
    ensures MachineStep(host, m) == Ok(m.(cpu := c))
  {
    hide Syscall, Preimage, WriteOutput, AccessedWord, AtCall;
    CallStep(host, m);
  }

  /** `brk` gives the fixed break, `clone` gives 1, `exit_group` ends the run with the low byte
      of its argument and does not move on, and unknown calls give 0. */
  lemma FixedCallLaw(host: Host, m: Machine)
    requires AtCall(m)
    ensures CallNumber(m) == 4045 ==> Answers(host, m, 0x4000_0000, 0)
    ensures CallNumber(m) == 4120 ==> Answers(host, m, 1, 0)
    ensures CallNumber(m) == 4246 ==> MachineStep(host, m) == Ok(m.(cpu := m.cpu.(
      step := (m.cpu.step + 1) % 0x1_0000_0000_0000_0000, exited := true, exitCode := m.cpu.registers[4] % 0x100)))
    ensures CallNumber(m) !in {4003, 4004, 4045, 4055, 4090, 4120, 4246} ==> Answers(host, m, 0, 0)
  {
    hide AtCall, MachineStep, Mmap, Fcntl, ReadCall, WriteCall;
    var c := CountStep(m.cpu);
    if CallNumber(m) == 4246 {
      QuietStep(host, m, c.(exited := true, exitCode := c.registers[4] % 256));
    } else if CallNumber(m) == 4045 {
      QuietStep(host, m, Return(c, 0x4000_0000, 0));
    } else if CallNumber(m) == 4120 {
      QuietStep(host, m, Return(c, 1, 0));
    } else if CallNumber(m) !in {4003, 4004, 4055, 4090} {
      QuietStep(host, m, Return(c, 0, 0));
    }
  }

  /** `mmap` at an address gives that address; without one it gives the heap pointer and moves
      it up by the size in whole pages. */
  lemma MmapLaw(host: Host, m: Machine)
    requires AtCall(m) && CallNumber(m) == 4090
    ensures var address, size: int, heap: int := m.cpu.registers[4], m.cpu.registers[5], m.cpu.heap;
      && (address != 0 ==> Answers(host, m, address, 0))
      && (address == 0 ==> MachineStep(host, m) == Ok(m.(cpu :=
           Answer(m.cpu.(heap := (heap + (size + 4095) / 4096 * 4096) % 0x1_0000_0000), heap, 0))))
  {
    hide AtCall, MachineStep, RoundToPage, Fcntl, ReadCall, WriteCall;
    var c := CountStep(m.cpu);
    WholePages(c.heap, c.registers[5]);
    QuietStep(host, m, Mmap(c));
  }

  lemma WholePages(heap: Word, size: Word)
    ensures Add(heap, RoundToPage(size)) == (heap + (size + 4095) / 4096 * 4096) % WORD_LIMIT
  {
    var q, r := size / 4096, size % 4096;
    assert size == 4096 * q + r;
    if r == 0 {
      DivModUnique(size + 4095, 4096, q, 4095);
    } else {
      DivModUnique(size + 4095, 4096, q + 1, r - 1);
    }
    var whole := (size + 4095) / 4096 * 4096;
    assert RoundToPage(size) == if whole < WORD_LIMIT then whole else 0;
  }

  /** `fcntl` knows one command, which says whether a descriptor is for reading or for writing. */
  lemma FcntlLaw(host: Host, m: Machine)
    requires AtCall(m) && CallNumber(m) == 4055
    ensures m.cpu.registers[5] != 3 ==> Answers(host, m, 0xFFFF_FFFF, 22)
    ensures m.cpu.registers[5] == 3 && Descriptor(m) in {0, 3, 5} ==> Answers(host, m, 0, 0)
    ensures m.cpu.registers[5] == 3 && Descriptor(m) in {1, 2, 4, 6} ==> Answers(host, m, 1, 0)
    ensures m.cpu.registers[5] == 3 && Descriptor(m) > 6 ==> Answers(host, m, 0xFFFF_FFFF, 9)
  {
    hide AtCall, MachineStep, Mmap, ReadCall, WriteCall;
    QuietStep(host, m, Fcntl(CountStep(m.cpu)));
  }

  /** Reads other than of preimages: the terminal gives nothing, the hint channel claims the
      whole request, and other descriptors are bad. */
  lemma PlainReadLaw(host: Host, m: Machine)
    requires AtCall(m) && CallNumber(m) == 4003
    ensures Descriptor(m) == 0 ==> Answers(host, m, 0, 0)
    ensures Descriptor(m) == 3 ==> Answers(host, m, m.cpu.registers[6], 0)
    ensures Descriptor(m) !in {0, 3, 5} ==> Answers(host, m, 0xFFFF_FFFF, 9)
  {
    hide AtCall, MachineStep, PreimageRead;
    var c := CountStep(m.cpu);
    if Descriptor(m) == 0 {
      QuietStep(host, m, Return(c, 0, 0));
    } else if Descriptor(m) == 3 {
      QuietStep(host, m, Return(c, c.registers[6], 0));
    } else if Descriptor(m) != 5 {
      QuietStep(host, m, Return(c, 0xFFFF_FFFF, 9));
    }
  }

  /** Bytes are those of a memory range, which wraps at the end of the address space. */
  ghost predicate CopiesRange(contents: Flat, a: Word, n: Word, bytes: seq<Byte>) {
    |bytes| == n && forall i | 0 <= i < n :: bytes[i] == contents[(a + i) % MEMORY_SIZE]
  }

  /** Writes to the two logs append exactly the requested range, claim all of it and change
      nothing else; a range that comes back to its first page panics. */
  lemma LogWriteLaw(host: Host, m: Machine, bytes: seq<Byte>)
    requires AtCall(m) && CallNumber(m) == 4004 && 1 <= Descriptor(m) <= 2
    requires CopiesRange(m.contents, m.cpu.registers[5], m.cpu.registers[6], bytes)
    ensures MachineStep(host, m) ==
      if ComesBack(m.cpu.registers[5], m.cpu.registers[6]) then Err(Panic)
      else Ok(m.(cpu := Answer(m.cpu, m.cpu.registers[6], 0), streams :=
        if Descriptor(m) == 1 then m.streams.(stdOut := m.streams.stdOut + bytes)
        else m.streams.(stdErr := m.streams.stdErr + bytes)))
  {
    hide AtCall, MachineStep, ReadRange, Preimage;
    CallStep(host, m);
    RangeCopied(m.contents, m.cpu.registers[5], m.cpu.registers[6], bytes);
  }

  /** The range wraps around the address space back into its first page. */
  predicate ComesBack(a: Word, n: Word) {
    var reach: int := a % 4096;
    reach + n >= 0x1_0000_0000
  }

  lemma RangeCopied(contents: Flat, a: Word, n: Word, bytes: seq<Byte>)
    requires CopiesRange(contents, a, n, bytes)
    ensures ReadRange(contents, a, n) == bytes
  {
  }

  /** A hint write appends exactly the requested range to the pending bytes, runs the hint loop
      on them and claims the whole range; it fails when the loop does. */
  lemma HintWriteLaw(host: Host, m: Machine, bytes: seq<Byte>)
    requires AtCall(m) && CallNumber(m) == 4004 && Descriptor(m) == 4
    requires CopiesRange(m.contents, m.cpu.registers[5], m.cpu.registers[6], bytes)
    ensures MachineStep(host, m) ==
      if ComesBack(m.cpu.registers[5], m.cpu.registers[6]) then Err(Panic)
      else match ProcessHints(host, m.streams.hints, m.streams.lastHint + bytes)
        case Err(e) => Err(e)
        case Ok((hints, rest)) => Ok(m.(cpu := Answer(m.cpu, m.cpu.registers[6], 0),
                                        streams := m.streams.(hints := hints, lastHint := rest)))
  {
    hide AtCall, MachineStep, ReadRange, Preimage, ProcessHints;
    CallStep(host, m);
    RangeCopied(m.contents, m.cpu.registers[5], m.cpu.registers[6], bytes);
  }

  /** Writes to descriptors that are not for writing are bad. */
  lemma BadWriteLaw(host: Host, m: Machine)
    requires AtCall(m) && CallNumber(m) == 4004 && Descriptor(m) !in {1, 2, 4, 6}
    ensures Answers(host, m, 0xFFFF_FFFF, 9)
  {
    hide AtCall, MachineStep, KeyWrite;
    QuietStep(host, m, Return(CountStep(m.cpu), 0xFFFF_FFFF, 9));
  }

  ghost predicate IsLeast(n: int, xs: set<int>) { n in xs && forall x <- xs :: n <= x }

  /** A key write takes as many bytes as are requested and left in the addressed word, reports
      that number, shifts them into the key and rewinds the preimage; nothing else changes. */
  lemma KeyWriteLaw(host: Host, m: Machine, n: Word)
    requires AtCall(m) && CallNumber(m) == 4004 && Descriptor(m) == 6
    requires IsLeast(n, {4 - m.cpu.registers[5] % 4, m.cpu.registers[6]})
    ensures m.cpu.registers[5] + n <= MEMORY_SIZE
    ensures MachineStep(host, m) == Ok(m.(cpu := Answer(m.cpu.(preimageOffset := 0,
      preimageKey := Last32(m.cpu.preimageKey + m.contents[m.cpu.registers[5]..m.cpu.registers[5] + n])), n, 0)))
  {
    hide AtCall, MachineStep, Preimage, WriteOutput, WordAt, BytesOf;
    var a := m.cpu.registers[5];
    assert n == KeyWriteCount(a, m.cpu.registers[6]);
    KeyBytesInMemory(m.contents, a, n);
    var bytes := m.contents[a..a + n];
    CallStep(host, m);
    assert m.cpu.preimageKey[n..] + bytes == Last32(m.cpu.preimageKey + bytes);
  }

  /** The preimage that a machine reads: the cached one when it is of the current key, otherwise
      the host's, after its length as eight bytes. */
  ghost predicate Reads(host: Host, m: Machine, blob: seq<Byte>) {
    if m.cacheKey == m.cpu.preimageKey then blob == m.cache
    else
      && host.get(m.streams.hints, m.cpu.preimageKey).Some?
      && var data := host.get(m.streams.hints, m.cpu.preimageKey).value;
         blob == LongBytesOf(|data|) + data
  }

  /** A preimage read fails when the host has no preimage, and panics when the offset is past
      the end. */
  lemma PreimageReadFails(host: Host, m: Machine)
    requires AtCall(m) && CallNumber(m) == 4003 && Descriptor(m) == 5
    ensures m.cacheKey != m.cpu.preimageKey && host.get(m.streams.hints, m.cpu.preimageKey).None? ==>
      MachineStep(host, m) == Err(OracleFailure)
    ensures forall blob :: Reads(host, m, blob) && m.cpu.preimageOffset > |blob| ==> MachineStep(host, m) == Err(Panic)
  {
    hide AtCall, MachineStep, WriteOutput, AccessedWord, LongBytesOf;
    CallStep(host, m);
  }

  /** Otherwise it takes as many bytes as are requested, left in the addressed word and left of
      the preimage, reports that number and moves the offset by it; those bytes of memory are
      replaced, the preimage is kept for the next read, and nothing else changes. */
  lemma PreimageReadLaw(host: Host, m: Machine, blob: seq<Byte>, n: Word)
    requires AtCall(m) && CallNumber(m) == 4003 && Descriptor(m) == 5
    requires Reads(host, m, blob) && m.cpu.preimageOffset <= |blob|
    requires IsLeast(n, {4 - m.cpu.registers[5] % 4, m.cpu.registers[6], |blob| - m.cpu.preimageOffset})
    ensures MachineStep(host, m).Ok?
    ensures var m' := MachineStep(host, m).value;
      && m' == Machine(Answer(m.cpu.(preimageOffset := (m.cpu.preimageOffset + n) % 0x1_0000_0000), n, 0), m'.contents,
                       m.streams, m.cpu.preimageKey, blob)
      && Replaces(m.contents, m'.contents, m.cpu.registers[5], blob[m.cpu.preimageOffset..m.cpu.preimageOffset + n])
  {
    hide AtCall, MachineStep, WriteOutput, WordAt, WriteWord, BytesOf, PreimageWord, PreimageReadCount, WriteCall, LocalCall,
      Splice, Replaces, LongBytesOf, Aligned, IsLeast;
    var a, offset := m.cpu.registers[5], m.cpu.preimageOffset;
    LeastCount(blob, offset, a, m.cpu.registers[6], n);
    CallStep(host, m);
    PieceIntoMemory(m.contents, blob, offset, a, n);
    SpliceReplaces(m.contents, a, blob[offset..offset + n]);
    StoreAt(m.contents, Aligned(a), PreimageWord(WordAt(m.contents, Aligned(a)), blob, offset, a, n));
  }

  lemma LeastCount(blob: seq<Byte>, offset: Word, a: Word, count: Word, n: Word)
    requires offset <= |blob| && IsLeast(n, {4 - a % 4, count, |blob| - offset})
    ensures n == PreimageReadCount(blob, offset, a, count)
  {
    assert count in {4 - a % 4, count, |blob| - offset} && 4 - a % 4 in {4 - a % 4, count, |blob| - offset};
  }
}
