/** Preimage reads as a byte stream, and the preimage key as a shift register, over runs. */
module Streaming {
  import opened Words
  import opened Results
  import opened MerkleTree
  import opened UpperTree
  import opened Alu
  import opened Cpu
  import opened Machine
  import opened Runs

  ghost predicate AtFetch(m: Machine) { AtSyscall(m) && FetchesPreimage(m.cpu) }

  ghost predicate AtKeyWrite(m: Machine) { AtSyscall(m) && ShiftsKey(m.cpu) }

  /** Instructions other than preimage reads and key writes leave key and offset alone. */
  lemma OtherStepsKeepStream(host: Host, m: Machine)
    requires MachineStep(host, m).Ok? && !AtFetch(m) && !AtKeyWrite(m)
    ensures var m' := MachineStep(host, m).value;
      && m'.cpu.preimageKey == m.cpu.preimageKey && m'.cpu.preimageOffset == m.cpu.preimageOffset
      && m'.cacheKey == m.cacheKey && m'.cache == m.cache
  {
    hide Instruction, WriteOutput, Preimage, AccessedWord, ApplyStore, Access, Syscall, WordAt;
    if !m.cpu.exited {
      var c, insn := CountStep(m.cpu), Current(m);
      var counted := m.(cpu := c);
      var env := Env(AccessedWord(m.contents, Access(c, insn)), Preimage(host, counted),
                     Succeeded(WriteOutput(host, c, m.contents, m.streams)));
      if IsSyscall(insn) {
        SyscallInstruction(c, insn, env);
        SyscallKeepsStream(c, env);
      } else {
        PlainInstruction(c, insn, env);
      }
    }
  }

  lemma SyscallKeepsStream(c: Cpu, env: Env)
    requires Syscall(c, env).Ok? && !FetchesPreimage(c) && !ShiftsKey(c)
    ensures var c' := Syscall(c, env).value.cpu;
      c'.preimageKey == c.preimageKey && c'.preimageOffset == c.preimageOffset
  {
    hide Add, RoundToPage, PreimageRead, KeyWrite;
  }

  /** The syscall that a step serves, with the machine's own view of the outside. */
  lemma StepAtSyscall(host: Host, m: Machine)
    requires MachineStep(host, m).Ok? && AtSyscall(m)
    ensures var m' := MachineStep(host, m).value;
      var c, access := CountStep(m.cpu), SyscallAccess(m.cpu);
      var env := Env(AccessedWord(m.contents, access), Preimage(host, m.(cpu := c)),
                     Succeeded(WriteOutput(host, c, m.contents, m.streams)));
      && Syscall(c, env).Ok?
      && m'.cpu == Syscall(c, env).value.cpu
      && m'.contents == ApplyStore(m.contents, access, Syscall(c, env).value.store)
      && (FetchesPreimage(m.cpu) && env.preimage.Ok? ==> m'.cacheKey == m.cpu.preimageKey && m'.cache == env.preimage.value)
      && (!FetchesPreimage(m.cpu) ==> m'.cacheKey == m.cacheKey && m'.cache == m.cache)
  {
    hide Instruction, WriteOutput, Preimage, AccessedWord, ApplyStore, Syscall, WordAt;
    var c, insn := CountStep(m.cpu), Current(m);
    var env := Env(AccessedWord(m.contents, Access(c, insn)), Preimage(host, m.(cpu := c)),
                   Succeeded(WriteOutput(host, c, m.contents, m.streams)));
    SyscallInstruction(c, insn, env);
  }

  /** Storing the spliced word is splicing the bytes into memory. */
  lemma PieceIntoMemory(contents: Flat, blob: seq<Byte>, offset: Word, a: Word, n: Word)
    requires offset + n <= |blob| && a % 4 + n <= 4
    ensures a + n <= MEMORY_SIZE
    ensures WriteWord(contents, Aligned(a), PreimageWord(WordAt(contents, Aligned(a)), blob, offset, a, n))
      == Splice(contents, a, blob[offset..offset + n])
  {
    hide Splice, BytesOf, WordOf;
    var lo, at := Aligned(a), a % 4;
    WordLimits(a);
    var word, piece, tail := contents[lo..lo + 4], blob[offset..offset + n], contents[a + n..lo + 4];
    BytesRoundTrip(word);
    BytesRoundTrip(word[..at] + piece + word[at + n..]);
    SubSlice(contents, lo, 4, 0, at);
    SubSlice(contents, lo, 4, at + n, 4 - at - n);
    assert word[..at] == word[0..0 + at] && word[at + n..] == word[at + n..at + n + (4 - at - n)];
    Regroup(contents[lo..lo + at], piece, tail);
    SpliceBefore(contents, lo, at, piece + tail);
    SpliceBehind(contents, a, piece, lo + 4);
  }

  lemma Regroup(a: seq<Byte>, b: seq<Byte>, c: seq<Byte>)
    ensures a + (b + c) == a + b + c
  {
  }

  lemma WordLimits(a: Word)
    ensures Aligned(a) + a % 4 == a && Aligned(a) + 4 <= MEMORY_SIZE
  {
  }

  /** The machine reads the stream `blob` under its current key: the host answers this key
      with `blob` whatever it was told before, and a cached preimage of this key is `blob`. */
  ghost predicate ReadsStream(host: Host, m: Machine, blob: seq<Byte>) {
    && |blob| < WORD_LIMIT && m.cpu.preimageOffset <= |blob|
    && (m.cacheKey == m.cpu.preimageKey ==> m.cache == blob)
    && (forall hints :: host.get(hints, m.cpu.preimageKey).Some? ==>
          Prefixed(host.get(hints, m.cpu.preimageKey).value) == blob)
  }

  /** Bytes a preimage read delivers into memory: as many as it reports, at its address. */
  ghost function Delivered(m: Machine, m': Machine): seq<Byte> {
    var a, n := m.cpu.registers[5], m'.cpu.registers[2];
    if AtFetch(m) && a + n <= MEMORY_SIZE then m'.contents[a..a + n] else []
  }

  /** One preimage read delivers the next piece of the stream, as long as the request, the rest
      of the addressed word and the rest of the stream allow, at the requested address and
      nowhere else, and moves the offset past it; it reports zero bytes only at the end of the
      stream or when asked for none, and then changes nothing. */
  lemma FetchDelivers(host: Host, m: Machine, blob: seq<Byte>)
    requires MachineStep(host, m).Ok? && AtFetch(m) && ReadsStream(host, m, blob)
    ensures var m' := MachineStep(host, m).value;
      var a, n, offset := m.cpu.registers[5], m'.cpu.registers[2], m.cpu.preimageOffset;
      && ReadsStream(host, m', blob) && m'.cpu.preimageKey == m.cpu.preimageKey
      && a + n <= MEMORY_SIZE && offset + n <= |blob|
      && n == Min(Min(4 - a % 4, m.cpu.registers[6]), |blob| - offset)
      && m'.cpu.preimageOffset == offset + n
      && m'.contents == Splice(m.contents, a, blob[offset..offset + n])
      && Delivered(m, m') == blob[offset..offset + n]
      && (n == 0 <==> offset == |blob| || m.cpu.registers[6] == 0)
      && (n == 0 ==> m'.contents == m.contents)
  {
    hide MachineStep, WriteOutput, ApplyStore, WriteWord, WordAt, PreimageWord, PreimageReadCount, AtSyscall,
      Prefixed, Splice;
    StepAtSyscall(host, m);
    var m' := MachineStep(host, m).value;
    var a, offset := m.cpu.registers[5], m.cpu.preimageOffset;
    CountFacts(blob, offset, a, m.cpu.registers[6]);
    var n := PreimageReadCount(blob, offset, a, m.cpu.registers[6]);
    PieceIntoMemory(m.contents, blob, offset, a, n);
    StoreAt(m.contents, Aligned(a), PreimageWord(WordAt(m.contents, Aligned(a)), blob, offset, a, n));
    SpliceBack(m.contents, a, blob[offset..offset + n]);
  }

  lemma StoreAt(contents: Flat, a: Address, value: Word)
    ensures ApplyStore(contents, Some(a), Some(value)) == WriteWord(contents, a, value)
  {
  }

  lemma CountFacts(blob: seq<Byte>, offset: Word, a: Word, count: Word)
    requires offset <= |blob|
    ensures var n := PreimageReadCount(blob, offset, a, count);
      && a % 4 + n <= 4 && (n == 0 <==> offset == |blob| || count == 0)
      && n == Min(Min(4 - a % 4, count), |blob| - offset)
  {
  }

  lemma SpliceBack(contents: Flat, a: nat, bytes: seq<Byte>)
    requires a + |bytes| <= MEMORY_SIZE
    ensures Splice(contents, a, bytes)[a..a + |bytes|] == bytes
    ensures bytes == [] ==> Splice(contents, a, bytes) == contents
  {
  }

  /** Everything delivered along a run, in order. */
  ghost function DeliveredRun(host: Host, m: Machine, n: nat): seq<Byte>
    decreases n
  {
    if n == 0 || MachineStep(host, m).Err? then []
    else
      var m' := MachineStep(host, m).value;
      Delivered(m, m') + DeliveredRun(host, m', n - 1)
  }

  ghost predicate NoKeyWrites(host: Host, m: Machine, n: nat)
    decreases n
  {
    n > 0 && MachineStep(host, m).Ok? ==> !AtKeyWrite(m) && NoKeyWrites(host, MachineStep(host, m).value, n - 1)
  }

  /** Over any run without key writes, the reads deliver consecutive pieces of the stream:
      nothing is skipped or repeated, and the offset never passes the end. */
  lemma {:induction false} StreamDelivered(host: Host, m: Machine, n: nat, blob: seq<Byte>)
    requires MachineRun(host, m, n).Ok? && NoKeyWrites(host, m, n) && ReadsStream(host, m, blob)
    ensures var last := MachineRun(host, m, n).value;
      && ReadsStream(host, last, blob)
      && last.cpu.preimageKey == m.cpu.preimageKey
      && m.cpu.preimageOffset <= last.cpu.preimageOffset <= |blob|
      && DeliveredRun(host, m, n) == blob[m.cpu.preimageOffset..last.cpu.preimageOffset]
    decreases n
  {
    hide MachineStep, AtFetch, AtKeyWrite;
    if n > 0 {
      var m' := MachineStep(host, m).value;
      if AtFetch(m) {
        FetchDelivers(host, m, blob);
      } else {
        OtherStepsKeepStream(host, m);
      }
      StreamDelivered(host, m', n - 1, blob);
    }
  }

  /** The last 32 bytes of a string. */
  function Last32(s: seq<Byte>): Digest
    requires |s| >= 32
  {
    s[|s| - 32..]
  }

  /** Bytes a key write takes from memory: as many as it reports, at its address. */
  ghost function Accepted(m: Machine, m': Machine): seq<Byte> {
    var a, n := m.cpu.registers[5], m'.cpu.registers[2];
    if AtKeyWrite(m) && a + n <= MEMORY_SIZE then m.contents[a..a + n] else []
  }

  /** One key write shifts in the bytes at its address, as many as requested and left in the
      addressed word, and resets the offset. */
  lemma KeyWriteShifts(host: Host, m: Machine)
    requires MachineStep(host, m).Ok? && AtKeyWrite(m)
    ensures var m' := MachineStep(host, m).value;
      var n := m'.cpu.registers[2];
      && |Accepted(m, m')| == n && n == Min(4 - m.cpu.registers[5] % 4, m.cpu.registers[6])
      && m'.cpu.preimageKey == Last32(m.cpu.preimageKey + Accepted(m, m'))
      && m'.cpu.preimageOffset == 0 && m'.contents == m.contents
  {
    hide MachineStep, WriteOutput, ApplyStore, WriteWord, WordAt, AtSyscall, BytesOf, Preimage;
    StepAtSyscall(host, m);
    var a := m.cpu.registers[5];
    var n := KeyWriteCount(a, m.cpu.registers[6]);
    KeyBytesInMemory(m.contents, a, n);
    NoStore(m.contents, SyscallAccess(m.cpu));
    var bytes := KeyBytes(WordAt(m.contents, Aligned(a)), a, n);
    assert m.cpu.preimageKey[n..] + bytes == Last32(m.cpu.preimageKey + bytes);
  }

  lemma NoStore(contents: Flat, access: Option<Address>)
    ensures ApplyStore(contents, access, None) == contents
  {
  }

  lemma KeyBytesInMemory(contents: Flat, a: Word, n: Word)
    requires a % 4 + n <= 4
    ensures a + n <= MEMORY_SIZE && KeyBytes(WordAt(contents, Aligned(a)), a, n) == contents[a..a + n]
  {
    var lo := Aligned(a);
    hide BytesOf, WordOf;
    WordLimits(a);
    BytesRoundTrip(contents[lo..lo + 4]);
    SubSlice(contents, lo, 4, a % 4, n);
  }

  ghost function AcceptedRun(host: Host, m: Machine, n: nat): seq<Byte>
    decreases n
  {
    if n == 0 || MachineStep(host, m).Err? then []
    else
      var m' := MachineStep(host, m).value;
      Accepted(m, m') + AcceptedRun(host, m', n - 1)
  }

  /** The sum of the counts that the key writes of a run report. */
  ghost function ReportedRun(host: Host, m: Machine, n: nat): nat
    decreases n
  {
    if n == 0 || MachineStep(host, m).Err? then 0
    else
      var m' := MachineStep(host, m).value;
      (if AtKeyWrite(m) then m'.cpu.registers[2] else 0) + ReportedRun(host, m', n - 1)
  }

  /** Over any run the key is the last 32 bytes of the initial key and all accepted bytes. */
  lemma {:induction false} KeyIsShiftRegister(host: Host, m: Machine, n: nat)
    requires MachineRun(host, m, n).Ok?
    ensures MachineRun(host, m, n).value.cpu.preimageKey == Last32(m.cpu.preimageKey + AcceptedRun(host, m, n))
    ensures |AcceptedRun(host, m, n)| == ReportedRun(host, m, n)
    decreases n
  {
    hide MachineStep, AtKeyWrite, AtFetch;
    if n > 0 {
      var m' := MachineStep(host, m).value;
      KeyIsShiftRegister(host, m', n - 1);
      if AtKeyWrite(m) {
        KeyWriteShifts(host, m);
      } else {
        KeyKept(host, m);
      }
      LastOfLast(m.cpu.preimageKey, Accepted(m, m'), AcceptedRun(host, m', n - 1));
    } else {
      assert Last32(m.cpu.preimageKey + []) == m.cpu.preimageKey;
    }
  }

  lemma KeyKept(host: Host, m: Machine)
    requires MachineStep(host, m).Ok? && !AtKeyWrite(m)
    ensures var m' := MachineStep(host, m).value;
      m'.cpu.preimageKey == Last32(m.cpu.preimageKey + Accepted(m, m')) && Accepted(m, m') == []
  {
    hide MachineStep, WriteOutput, ApplyStore, WordAt, Preimage, AtSyscall;
    if AtFetch(m) {
      StepAtSyscall(host, m);
    } else {
      OtherStepsKeepStream(host, m);
    }
    assert Last32(m.cpu.preimageKey + []) == m.cpu.preimageKey;
  }

  lemma LastOfLast(key: Digest, x: seq<Byte>, y: seq<Byte>)
    ensures Last32(Last32(key + x) + y) == Last32(key + (x + y))
  {
    var all := key + (x + y);
    assert all == key + x + y;
  }
}
