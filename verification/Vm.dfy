/** The instrumented machine: the emulator state with its host, output logs, preimage cache
    and proof buffers, executing one instruction at a time in place. */
module Vm {
  import opened Words
  import opened Results
  import opened MerkleTree
  import opened UpperTree
  import opened MemoryProofs
  import opened PagedMemory
  import opened Alu
  import opened Cpu
  import opened Witness
  import opened Machine
  import opened Replay
  import opened MemoryReaders
  import opened Instrumented

  class InstrumentedState {
    const state: State
    const host: Host
    var stdOut: seq<Byte>
    var stdErr: seq<Byte>
    var hints: seq<seq<Byte>>
    var lastMemAccess: Word
    var memProofEnabled: bool
    var memProof: seq<Byte>
    var lastPreimage: seq<Byte>
    var lastPreimageKey: Digest
    var lastPreimageOffset: Word

    ghost predicate Valid()
      reads this, state, state.registers, state.memory, state.memory.Repr
    {
      state.Valid() && this !in state.memory.Repr && |memProof| == 896
    }

    /** The machine as a value, without the proof bookkeeping. */
    ghost function Abs(): Machine
      requires state.registers.Length == 32
      reads this, state, state.registers, state.memory
    {
      Machine(state.Snapshot(), state.memory.contents, Streams(stdOut, stdErr, state.lastHint, hints),
              lastPreimageKey, lastPreimage)
    }

    constructor (state: State, host: Host)
      requires state.Valid()
      ensures Valid() && this.state == state && this.host == host
      ensures Abs() == Machine(state.Snapshot(), state.memory.contents, Streams([], [], state.lastHint, []), ZERO_LEAF, [])
    {
      this.state := state;
      this.host := host;
      stdOut, stdErr, hints := [], [], [];
      lastMemAccess, memProofEnabled, memProof := 0, false, Zeros(896);
      lastPreimage, lastPreimageKey, lastPreimageOffset := [], ZERO_LEAF, 0;
    }

    method HandleRd(storeReg: Word, val: Word, conditional: bool) returns (r: Result<()>)
      requires Valid()
      modifies state`pc, state`nextPc, state.registers
      ensures Valid()
      ensures var spec := WriteBack(old(state.Snapshot()), storeReg, val, conditional);
        SameOutcome(r, spec) && (r.Ok? ==> state.Snapshot() == spec.value)
    {
      hide NodesCorrect, Memory.PagesMatch, Memory.PagesApart, Memory.SlotsMatch;
      if storeReg >= 32 {
        return Err(InvalidRegister);
      }
      if storeReg != 0 && conditional {
        state.registers[storeReg] := val;
      }
      state.pc := state.nextPc;
      state.nextPc := Add(state.nextPc, 4);
      r := Ok(());
    }

    method HandleJump(linkReg: Word, dest: Word) returns (r: Result<()>)
      requires Valid() && linkReg < 32
      modifies state`pc, state`nextPc, state.registers
      ensures Valid()
      ensures var spec := Jump(old(state.Snapshot()), linkReg, dest);
        SameOutcome(r, spec) && (r.Ok? ==> state.Snapshot() == spec.value)
    {
      hide NodesCorrect, Memory.PagesMatch, Memory.PagesApart, Memory.SlotsMatch;
      if state.nextPc != Add(state.pc, 4) {
        return Err(JumpInDelaySlot);
      }
      var prevPc := state.pc;
      state.pc := state.nextPc;
      state.nextPc := dest;
      if linkReg != 0 {
        state.registers[linkReg] := Add(prevPc, 8);
      }
      r := Ok(());
    }

    method HandleBranch(opcode: Word, insn: Word, rtReg: Word, rs: Word) returns (r: Result<()>)
      requires Valid() && rtReg < 32
      modifies state`pc, state`nextPc
      ensures Valid()
      ensures var spec := Branch(old(state.Snapshot()), opcode, insn, rtReg, rs);
        SameOutcome(r, spec) && (r.Ok? ==> state.Snapshot() == spec.value)
    {
      hide NodesCorrect, Memory.PagesMatch, Memory.PagesApart, Memory.SlotsMatch, SignExtend, Shl, RtField;
      if state.nextPc != Add(state.pc, 4) {
        return Err(BranchInDelaySlot);
      }
      var shouldBranch := false;
      if opcode == 4 || opcode == 5 {
        var rt := state.registers[rtReg];
        shouldBranch := (rs == rt && opcode == 4) || (rs != rt && opcode == 5);
      } else if opcode == 6 {
        shouldBranch := Signed(rs) <= 0;
      } else if opcode == 7 {
        shouldBranch := Signed(rs) > 0;
      } else if opcode == 1 {
        var rtv := RtField(insn);
        if rtv == 0 {
          shouldBranch := Signed(rs) < 0;
        } else if rtv == 1 {
          shouldBranch := Signed(rs) >= 0;
        }
      }
      var prevPc := state.pc;
      state.pc := state.nextPc;
      if shouldBranch {
        state.nextPc := Add(Add(prevPc, 4), Shl(SignExtend(ImmField(insn), 16), 2));
      } else {
        state.nextPc := Add(state.nextPc, 4);
      }
      r := Ok(());
    }

    method HandleHiLo(fun: Word, rs: Word, rt: Word, storeReg: Word) returns (r: Result<()>)
      requires Valid() && storeReg < 32
      modifies state`pc, state`nextPc, state`hi, state`lo, state.registers
      ensures Valid()
      ensures var spec := HiLo(old(state.Snapshot()), fun, rs, rt, storeReg);
        SameOutcome(r, spec) && (r.Ok? ==> state.Snapshot() == spec.value)
    {
      hide NodesCorrect, Memory.PagesMatch, Memory.PagesApart, Memory.SlotsMatch, TruncDiv, TruncRem, Signed, Widen,
        Unsigned;
      var val: Word := 0;
      match fun {
        case 0x10 => val := state.hi;
        case 0x11 => state.hi := rs;
        case 0x12 => val := state.lo;
        case 0x13 => state.lo := rs;
        case 0x18 =>
          var acc: Long := Widen(rs) * Widen(rt) % LONG_LIMIT;
          state.hi, state.lo := acc / WORD_LIMIT, acc % WORD_LIMIT;
        case 0x19 =>
          var acc: Long := rs * rt % LONG_LIMIT;
          state.hi, state.lo := acc / WORD_LIMIT, acc % WORD_LIMIT;
        case 0x1A =>
          if rt == 0 || (Signed(rs) == -0x8000_0000 && Signed(rt) == -1) {
            return Err(Panic);
          }
          SignedZero(rt);
          state.hi := Unsigned(TruncRem(Signed(rs), Signed(rt)));
          state.lo := Unsigned(TruncDiv(Signed(rs), Signed(rt)));
        case 0x1B =>
          if rt == 0 {
            return Err(Panic);
          }
          state.hi, state.lo := rs % rt, rs / rt;
        case _ =>
      }
      if storeReg != 0 {
        state.registers[storeReg] := val;
      }
      state.pc := state.nextPc;
      state.nextPc := Add(state.nextPc, 4);
      r := Ok(());
    }

    /** The step may access the address: proofs are off, or it is the first or the same one. */
    ghost predicate Trackable(address: Word)
      reads this
    {
      !memProofEnabled || lastMemAccess == address || lastMemAccess == NO_ACCESS
    }

    /** Records the proof of an address, at most one per step. */
    method TrackMemAccess(effectiveAddress: Word) returns (r: Result<()>)
      requires Valid()
      modifies `lastMemAccess, `memProof, state.memory`nodes, state.memory.Repr - {state.memory}
      ensures Valid()
      ensures r == if old(Trackable(effectiveAddress)) then Ok(()) else Err(DifferentMemoryAccess)
      ensures memProofEnabled && old(lastMemAccess) == NO_ACCESS && effectiveAddress != NO_ACCESS ==>
        lastMemAccess == effectiveAddress && memProof == Flatten(MemoryProof(state.memory.contents, effectiveAddress))
      ensures !memProofEnabled || old(lastMemAccess) == effectiveAddress || r.Err? ==>
        lastMemAccess == old(lastMemAccess) && memProof == old(memProof)
    {
      hide NodesCorrect, Memory.PagesMatch, Memory.PagesApart, Memory.SlotsMatch, MemoryProof, Flatten;
      if memProofEnabled && lastMemAccess != effectiveAddress {
        if lastMemAccess != NO_ACCESS {
          return Err(DifferentMemoryAccess);
        }
        lastMemAccess := effectiveAddress;
        ProofLength(state.memory.contents, effectiveAddress);
        var proof := state.memory.MerkleProof(effectiveAddress);
        memProof := proof.value;
      }
      r := Ok(());
    }

    /** Tracks an address and reads the word there. */
    method LoadWord(address: Address) returns (r: Result<Word>)
      requires Valid()
      modifies `lastMemAccess, `memProof, state.memory`nodes, state.memory`lastPage, state.memory.Repr - {state.memory}
      ensures Valid()
      ensures r == if old(Trackable(address)) then Ok(WordAt(state.memory.contents, address))
                   else Err(DifferentMemoryAccess)
      ensures memProofEnabled && old(lastMemAccess) == NO_ACCESS ==>
        lastMemAccess == address && memProof == Flatten(MemoryProof(state.memory.contents, address))
      ensures !memProofEnabled ==> lastMemAccess == old(lastMemAccess)
    {
      hide NodesCorrect, Memory.PagesMatch, Memory.PagesApart, Memory.SlotsMatch, WordAt, Flatten, MemoryProof;
      var _ :- TrackMemAccess(address);
      r := state.memory.GetMemory(address);
    }

    /** The preimage bytes at an offset, at most 32; the last preimage is kept. */
    method ReadPreimage(key: Digest, offset: Word) returns (r: Result<seq<Byte>>)
      requires Valid() && key == state.preimageKey
      modifies `lastPreimage, `lastPreimageKey, `lastPreimageOffset
      ensures Valid()
      ensures var spec := Preimage(host, old(Abs()));
        if spec.Err? then r == Err(spec.error) && Abs() == old(Abs())
        else
          && Abs() == old(Abs()).(cacheKey := key, cache := spec.value)
          && lastPreimageOffset == offset
          && r == if offset > |spec.value| then Err(Panic)
                  else Ok(spec.value[offset..Min(offset + 32, |spec.value|)])
    {
      hide NodesCorrect, Memory.PagesMatch, Memory.PagesApart, Memory.SlotsMatch, LongBytesOf;
      if key != lastPreimageKey {
        var data := host.get(hints, key);
        if data.None? {
          return Err(OracleFailure);
        }
        lastPreimageKey := key;
        lastPreimage := LongBytesOf(|data.value|) + data.value;
      }
      lastPreimageOffset := offset;
      if offset > |lastPreimage| {
        return Err(Panic);
      }
      r := Ok(lastPreimage[offset..Min(offset + 32, |lastPreimage|)]);
    }

    /** First half of a preimage read: the word to store and the number of bytes it delivers. */
    method NextPreimageWord() returns (r: Result<(Word, Word)>)
      requires Valid()
      modifies `lastMemAccess, `memProof, `lastPreimage, `lastPreimageKey, `lastPreimageOffset,
        state.memory`nodes, state.memory`lastPage, state.memory.Repr - {state.memory}
      ensures Valid()
      ensures old(lastMemAccess) == NO_ACCESS ==>
        var m := old(Abs());
        var a1, a2, offset := m.cpu.registers[5], m.cpu.registers[6], m.cpu.preimageOffset;
        var preimage := Preimage(host, m);
        && (r.Ok? <==> preimage.Ok? && offset <= |preimage.value|)
        && (r.Err? ==> r.error == if preimage.Err? then preimage.error else Panic)
        && (r.Ok? ==>
          && r.value.1 == PreimageReadCount(preimage.value, offset, a1, a2)
          && r.value.0 == PreimageWord(WordAt(m.contents, Aligned(a1)), preimage.value, offset, a1, r.value.1)
          && Abs() == m.(cacheKey := m.cpu.preimageKey, cache := preimage.value)
          && lastPreimageOffset == offset
          && (memProofEnabled ==> memProof == Flatten(MemoryProof(m.contents, Aligned(a1)))))
    {
      hide NodesCorrect, Memory.PagesMatch, Memory.PagesApart, Memory.SlotsMatch, Preimage, Flatten, MemoryProof,
        WordAt, BytesOf, WordOf, PreimageReadCount, PreimageWord, TreeRoot;
      var a1, a2 := state.registers[5], state.registers[6];
      var effectiveAddress := Aligned(a1);
      var memory :- LoadWord(effectiveAddress);
      var data :- ReadPreimage(state.preimageKey, state.preimageOffset);
      var alignment := a1 % 4;
      var dataLen := |data|;
      if 4 - alignment < dataLen {
        dataLen := 4 - alignment;
      }
      if a2 < dataLen {
        dataLen := a2;
      }
      var bytes := BytesOf(memory);
      var outMem := bytes[..alignment] + data[..dataLen] + bytes[alignment + dataLen..];
      PreimagePiece(memory, lastPreimage, state.preimageOffset, a1, a2, data, dataLen);
      r := Ok((WordOf(outMem), dataLen));
    }

    /** The preimage-read syscall; the result is the number of bytes delivered. */
    method SyscallReadPreimage() returns (r: Result<Word>)
      requires Valid()
      modifies this, state`preimageOffset, state.memory, state.memory.Repr
      ensures Valid() && fresh(state.memory.Repr - old(state.memory.Repr))
      ensures r.Err? ==> state.memory.contents == old(state.memory.contents)
      ensures old(lastMemAccess) == NO_ACCESS ==>
        var m := old(Abs());
        var access: Option<Address> := Some(Aligned(m.cpu.registers[5]));
        var preimage := Preimage(host, m);
        var spec := PreimageRead(m.cpu, AccessedWord(m.contents, access), preimage);
        && SameOutcome(r, spec)
        && (r.Ok? ==>
          && spec.value.cpu == Return(state.Snapshot(), r.value, 0)
          && Abs() == Settle(m, Effect(state.Snapshot(), spec.value.store), access, true, false, preimage, Err(Panic))
          && lastPreimageOffset == m.cpu.preimageOffset
          && (memProofEnabled ==> memProof == RecordedProof(m.contents, access, [])))
      ensures memProofEnabled == old(memProofEnabled)
    {
      hide NodesCorrect, Memory.PagesMatch, Memory.PagesApart, Memory.SlotsMatch, Preimage, Flatten, MemoryProof,
        WordAt, WriteWord, PreimageReadCount, PreimageWord;
      var piece :- NextPreimageWord();
      var (value, n) := piece;
      var stored := state.memory.SetMemory(Aligned(state.registers[5]), value);
      assert stored.Ok?;
      state.preimageOffset := Add(state.preimageOffset, n);
      r := Ok(n);
    }

    /** The preimage-key write syscall; the result is the number of bytes accepted. */
    method SyscallWriteKey() returns (r: Result<Word>)
      requires Valid()
      modifies `lastMemAccess, `memProof, state`preimageKey, state`preimageOffset,
        state.memory`nodes, state.memory`lastPage, state.memory.Repr - {state.memory}
      ensures Valid()
      ensures old(lastMemAccess) == NO_ACCESS ==>
        var m := old(Abs());
        var access: Option<Address> := Some(Aligned(m.cpu.registers[5]));
        var spec := KeyWrite(m.cpu, AccessedWord(m.contents, access));
        && r.Ok? && spec.cpu == Return(state.Snapshot(), r.value, 0)
        && Abs() == m.(cpu := state.Snapshot())
        && (memProofEnabled ==> memProof == RecordedProof(m.contents, access, []))
    {
      hide NodesCorrect, Memory.PagesMatch, Memory.PagesApart, Memory.SlotsMatch, Flatten, MemoryProof, WordAt,
        BytesOf, TreeRoot, ShiftKey, KeyBytes, KeyWriteCount, Return;
      var a1, a2 := state.registers[5], state.registers[6];
      var effectiveAddress := Aligned(a1);
      var memory :- LoadWord(effectiveAddress);
      var alignment := a1 % 4;
      var space := 4 - alignment;
      if space < a2 {
        a2 := space;
      }
      KeyPiece(state.preimageKey, memory, a1, state.registers[6], a2);
      var bytes := BytesOf(memory);
      state.preimageKey := state.preimageKey[a2..] + bytes[alignment..alignment + a2];
      state.preimageOffset := 0;
      r := Ok(a2);
    }

    /** Takes hints off the front of the pending bytes. */
    method DeliverHints() returns (r: Result<()>)
      requires Valid()
      modifies `hints, state`lastHint
      ensures Valid()
      ensures var spec := ProcessHints(host, old(hints), old(state.lastHint));
        && SameOutcome(r, spec)
        && (r.Ok? ==> spec.value == (hints, state.lastHint))
    {
      hide NodesCorrect, Memory.PagesMatch, Memory.PagesApart, Memory.SlotsMatch;
      while |state.lastHint| >= 4
        invariant Valid()
        invariant ProcessHints(host, hints, state.lastHint) == ProcessHints(host, old(hints), old(state.lastHint))
        decreases |state.lastHint|
      {
        var hintLen: int := WordOf(state.lastHint[..4]);
        if hintLen < Sub(|state.lastHint| % WORD_LIMIT, 4) {
          break;
        }
        if 4 + hintLen > |state.lastHint| {
          return Err(Panic);
        }
        var hint := state.lastHint[4..4 + hintLen];
        if !host.hint(hints, hint) {
          return Err(HintFailure);
        }
        hints := hints + [hint];
        state.lastHint := state.lastHint[4 + hintLen..];
      }
      r := Ok(());
    }

    /** Writes to stdout, stderr or the hint channel. */
    method SyscallWriteOutput(fd: Word) returns (r: Result<()>)
      requires Valid() && fd == state.registers[4] % 256 && (fd == 1 || fd == 2 || fd == 4)
      modifies `stdOut, `stdErr, `hints, state`lastHint, state.memory`lastPage
      ensures Valid()
      ensures var m := old(Abs());
        var spec := WriteOutput(host, m.cpu, m.contents, m.streams);
        && SameOutcome(r, spec)
        && (r.Ok? ==> Abs() == m.(streams := spec.value))
    {
      hide NodesCorrect, Memory.PagesMatch, Memory.PagesApart, Memory.SlotsMatch, RangeBytes, ProcessHints;
      var reader := new MemoryReader(state.memory, state.registers[5], state.registers[6]);
      var bytes :- reader.Drain();
      if fd == 1 {
        stdOut := stdOut + bytes;
        r := Ok(());
      } else if fd == 2 {
        stdErr := stdErr + bytes;
        r := Ok(());
      } else {
        state.lastHint := state.lastHint + bytes;
        r := DeliverHints();
      }
    }

    /** Results of a syscall go to `v0` and the error register. */
    method ReturnFrom(v0: Word, v1: Word)
      requires Valid()
      modifies state`pc, state`nextPc, state.registers
      ensures Valid()
      ensures Abs() == old(Abs()).(cpu := Return(old(Abs()).cpu, v0, v1))
    {
      hide NodesCorrect, Memory.PagesMatch, Memory.PagesApart, Memory.SlotsMatch;
      state.registers[2] := v0;
      state.registers[7] := v1;
      state.pc := state.nextPc;
      state.nextPc := Add(state.nextPc, 4);
    }

    /** The read syscall, by file descriptor. */
    method SyscallRead() returns (r: Result<(Word, Word)>)
      requires Valid() && state.registers[2] == READ
      modifies this, state`preimageOffset, state.memory, state.memory.Repr
      ensures Valid() && fresh(state.memory.Repr - old(state.memory.Repr))
      ensures r.Err? ==> state.memory.contents == old(state.memory.contents)
      ensures old(lastMemAccess) == NO_ACCESS ==>
        var m := old(Abs());
        var access := SyscallAccess(m.cpu);
        var preimage := Preimage(host, m);
        var spec := ReadCall(m.cpu, Env(AccessedWord(m.contents, access), preimage, Ok(())));
        && SameOutcome(r, spec)
        && (r.Ok? ==>
          && spec.value.cpu == Return(state.Snapshot(), r.value.0, r.value.1)
          && Abs() == Settle(m, Effect(state.Snapshot(), spec.value.store), access, FetchesPreimage(m.cpu), false, preimage, Err(Panic))
          && lastPreimageOffset == (if FetchesPreimage(m.cpu) then m.cpu.preimageOffset else old(lastPreimageOffset))
          && (memProofEnabled ==> memProof == RecordedProof(m.contents, access, old(memProof))))
      ensures memProofEnabled == old(memProofEnabled)
    {
      hide NodesCorrect, Memory.PagesMatch, Memory.PagesApart, Memory.SlotsMatch, Preimage, Flatten, MemoryProof,
        WordAt, WriteWord, PreimageRead, Return;
      var fd := state.registers[4] % 256;
      if fd == 5 {
        var n :- SyscallReadPreimage();
        r := Ok((n, 0));
      } else if fd == 0 {
        r := Ok((0, 0));
      } else if fd == 3 {
        r := Ok((state.registers[6], 0));
      } else {
        r := Ok((0xFFFF_FFFF, EBADF));
      }
    }

    /** The write syscall, by file descriptor. */
    method SyscallWrite() returns (r: Result<(Word, Word)>)
      requires Valid() && state.registers[2] == WRITE
      modifies `lastMemAccess, `memProof, `stdOut, `stdErr, `hints, state`preimageKey, state`preimageOffset, state`lastHint,
        state.memory`nodes, state.memory`lastPage, state.memory.Repr - {state.memory}
      ensures Valid()
      ensures old(lastMemAccess) == NO_ACCESS ==>
        var m := old(Abs());
        var access := SyscallAccess(m.cpu);
        var output := WriteOutput(host, m.cpu, m.contents, m.streams);
        var spec := WriteCall(m.cpu, Env(AccessedWord(m.contents, access), Err(Panic), Succeeded(output)));
        && SameOutcome(r, spec)
        && (r.Ok? ==>
          && spec.value.cpu == Return(state.Snapshot(), r.value.0, r.value.1)
          && Abs() == Settle(m, Effect(state.Snapshot(), spec.value.store), access, false, EmitsOutput(m.cpu), Err(Panic), output)
          && (memProofEnabled ==> memProof == RecordedProof(m.contents, access, old(memProof))))
    {
      hide NodesCorrect, Memory.PagesMatch, Memory.PagesApart, Memory.SlotsMatch, WriteOutput, Flatten, MemoryProof,
        WordAt, WriteWord, ShiftKey, KeyBytes, KeyWriteCount, Return;
      var fd := state.registers[4] % 256;
      if fd == 1 || fd == 2 || fd == 4 {
        var _ :- SyscallWriteOutput(fd);
        r := Ok((state.registers[6], 0));
      } else if fd == 6 {
        var n :- SyscallWriteKey();
        r := Ok((n, 0));
      } else {
        r := Ok((0xFFFF_FFFF, EBADF));
      }
    }

    /** Hands out page-rounded regions from the heap pointer upwards. */
    method SyscallMmap() returns (v0: Word)
      requires Valid()
      modifies state`heap
      ensures Valid()
      ensures Mmap(old(Abs()).cpu) == Return(state.Snapshot(), v0, 0)
      ensures Abs() == old(Abs()).(cpu := state.Snapshot())
    {
      hide NodesCorrect, Memory.PagesMatch, Memory.PagesApart, Memory.SlotsMatch;
      var a0, sz := state.registers[4], state.registers[5];
      var maskedSize := sz % 4096;
      if maskedSize != 0 {
        sz := Add(sz, 4096 - maskedSize);
      }
      if a0 == 0 {
        v0 := state.heap;
        state.heap := Add(state.heap, sz);
      } else {
        v0 := a0;
      }
    }

    method SyscallFcntl() returns (v0: Word, v1: Word)
      requires Valid()
      ensures Fcntl(Abs().cpu) == Return(Abs().cpu, v0, v1)
    {
      hide NodesCorrect, Memory.PagesMatch, Memory.PagesApart, Memory.SlotsMatch, Return;
      var fd := state.registers[4] % 256;
      v0, v1 := 0, 0;
      if state.registers[5] != 3 {
        v0, v1 := 0xFFFF_FFFF, EINVAL;
      } else if fd == 0 || fd == 5 || fd == 3 {
        v0 := 0;
      } else if fd == 1 || fd == 2 || fd == 6 || fd == 4 {
        v0 := 1;
      } else {
        v0, v1 := 0xFFFF_FFFF, EBADF;
      }
    }

    /** The calls that involve neither memory nor the outside, and all unknown ones. */
    method SyscallLocal() returns (v0: Word, v1: Word)
      requires Valid()
      modifies state`heap
      ensures Valid()
      ensures LocalCall(old(Abs()).cpu) == Return(state.Snapshot(), v0, v1)
      ensures Abs() == old(Abs()).(cpu := state.Snapshot())
    {
      hide NodesCorrect, Memory.PagesMatch, Memory.PagesApart, Memory.SlotsMatch, Return, Mmap, Fcntl;
      v0, v1 := 0, 0;
      match state.registers[2] {
        case 4090 => v0 := SyscallMmap();
        case 4045 => v0 := 0x4000_0000;
        case 4120 => v0 := 1;
        case 4055 => v0, v1 := SyscallFcntl();
        case _ =>
      }
    }

    method HandleSyscall() returns (r: Result<()>)
      requires Valid()
      modifies this, state, state.registers, state.memory, state.memory.Repr
      ensures Valid() && fresh(state.memory.Repr - old(state.memory.Repr))
      ensures r.Err? ==> state.memory.contents == old(state.memory.contents)
      ensures old(lastMemAccess) == NO_ACCESS ==>
        var m := old(Abs());
        var access := SyscallAccess(m.cpu);
        var preimage := Preimage(host, m);
        var output := WriteOutput(host, m.cpu, m.contents, m.streams);
        var spec := Syscall(m.cpu, Env(AccessedWord(m.contents, access), preimage, Succeeded(output)));
        && SameOutcome(r, spec)
        && (r.Ok? ==>
          && Abs() == Settle(m, spec.value, access, FetchesPreimage(m.cpu), EmitsOutput(m.cpu), preimage, output)
          && lastPreimageOffset == (if FetchesPreimage(m.cpu) then m.cpu.preimageOffset else old(lastPreimageOffset))
          && (memProofEnabled ==> memProof == RecordedProof(m.contents, access, old(memProof))))
      ensures memProofEnabled == old(memProofEnabled)
    {
      hide NodesCorrect, Memory.PagesMatch, Memory.PagesApart, Memory.SlotsMatch, Preimage, WriteOutput, Flatten,
        MemoryProof, WordAt, WriteWord, PreimageRead, KeyWrite, Return, LocalCall, AccessedWord;
      var v0: Word, v1: Word := 0, 0;
      match state.registers[2] {
        case 4246 =>
          state.exited := true;
          state.exitCode := state.registers[4] % 256;
          return Ok(());
        case 4003 =>
          var result :- SyscallRead();
          v0, v1 := result.0, result.1;
        case 4004 =>
          var result :- SyscallWrite();
          v0, v1 := result.0, result.1;
        case _ => v0, v1 := SyscallLocal();
      }
      ReturnFrom(v0, v1);
      r := Ok(());
    }

    /** The machine has carried out an instruction on `m` as `spec` says: same outcome, same
        new machine, and the proof of the accessed address recorded. */
    ghost predicate Did(m: Machine, insn: Word, spec: Result<Effect>, r: Result<()>, proof: seq<Byte>, offset: Word)
      requires state.registers.Length == 32
      reads this, state, state.registers, state.memory
    {
      var preimage := Preimage(host, m);
      var output := WriteOutput(host, m.cpu, m.contents, m.streams);
      && SameOutcome(r, spec)
      && (r.Err? ==> state.memory.contents == m.contents)
      && (r.Ok? ==>
        && Abs() == Settle(m, spec.value, Access(m.cpu, insn), ReadsPreimage(m.cpu, insn), WritesOutput(m.cpu, insn), preimage, output)
        && lastPreimageOffset == (if ReadsPreimage(m.cpu, insn) then m.cpu.preimageOffset else offset)
        && (memProofEnabled ==> memProof == RecordedProof(m.contents, Access(m.cpu, insn), proof)))
    }

    /** What the instruction sees of the outside. */
    ghost function Outside(m: Machine, insn: Word): Env {
      Env(AccessedWord(m.contents, Access(m.cpu, insn)), Preimage(host, m),
          Succeeded(WriteOutput(host, m.cpu, m.contents, m.streams)))
    }

    /** R-type jumps, conditional moves, syscalls and the HI/LO group. */
    method RunSpecial(insn: Word, rs: Word, rt: Word, val: Word) returns (r: Result<()>)
      requires Valid() && Opcode(insn) == 0 && 8 <= Funct(insn) < 0x1C
      modifies this, state, state.registers, state.memory, state.memory.Repr
      ensures Valid() && fresh(state.memory.Repr - old(state.memory.Repr)) && memProofEnabled == old(memProofEnabled)
      ensures old(lastMemAccess) == NO_ACCESS ==>
        Did(old(Abs()), insn, Special(old(Abs()).cpu, insn, rs, rt, val, Outside(old(Abs()), insn)), r,
            old(memProof), old(lastPreimageOffset))
    {
      hide NodesCorrect, Memory.PagesMatch, Memory.PagesApart, Memory.SlotsMatch, Preimage, WriteOutput, Flatten,
        MemoryProof, WordAt, WriteWord, Syscall, Jump, WriteBack, HiLo, RdField;
      var fun, rd := Funct(insn), RdField(insn);
      RdInRange(insn);
      if fun == 8 || fun == 9 {
        r := HandleJump(if fun == 9 then rd else 0, rs);
      } else if fun == 0x0A {
        r := HandleRd(rd, val, rt == 0);
      } else if fun == 0x0B {
        r := HandleRd(rd, val, rt != 0);
      } else if fun == 0x0C {
        r := HandleSyscall();
      } else if 0x10 <= fun <= 0x1B {
        r := HandleHiLo(fun, rs, rt, rd);
      } else {
        r := HandleRd(rd, val, true);
      }
    }

    /** Tracks an address, which may be the one just read, and stores there. */
    method StoreWord(address: Address, val: Word) returns (r: Result<()>)
      requires Valid()
      modifies `lastMemAccess, `memProof, state.memory, state.memory.Repr
      ensures Valid() && fresh(state.memory.Repr - old(state.memory.Repr))
      ensures r.Ok? <==> old(Trackable(address))
      ensures r.Err? ==> r.error == DifferentMemoryAccess
      ensures !memProofEnabled || old(lastMemAccess) == address ==> memProof == old(memProof)
      ensures state.memory.contents ==
        if r.Ok? then WriteWord(old(state.memory.contents), address, val) else old(state.memory.contents)
    {
      hide NodesCorrect, Memory.PagesMatch, Memory.PagesApart, Memory.SlotsMatch, WriteWord, Flatten, MemoryProof;
      var _ :- TrackMemAccess(address);
      r := state.memory.SetMemory(address, val);
    }

    /** The address of a store has been tracked, and its proof recorded. */
    ghost predicate Tracked(insn: Word, storing: bool, address: Address, proof: seq<Byte>)
      requires state.registers.Length == 32
      reads this, state, state.registers, state.memory
    {
      && (storing ==> Access(Abs().cpu, insn) == Some(address) && (memProofEnabled ==> lastMemAccess == address))
      && (memProofEnabled ==> memProof == RecordedProof(Abs().contents, Access(Abs().cpu, insn), proof))
    }

    /** Stores the value or writes it to the destination register. */
    method Conclude(insn: Word, storing: bool, address: Address, rdReg: Word, val: Word, ghost proof: seq<Byte>)
      returns (r: Result<()>)
      requires Valid() && !IsSyscall(insn)
      requires storing == IsStore(insn) && rdReg == if storing then 0 else DestReg(insn)
      modifies `lastMemAccess, `memProof, state`pc, state`nextPc, state.registers, state.memory, state.memory.Repr
      ensures Valid() && fresh(state.memory.Repr - old(state.memory.Repr))
      ensures old(Tracked(insn, storing, address, proof)) ==>
        Did(old(Abs()), insn, WriteResult(old(Abs()).cpu, insn, val), r, proof, lastPreimageOffset)
    {
      hide NodesCorrect, Memory.PagesMatch, Memory.PagesApart, Memory.SlotsMatch, Preimage, WriteOutput, Flatten,
        MemoryProof, WordAt, WriteWord, Access, RdField, RtField;
      FieldsInRange(insn);
      if Opcode(insn) == 0x38 && RtField(insn) != 0 {
        state.registers[RtField(insn)] := 1;
      }
      if storing {
        var _ :- StoreWord(address, val);
      }
      r := HandleRd(rdReg, val, true);
    }

    /** ALU instructions, loads and stores. */
    method RunCompute(insn: Word) returns (r: Result<()>)
      requires Valid() && !IsJump(insn) && !IsBranch(insn)
      modifies this, state, state.registers, state.memory, state.memory.Repr
      ensures Valid() && fresh(state.memory.Repr - old(state.memory.Repr)) && memProofEnabled == old(memProofEnabled)
      ensures old(lastMemAccess) == NO_ACCESS ==>
        Did(old(Abs()), insn, Compute(old(Abs()).cpu, insn, Outside(old(Abs()), insn)), r,
            old(memProof), old(lastPreimageOffset))
    {
      hide NodesCorrect, Memory.PagesMatch, Memory.PagesApart, Memory.SlotsMatch, Preimage, WriteOutput, Flatten,
        MemoryProof, WordAt, WriteWord, Special, AluResult, WriteResult, SignExtend, RdField, RtField, RsField,
        ImmField;
      FieldsInRange(insn);
      var opcode := Opcode(insn);
      var rs := state.registers[RsField(insn)];
      var rtReg := RtField(insn);
      var rt: Word := 0;
      var rdReg := rtReg;
      if opcode == 0 || opcode == 0x1C {
        rt := state.registers[rtReg];
        rdReg := RdField(insn);
      } else if opcode < 20 {
        if 0x0C <= opcode <= 0x0E {
          rt := ImmField(insn);
        } else {
          rt := SignExtend(ImmField(insn), 16);
        }
      } else if opcode >= 0x28 || opcode == 0x22 || opcode == 0x26 {
        rt := state.registers[rtReg];
      }
      var storing, mem: Word := false, 0;
      var address: Address := 0;
      if opcode >= 0x20 {
        rs := Add(rs, SignExtend(ImmField(insn), 16));
        address := Aligned(rs);
        mem :- LoadWord(address);
        if opcode >= 0x28 && opcode != 0x30 {
          storing := true;
          rdReg := 0;
        }
      }
      var val :- Execute(insn, rs, rt, mem);
      var fun := Funct(insn);
      if opcode == 0 && 8 <= fun < 0x1C {
        r := RunSpecial(insn, rs, rt, val);
      } else {
        r := Conclude(insn, storing, address, rdReg, val, old(memProof));
      }
    }

    /** One fetched instruction, the step counter already advanced. */
    method RunInstruction(insn: Word) returns (r: Result<()>)
      requires Valid()
      modifies this, state, state.registers, state.memory, state.memory.Repr
      ensures Valid() && fresh(state.memory.Repr - old(state.memory.Repr)) && memProofEnabled == old(memProofEnabled)
      ensures old(lastMemAccess) == NO_ACCESS ==>
        Did(old(Abs()), insn, Instruction(old(Abs()).cpu, insn, Outside(old(Abs()), insn)), r,
            old(memProof), old(lastPreimageOffset))
    {
      hide NodesCorrect, Memory.PagesMatch, Memory.PagesApart, Memory.SlotsMatch, Preimage, WriteOutput, Flatten,
        MemoryProof, WordAt, WriteWord, Compute, Jump, Branch, RdField, RtField, RsField, ImmField;
      FieldsInRange(insn);
      var opcode := Opcode(insn);
      if 2 <= opcode <= 3 {
        var linkReg := if opcode == 3 then 31 else 0;
        var target := state.nextPc / 0x1000_0000 * 0x1000_0000 + TargetField(insn) * 4;
        r := HandleJump(linkReg, target);
      } else if 4 <= opcode < 8 || opcode == 1 {
        r := HandleBranch(opcode, insn, RtField(insn), state.registers[RsField(insn)]);
      } else {
        r := RunCompute(insn);
      }
    }

    /** One step: nothing once exited, otherwise count, fetch and run. */
    method InnerStep() returns (r: Result<()>)
      requires Valid() && lastMemAccess == NO_ACCESS
      modifies this, state, state.registers, state.memory, state.memory.Repr
      ensures Valid() && fresh(state.memory.Repr - old(state.memory.Repr)) && memProofEnabled == old(memProofEnabled)
      ensures SameOutcome(r, MachineStep(host, old(Abs())))
      ensures r.Err? ==> r.error != DifferentMemoryAccess
      ensures r.Ok? ==> Abs() == MachineStep(host, old(Abs())).value
      ensures r.Err? ==> state.memory.contents == old(state.memory.contents)
      ensures r.Ok? ==> Recorded(old(Abs()), old(memProof), old(lastPreimageOffset))
    {
      hide NodesCorrect, Memory.PagesMatch, Memory.PagesApart, Memory.SlotsMatch, Preimage, WriteOutput, Flatten,
        MemoryProof, WordAt, WriteWord, Instruction, Settle, RecordedProof, Access, AccessedWord, ApplyStore,
        ReadsPreimage, WritesOutput;
      NeverDifferentAccess(host, Abs());
      if state.exited {
        return Ok(());
      }
      state.step := (state.step + 1) % LONG_LIMIT;
      var insn :- state.memory.GetMemory(state.pc);
      r := RunInstruction(insn);
    }

    /** What a successful step leaves in the proof bookkeeping. */
    ghost predicate Recorded(m: Machine, proof: seq<Byte>, offset: Word)
      reads this
    {
      && (memProofEnabled ==> memProof == SecondProof(m, proof))
      && lastPreimageOffset == (if Fetches(m) then m.cpu.preimageOffset else offset)
    }

    /** One public step. With and without proof it succeeds on the same machines and leads to
        the same machine; with proof it also hands out the witness. */
    method Step(proof: bool) returns (r: Result<Option<StepWitness>>)
      requires Valid()
      modifies this, state, state.registers, state.memory, state.memory.Repr
      ensures Valid() && fresh(state.memory.Repr - old(state.memory.Repr))
      ensures SameOutcome(r, MachineStep(host, old(Abs())))
      ensures r.Err? ==> r.error != DifferentMemoryAccess
      ensures r.Ok? ==> Abs() == MachineStep(host, old(Abs())).value
      ensures r.Err? ==> state.memory.contents == old(state.memory.contents)
      ensures r.Ok? ==> r.value == if proof then Some(Emitted(host, old(Abs()), old(memProof))) else None
      ensures r.Ok? && proof ==> memProof == SecondProof(old(Abs()), old(memProof))
    {
      hide NodesCorrect, Memory.PagesMatch, Memory.PagesApart, Memory.SlotsMatch, Preimage, MachineStep, Flatten,
        MemoryProof, TreeRoot, Encode, SecondProof, Fetches;
      memProofEnabled := proof;
      lastMemAccess := NO_ACCESS;
      lastPreimageOffset := 0xFFFF_FFFF;
      var instructionProof, encoded: seq<Byte> := [], [];
      if proof {
        var fetch := state.memory.MerkleProof(state.pc);
        instructionProof := fetch.value;
        var preState := state.EncodeWitness();
        encoded := preState.value;
      }
      var _ :- InnerStep();
      if !proof {
        return Ok(None);
      }
      if lastPreimageOffset != 0xFFFF_FFFF {
        StepCaches(host, old(Abs()));
        r := Ok(Some(StepWitness(encoded, instructionProof + memProof,
                                 Some(lastPreimageKey), Some(lastPreimage), Some(lastPreimageOffset))));
      } else {
        r := Ok(Some(StepWitness(encoded, instructionProof + memProof, None, None, None)));
      }
    }
  }

  /** No instruction accesses two different addresses: the specification has no such error, and
      the machine fails only where the specification does. */
  lemma NeverDifferentAccess(host: Host, m: Machine)
    ensures MachineStep(host, m).Err? ==> MachineStep(host, m).error != DifferentMemoryAccess
  {
    hide Instruction, ApplyStore, WordAt, AccessedWord, WriteOutput, Preimage, Access;
    if !m.cpu.exited && m.cpu.pc % 4 == 0 {
      var counted := m.(cpu := CountStep(m.cpu));
      var insn := WordAt(m.contents, m.cpu.pc);
      OutsideErrors(host, counted);
      InstructionErrors(counted.cpu, insn, Env(AccessedWord(m.contents, Access(counted.cpu, insn)),
        Preimage(host, counted), Succeeded(WriteOutput(host, counted.cpu, m.contents, m.streams))));
    }
  }

  lemma OutsideErrors(host: Host, m: Machine)
    ensures Preimage(host, m).Err? ==> Preimage(host, m).error != DifferentMemoryAccess
    ensures var output := WriteOutput(host, m.cpu, m.contents, m.streams);
      output.Err? ==> output.error != DifferentMemoryAccess
  {
    hide ProcessHints;
    var bytes := RangeBytes(m.contents, m.cpu.registers[5], m.cpu.registers[6]);
    if bytes.Ok? {
      HintErrors(host, m.streams.hints, m.streams.lastHint + bytes.value);
    }
  }

  lemma {:induction false} HintErrors(host: Host, hints: seq<seq<Byte>>, buffer: seq<Byte>)
    ensures ProcessHints(host, hints, buffer).Err? ==> ProcessHints(host, hints, buffer).error != DifferentMemoryAccess
    decreases |buffer|
  {
    hide WordOf;
    if |buffer| >= 4 {
      var end := 4 + WordOf(buffer[..4]) as int;
      if end <= |buffer| {
        HintErrors(host, hints + [buffer[4..end]], buffer[end..]);
      }
    }
  }

  lemma InstructionErrors(c: Cpu, insn: Word, env: Env)
    requires env.preimage.Err? ==> env.preimage.error != DifferentMemoryAccess
    requires env.output.Err? ==> env.output.error != DifferentMemoryAccess
    ensures Instruction(c, insn, env).Err? ==> Instruction(c, insn, env).error != DifferentMemoryAccess
  {
    hide Add, SignExtend, Shl, Shr, Operand, LeadingOnes, KeyWrite, Fcntl, Mmap, Return, BranchTaken;
  }

  /** A step that read the preimage leaves exactly that preimage in the cache. */
  lemma StepCaches(host: Host, m: Machine)
    requires MachineStep(host, m).Ok? && Fetches(m)
    ensures var m' := MachineStep(host, m).value;
      Preimage(host, m).Ok? && m'.cacheKey == m.cpu.preimageKey && m'.cache == Preimage(host, m).value
  {
    hide WordAt, Instruction, AccessedWord, ApplyStore, WriteOutput, Preimage;
    SamePreimage(host, m);
    var counted := m.(cpu := CountStep(m.cpu));
    var insn := WordAt(m.contents, m.cpu.pc);
    FetchNeedsPreimage(counted.cpu, insn, Env(AccessedWord(m.contents, Access(counted.cpu, insn)),
      Preimage(host, counted), Succeeded(WriteOutput(host, counted.cpu, m.contents, m.streams))));
  }

  lemma RdInRange(insn: Word)
    ensures RdField(insn) < 32
  {
  }

  lemma FieldsInRange(insn: Word)
    ensures RdField(insn) < 32 && RtField(insn) < 32 && RsField(insn) < 32
  {
  }

  lemma KeyPiece(key: Digest, word: Word, a1: Word, a2: Word, n: Word)
    requires n == if 4 - a1 % 4 < a2 then 4 - a1 % 4 else a2
    ensures n == KeyWriteCount(a1, a2)
    ensures |key[n..] + BytesOf(word)[a1 % 4..a1 % 4 + n]| == 32
    ensures key[n..] + BytesOf(word)[a1 % 4..a1 % 4 + n] == ShiftKey(key, KeyBytes(word, a1, n))
  {
  }

  /** Clamping in three steps and splicing into the word is what the specification says. */
  lemma PreimagePiece(word: Word, blob: seq<Byte>, offset: Word, a1: Word, a2: Word, data: seq<Byte>, n: int)
    requires offset <= |blob| && data == blob[offset..Min(offset + 32, |blob|)]
    requires n == Min(Min(|data|, 4 - a1 % 4), a2)
    ensures n == PreimageReadCount(blob, offset, a1, a2)
    ensures WordOf(BytesOf(word)[..a1 % 4] + data[..n] + BytesOf(word)[a1 % 4 + n..]) == PreimageWord(word, blob, offset, a1, n)
  {
    assert data[..n] == blob[offset..offset + n];
  }

  lemma SignedZero(w: Word)
    ensures Signed(w) == 0 <==> w == 0
  {
  }
}
