/** When the machine's hint loop does what it is for: delivering every complete hint of the
    pending bytes, in order, and keeping the incomplete rest. */
module HintBuffers {
  import opened Words
  import opened Results
  import opened MerkleTree
  import opened UpperTree
  import opened Alu
  import opened Cpu
  import opened Machine
  import opened Runs

  /** Length announced by the first four bytes. */
  function Announced(buffer: seq<Byte>): int
    requires |buffer| >= 4
  {
    WordOf(buffer[..4])
  }

  /** The purpose of the loop: take complete hints off the front as long as there are any. */
  function DeliverComplete(host: Host, hints: seq<seq<Byte>>, buffer: seq<Byte>): Result<(seq<seq<Byte>>, seq<Byte>)>
    decreases |buffer|
  {
    if |buffer| < 4 || 4 + Announced(buffer) > |buffer| then Ok((hints, buffer))
    else
      var end := 4 + Announced(buffer);
      if !host.hint(hints, buffer[4..end]) then Err(HintFailure)
      else DeliverComplete(host, hints + [buffer[4..end]], buffer[end..])
  }

  lemma {:induction false} DeliversMore(host: Host, hints: seq<seq<Byte>>, buffer: seq<Byte>)
    ensures DeliverComplete(host, hints, buffer).Ok? ==> |DeliverComplete(host, hints, buffer).value.0| >= |hints|
    decreases |buffer|
  {
    if |buffer| >= 4 && 4 + Announced(buffer) <= |buffer| {
      var end := 4 + Announced(buffer);
      DeliversMore(host, hints + [buffer[4..end]], buffer[end..]);
    }
  }

  /** The loop meets its purpose exactly when the first hint ends at the end of the buffer, or
      when there is not even a length. A longer buffer is left alone and a shorter one panics.
      Buffers are below 2^32 + 4 bytes, where the loop's 32-bit length is exact. */
  lemma HintLoopExact(host: Host, hints: seq<seq<Byte>>, buffer: seq<Byte>)
    requires |buffer| < WORD_LIMIT + 4
    ensures ProcessHints(host, hints, buffer) == DeliverComplete(host, hints, buffer)
      <==> |buffer| < 4 || 4 + Announced(buffer) == |buffer|
  {
    if |buffer| >= 4 {
      assert Sub(|buffer| % WORD_LIMIT, 4) == |buffer| - 4;
      var end := 4 + Announced(buffer);
      if end == |buffer| {
        var hint := buffer[4..end];
        assert buffer[end..] == [];
        assert ProcessHints(host, hints + [hint], []) == DeliverComplete(host, hints + [hint], []);
      } else if end < |buffer| {
        DeliversMore(host, hints + [buffer[4..end]], buffer[end..]);
      }
    }
  }

  /** Two empty hints in one buffer: none is delivered. A length without its hint: panic. */
  lemma HintLoopFails(host: Host)
    ensures ProcessHints(host, [], Zeros(8)) == Ok(([], Zeros(8)))
    ensures ProcessHints(host, [], [0, 0, 0, 1]) == Err(Panic)
  {
    var two: seq<Byte>, cut: seq<Byte> := Zeros(8), [0, 0, 0, 1];
    assert WordOf(two[..4]) == 0 && WordOf(cut[..4]) == 1;
  }

  /** A hint as a program sends it: a big-endian length and the bytes. */
  function Framed(hint: seq<Byte>): seq<Byte>
    requires |hint| < WORD_LIMIT
  {
    BytesOf(|hint|) + hint
  }

  lemma OneWholeHint(host: Host, accepted: seq<seq<Byte>>, hint: seq<Byte>)
    requires |hint| < WORD_LIMIT
    ensures ProcessHints(host, accepted, Framed(hint)) ==
      if host.hint(accepted, hint) then Ok((accepted + [hint], [])) else Err(HintFailure)
  {
    var buffer := Framed(hint);
    assert buffer[..4] == BytesOf(|hint|) && buffer[4..] == hint;
    WordRoundTrip(|hint|);
    assert buffer[4..4 + |hint|] == hint && buffer[4 + |hint|..] == [];
    assert ProcessHints(host, accepted + [hint], []) == Ok((accepted + [hint], []));
  }

  /** The machine is about to write to the hint channel, and the bytes it will write. */
  ghost predicate AtHintWrite(m: Machine) {
    AtSyscall(m) && m.cpu.registers[2] == WRITE && m.cpu.registers[4] % 256 == 4
  }

  ghost function HintBytes(m: Machine): seq<Byte> {
    ReadRange(m.contents, m.cpu.registers[5], m.cpu.registers[6])
  }

  /** A length and exactly as many bytes. */
  predicate WholeHint(b: seq<Byte>) { |b| >= 4 && 4 + Announced(b) == |b| }

  lemma WholeHintIsFramed(b: seq<Byte>)
    requires WholeHint(b)
    ensures |b| - 4 < WORD_LIMIT && b == Framed(b[4..])
  {
    hide BytesOf, WordOf;
    BytesRoundTrip(b[..4]);
    assert b == b[..4] + b[4..];
  }

  /** Only writes to the log and hint channels change the streams. */
  lemma StreamsStep(host: Host, m: Machine)
    requires MachineStep(host, m).Ok?
    ensures var m' := MachineStep(host, m).value;
      var output := WriteOutput(host, CountStep(m.cpu), m.contents, m.streams);
      if AtSyscall(m) && EmitsOutput(m.cpu) then output.Ok? && m'.streams == output.value else m'.streams == m.streams
  {
    hide Instruction, WriteOutput, Preimage, AccessedWord, ApplyStore, Access, Syscall, WordAt;
    if AtSyscall(m) && EmitsOutput(m.cpu) {
      var c, insn := CountStep(m.cpu), Current(m);
      var env := Env(AccessedWord(m.contents, Access(c, insn)), Preimage(host, m.(cpu := c)),
                     Succeeded(WriteOutput(host, c, m.contents, m.streams)));
      SyscallInstruction(c, insn, env);
      OutputNeeded(c, env);
    }
  }

  lemma OutputNeeded(c: Cpu, env: Env)
    requires Syscall(c, env).Ok? && EmitsOutput(c)
    ensures env.output.Ok?
  {
    hide Return, KeyWrite, LocalCall, ReadCall;
  }

  /** One write of a whole hint: the host accepts it and nothing is left pending. */
  lemma HintStep(host: Host, m: Machine)
    requires MachineStep(host, m).Ok? && AtHintWrite(m) && m.streams.lastHint == [] && WholeHint(HintBytes(m))
    ensures var m' := MachineStep(host, m).value;
      m'.streams.hints == m.streams.hints + [HintBytes(m)[4..]] && m'.streams.lastHint == []
  {
    hide MachineStep, ProcessHints, ReadRange, WordOf, AtSyscall, WholeHint;
    StreamsStep(host, m);
    WholeHintIsFramed(HintBytes(m));
    assert m.streams.lastHint + HintBytes(m) == HintBytes(m);
    OneWholeHint(host, m.streams.hints, HintBytes(m)[4..]);
  }

  lemma OtherStepKeepsHints(host: Host, m: Machine)
    requires MachineStep(host, m).Ok? && !AtHintWrite(m)
    ensures var m' := MachineStep(host, m).value;
      m'.streams.hints == m.streams.hints && m'.streams.lastHint == m.streams.lastHint
  {
    hide MachineStep, ProcessHints, RangeBytes, AtSyscall;
    StreamsStep(host, m);
  }

  /** Every hint write of the run writes exactly one whole hint. */
  ghost predicate WholeHintWrites(host: Host, m: Machine, n: nat)
    decreases n
  {
    n > 0 && MachineStep(host, m).Ok? ==>
      (AtHintWrite(m) ==> WholeHint(HintBytes(m))) && WholeHintWrites(host, MachineStep(host, m).value, n - 1)
  }

  /** The hints written along a run, in order. */
  ghost function HintsWritten(host: Host, m: Machine, n: nat): seq<seq<Byte>>
    decreases n
  {
    if n == 0 || MachineStep(host, m).Err? then []
    else
      (if AtHintWrite(m) && |HintBytes(m)| >= 4 then [HintBytes(m)[4..]] else [])
      + HintsWritten(host, MachineStep(host, m).value, n - 1)
  }

  /** Over any run of a program that writes one whole hint per call, the host accepts exactly the
      hints written, in order, with nothing left pending. */
  lemma {:induction false} RunDeliversHints(host: Host, m: Machine, n: nat)
    requires MachineRun(host, m, n).Ok? && WholeHintWrites(host, m, n) && m.streams.lastHint == []
    ensures var last := MachineRun(host, m, n).value;
      last.streams.hints == m.streams.hints + HintsWritten(host, m, n) && last.streams.lastHint == []
    decreases n
  {
    hide MachineStep, AtHintWrite, HintBytes;
    if n > 0 {
      var m' := MachineStep(host, m).value;
      if AtHintWrite(m) {
        HintStep(host, m);
      } else {
        OtherStepKeepsHints(host, m);
      }
      RunDeliversHints(host, m', n - 1);
    }
  }

  /** A buffer consists of whole hints, each after its length, and a rest. */
  ghost predicate Splits(buffer: seq<Byte>, hints: seq<seq<Byte>>, rest: seq<Byte>)
    decreases |hints|
  {
    if hints == [] then buffer == rest
    else
      && |hints[0]| < WORD_LIMIT && 4 + |hints[0]| <= |buffer|
      && buffer[..4 + |hints[0]|] == Framed(hints[0]) && Splits(buffer[4 + |hints[0]|..], hints[1..], rest)
  }

  /** The loop takes whole hints off the front of the buffer and hands each to the host once. */
  lemma {:induction false} LoopSplits(host: Host, hints: seq<seq<Byte>>, buffer: seq<Byte>,
                                     taken: seq<seq<Byte>>, rest: seq<Byte>)
    requires ProcessHints(host, hints, buffer) == Ok((taken, rest))
    ensures |hints| <= |taken| && taken[..|hints|] == hints && Splits(buffer, taken[|hints|..], rest)
    decreases |buffer|
  {
    hide BytesOf, WordOf;
    if |buffer| >= 4 {
      var hintLen := WordOf(buffer[..4]);
      if hintLen >= Sub(|buffer| % WORD_LIMIT, 4) {
        var end: nat := 4 + hintLen;
        var hint := buffer[4..end];
        LoopSplits(host, hints + [hint], buffer[end..], taken, rest);
        BytesRoundTrip(buffer[..4]);
        assert buffer[..end] == buffer[..4] + hint;
        var more := taken[|hints|..];
        assert more[0] == taken[..|hints| + 1][|hints|] == hint && more[1..] == taken[|hints| + 1..];
      }
    }
  }

  /** Pending bytes with more bytes behind them. */
  lemma {:induction false} SplitsOn(x: seq<Byte>, y: seq<Byte>, hints: seq<seq<Byte>>, hints': seq<seq<Byte>>,
                                    rest: seq<Byte>, rest': seq<Byte>)
    requires Splits(x, hints, rest) && Splits(rest + y, hints', rest')
    ensures Splits(x + y, hints + hints', rest')
    decreases |hints|
  {
    hide Framed;
    if hints != [] {
      var end := 4 + |hints[0]|;
      SplitsOn(x[end..], y, hints[1..], hints', rest, rest');
      assert (x + y)[..end] == x[..end] && (x + y)[end..] == x[end..] + y;
      assert (hints + hints')[1..] == hints[1..] + hints';
    } else {
      assert hints + hints' == hints';
    }
  }

  /** The bytes written to the hint channel along a run. */
  ghost function HintInput(host: Host, m: Machine, n: nat): seq<Byte>
    decreases n
  {
    if n == 0 || MachineStep(host, m).Err? then []
    else (if AtHintWrite(m) then HintBytes(m) else []) + HintInput(host, MachineStep(host, m).value, n - 1)
  }

  lemma StepSplits(host: Host, m: Machine)
    requires MachineStep(host, m).Ok?
    ensures var s, s' := m.streams, MachineStep(host, m).value.streams;
      && |s.hints| <= |s'.hints| && s'.hints[..|s.hints|] == s.hints
      && Splits(s.lastHint + (if AtHintWrite(m) then HintBytes(m) else []), s'.hints[|s.hints|..], s'.lastHint)
  {
    hide MachineStep, ProcessHints, ReadRange, AtSyscall, Framed;
    if AtHintWrite(m) {
      StreamsStep(host, m);
      var s' := MachineStep(host, m).value.streams;
      LoopSplits(host, m.streams.hints, m.streams.lastHint + HintBytes(m), s'.hints, s'.lastHint);
    } else {
      OtherStepKeepsHints(host, m);
    }
  }

  /** Over any run, however the program cuts its hints into writes: the bytes pending at the
      start and all bytes written are exactly the hints accepted, in order and each after its
      length, and the bytes still pending. */
  lemma {:induction false} RunConservesHints(host: Host, m: Machine, n: nat)
    requires MachineRun(host, m, n).Ok?
    ensures var s, s' := m.streams, MachineRun(host, m, n).value.streams;
      && |s.hints| <= |s'.hints| && s'.hints[..|s.hints|] == s.hints
      && Splits(s.lastHint + HintInput(host, m, n), s'.hints[|s.hints|..], s'.lastHint)
    decreases n
  {
    hide MachineStep, AtHintWrite, HintBytes, Splits;
    var s, s' := m.streams, MachineRun(host, m, n).value.streams;
    if n > 0 {
      var m' := MachineStep(host, m).value;
      var now := if AtHintWrite(m) then HintBytes(m) else [];
      var later := HintInput(host, m', n - 1);
      StepSplits(host, m);
      RunConservesHints(host, m', n - 1);
      SplitsOn(s.lastHint + now, later, m'.streams.hints[|s.hints|..], s'.hints[|m'.streams.hints|..],
               m'.streams.lastHint, s'.lastHint);
      Joined(s.hints, m'.streams.hints, s'.hints);
      assert s.lastHint + now + later == s.lastHint + (now + later);
    } else {
      NothingTaken(s);
    }
  }

  lemma NothingTaken(s: Streams)
    ensures Splits(s.lastHint + [], s.hints[|s.hints|..], s.lastHint) && s.hints[..|s.hints|] == s.hints
  {
    assert s.lastHint + [] == s.lastHint;
  }

  lemma Joined<T>(x: seq<T>, y: seq<T>, z: seq<T>)
    requires |x| <= |y| <= |z| && y[..|x|] == x && z[..|y|] == y
    ensures z[..|x|] == x && y[|x|..] + z[|y|..] == z[|x|..]
  {
  }
}
