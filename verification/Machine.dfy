/** A whole machine step over flat memory, as a function: the specification that the
    instrumented machine is proved against, with the host's answers as parameters. */
module Machine {
  import opened Words
  import opened Results
  import opened MerkleTree
  import opened UpperTree
  import opened Alu
  import opened Cpu

  type Blob = s: seq<Byte> | |s| < 0x8000_0000_0000_0000

  /** The preimage host: it finds the preimage of a key or not, and takes a hint or not. Its
      answers may depend on the hints it has accepted so far. */
  datatype Host = Host(
    get: (seq<seq<Byte>>, Digest) -> Option<Blob>,
    hint: (seq<seq<Byte>>, seq<Byte>) -> bool)

  /** What the program has written: two byte logs, unprocessed hint bytes, accepted hints. */
  datatype Streams = Streams(stdOut: seq<Byte>, stdErr: seq<Byte>, lastHint: seq<Byte>, hints: seq<seq<Byte>>)

  /** The machine state; the last preimage fetched is kept with its key. */
  datatype Machine = Machine(cpu: Cpu, contents: Flat, streams: Streams, cacheKey: Digest, cache: seq<Byte>)

  /** `n` bytes from address `a` on, wrapping at the end of the address space. */
  function ReadRange(contents: Flat, a: Word, n: nat): (s: seq<Byte>)
    ensures |s| == n
  {
    seq(n, i requires 0 <= i < n => contents[(a + i) % MEMORY_SIZE])
  }

  /** A memory reader copies a range, but panics when the range comes back to its first page. */
  function RangeBytes(contents: Flat, a: Word, n: Word): Result<seq<Byte>> {
    if a % 4096 + n >= WORD_LIMIT then Err(Panic) else Ok(ReadRange(contents, a, n))
  }

  /** The hint loop: a hint is taken only when its length reaches at least to the end of the
      buffer, and a length beyond the end panics. */
  function ProcessHints(host: Host, hints: seq<seq<Byte>>, buffer: seq<Byte>): Result<(seq<seq<Byte>>, seq<Byte>)>
    decreases |buffer|
  {
    if |buffer| < 4 then Ok((hints, buffer))
    else
      var hintLen: int := WordOf(buffer[..4]);
      if hintLen < Sub(|buffer| % WORD_LIMIT, 4) then Ok((hints, buffer))
      else if 4 + hintLen > |buffer| then Err(Panic)
      else if !host.hint(hints, buffer[4..4 + hintLen]) then Err(HintFailure)
      else
        var hint := buffer[4..4 + hintLen];
        ProcessHints(host, hints + [hint], buffer[4 + hintLen..])
  }

  predicate ReadsPreimage(c: Cpu, insn: Word) { IsSyscall(insn) && FetchesPreimage(c) }

  predicate WritesOutput(c: Cpu, insn: Word) { IsSyscall(insn) && EmitsOutput(c) }

  /** The output side of a write syscall to stdout, stderr or the hint channel. */
  function WriteOutput(host: Host, c: Cpu, contents: Flat, s: Streams): Result<Streams> {
    var bytes :- RangeBytes(contents, c.registers[5], c.registers[6]);
    var fd := c.registers[4] % 256;
    if fd == 1 then Ok(s.(stdOut := s.stdOut + bytes))
    else if fd == 2 then Ok(s.(stdErr := s.stdErr + bytes))
    else
      var rest :- ProcessHints(host, s.hints, s.lastHint + bytes);
      Ok(s.(hints := rest.0, lastHint := rest.1))
  }

  function Prefixed(data: Blob): seq<Byte> { LongBytesOf(|data|) + data }

  /** The length-prefixed preimage of the current key, from the cache or from the host. */
  function Preimage(host: Host, m: Machine): Result<seq<Byte>> {
    if m.cpu.preimageKey == m.cacheKey then Ok(m.cache)
    else
      match host.get(m.streams.hints, m.cpu.preimageKey)
      case Some(data) => Ok(Prefixed(data))
      case None => Err(OracleFailure)
  }

  type Address = a: Word | a % 4 == 0

  /** The word at an instruction's address, zero when it has none. */
  function AccessedWord(contents: Flat, access: Option<Address>): Word {
    match access
    case Some(a) => WordAt(contents, a)
    case None => 0
  }

  function ApplyStore(contents: Flat, access: Option<Address>, store: Option<Word>): Flat {
    match (access, store)
    case (Some(a), Some(value)) => WriteWord(contents, a, value)
    case _ => contents
  }

  /** Fetch, execute and store, given the outside's answers: all that enters the witness. */
  function StepOn(c: Cpu, contents: Flat, preimage: Result<seq<Byte>>, output: Result<()>): Result<(Cpu, Flat)> {
    if c.exited then Ok((c, contents))
    else if c.pc % 4 != 0 then Err(UnalignedAccess)
    else
      var insn, counted := WordAt(contents, c.pc), CountStep(c);
      var env := Env(AccessedWord(contents, Access(counted, insn)), preimage, output);
      var effect :- Instruction(counted, insn, env);
      Ok((effect.cpu, ApplyStore(contents, Access(counted, insn), effect.store)))
  }

  function Succeeded<T>(r: Result<T>): Result<()> { if r.Ok? then Ok(()) else Err(r.error) }

  /** The machine after an effect: `fetched` and `emitted` say which of the outside's
      answers the instruction used. */
  function Settle(m: Machine, effect: Effect, access: Option<Address>, fetched: bool, emitted: bool,
                  preimage: Result<seq<Byte>>, output: Result<Streams>): Machine {
    var keep := fetched && preimage.Ok?;
    Machine(
      effect.cpu,
      ApplyStore(m.contents, access, effect.store),
      if emitted && output.Ok? then output.value else m.streams,
      if keep then m.cpu.preimageKey else m.cacheKey,
      if keep then preimage.value else m.cache)
  }

  /** One instruction of the whole machine, the step counter already advanced. */
  function InstructionStep(host: Host, m: Machine, insn: Word): Result<Machine> {
    var preimage := Preimage(host, m);
    var output := WriteOutput(host, m.cpu, m.contents, m.streams);
    var access := Access(m.cpu, insn);
    var effect :- Instruction(m.cpu, insn, Env(AccessedWord(m.contents, access), preimage, Succeeded(output)));
    Ok(Settle(m, effect, access, ReadsPreimage(m.cpu, insn), WritesOutput(m.cpu, insn), preimage, output))
  }

  /** One step of the whole machine; an exited machine stays as it is. */
  function MachineStep(host: Host, m: Machine): Result<Machine> {
    if m.cpu.exited then Ok(m)
    else if m.cpu.pc % 4 != 0 then Err(UnalignedAccess)
    else InstructionStep(host, m.(cpu := CountStep(m.cpu)), WordAt(m.contents, m.cpu.pc))
  }

  /** The registers and the memory move by `StepOn`, whatever the rest of the machine does. */
  lemma StepProjects(host: Host, m: Machine)
    ensures var r := StepOn(m.cpu, m.contents, Preimage(host, m), Succeeded(WriteOutput(host, m.cpu, m.contents, m.streams)));
      && SameOutcome(MachineStep(host, m), r)
      && (r.Ok? ==> MachineStep(host, m).value.cpu == r.value.0 && MachineStep(host, m).value.contents == r.value.1)
  {
    hide Instruction, ApplyStore, ProcessHints, RangeBytes, AccessedWord;
  }

  /** `n` successful steps. */
  function MachineRun(host: Host, m: Machine, n: nat): Result<Machine>
    decreases n
  {
    if n == 0 then Ok(m)
    else
      var next :- MachineStep(host, m);
      MachineRun(host, next, n - 1)
  }
}
