/** The hint wire protocol as a state machine: a writer that sends a framed hint and waits for
    one byte, and a reader that routes the hint and answers with that byte, also when the
    handler fails. The writer's message and the reader's length are whole transfers, payload
    reads may be split arbitrarily. */
module HintProtocol {
  import opened Words
  import opened HintBuffers

  type Hint = s: seq<Byte> | |s| < WORD_LIMIT

  datatype Reader = AtLength | InPayload(length: nat, got: seq<Byte>) | Routing(payload: seq<Byte>)

  /** `acked` counts the hints whose call has returned; `routed` and `outcomes` record what the
      handler was given and whether the reader's call succeeded. */
  datatype Net = Net(
    waiting: bool,
    acked: nat,
    reader: Reader,
    toReader: seq<Byte>,
    toWriter: seq<Byte>,
    routed: seq<seq<Byte>>,
    outcomes: seq<bool>)

  datatype Move = WriteHint | ReadAck | ReadLength | ReadPayload(n: nat) | Route

  /** The hints to send, and the handler that accepts or refuses them. */
  datatype Session = Session(hints: seq<Hint>, handler: seq<Byte> -> bool)

  const START := Net(false, 0, AtLength, [], [], [], [])

  function Step(p: Session, s: Net, move: Move): Option<Net> {
    match move
    case WriteHint =>
      if !s.waiting && s.acked < |p.hints| then
        Some(s.(waiting := true, toReader := s.toReader + Framed(p.hints[s.acked])))
      else None
    case ReadAck =>
      if s.waiting && s.toWriter != [] then Some(s.(waiting := false, acked := s.acked + 1, toWriter := s.toWriter[1..]))
      else None
    case ReadLength =>
      if s.reader.AtLength? && |s.toReader| >= 4 then
        var length := WordOf(s.toReader[..4]);
        Some(s.(reader := if length == 0 then Routing([]) else InPayload(length, []), toReader := s.toReader[4..]))
      else None
    case ReadPayload(n) =>
      if s.reader.InPayload? && 1 <= n <= |s.toReader| && |s.reader.got| + n <= s.reader.length then
        var got := s.reader.got + s.toReader[..n];
        var reader := if |got| == s.reader.length then Routing(got) else InPayload(s.reader.length, got);
        Some(s.(reader := reader, toReader := s.toReader[n..]))
      else None
    case Route =>
      if s.reader.Routing? then
        var payload := s.reader.payload;
        Some(s.(reader := AtLength, toWriter := s.toWriter + [0],
                routed := s.routed + [payload], outcomes := s.outcomes + [p.handler(payload)]))
      else None
  }

  /** Where the hint in flight is. */
  predicate InFlight(hint: Hint, s: Net) {
    match s.reader
    case AtLength => s.toReader == Framed(hint)
    case InPayload(length, got) => length == |hint| && |got| < length && got + s.toReader == hint
    case Routing(payload) => payload == hint && s.toReader == []
  }

  /** Either everything routed is acknowledged or on its way back, or one hint is in flight. */
  predicate Inv(p: Session, s: Net) {
    && s.acked <= |s.routed| <= |p.hints| && s.routed == p.hints[..|s.routed|]
    && s.outcomes == seq(|s.routed|, i requires 0 <= i < |s.routed| => p.handler(p.hints[i]))
    && (s.waiting ==> s.acked < |p.hints|)
    && if s.waiting && |s.routed| == s.acked then s.toWriter == [] && InFlight(p.hints[s.acked], s)
       else
         && s.reader == AtLength && s.toReader == []
         && |s.routed| == (if s.waiting then s.acked + 1 else s.acked)
         && s.toWriter == (if s.waiting then [0] else [])
  }

  lemma FrameParts(hint: Hint)
    ensures |Framed(hint)| == 4 + |hint| && WordOf(Framed(hint)[..4]) == |hint| && Framed(hint)[4..] == hint
  {
    hide BytesOf;
    WordRoundTrip(|hint|);
    assert Framed(hint)[..4] == BytesOf(|hint|);
  }

  /** Every step of every interleaving keeps the invariant. */
  lemma StepKeeps(p: Session, s: Net, move: Move)
    requires Inv(p, s) && Step(p, s, move).Some?
    ensures Inv(p, Step(p, s, move).value)
  {
    hide Framed;
    if s.acked < |p.hints| {
      FrameParts(p.hints[s.acked]);
    }
    match move
    case WriteHint =>
      assert [] + Framed(p.hints[s.acked]) == Framed(p.hints[s.acked]);
    case ReadAck =>
    case ReadLength =>
    case ReadPayload(n) =>
      assert s.toReader == s.toReader[..n] + s.toReader[n..];
      assert s.reader.got + s.toReader == s.reader.got + s.toReader[..n] + s.toReader[n..];
    case Route =>
      assert p.hints[..s.acked + 1] == p.hints[..s.acked] + [p.hints[s.acked]];
  }

  function Run(p: Session, s: Net, moves: seq<Move>): Option<Net>
    decreases |moves|
  {
    if moves == [] then Some(s)
    else
      match Step(p, s, moves[0])
      case Some(next) => Run(p, next, moves[1..])
      case None => None
  }

  lemma {:induction false} RunKeeps(p: Session, s: Net, moves: seq<Move>)
    requires Inv(p, s) && Run(p, s, moves).Some?
    ensures Inv(p, Run(p, s, moves).value)
    decreases |moves|
  {
    hide Inv, Step;
    if moves != [] {
      StepKeeps(p, s, moves[0]);
      RunKeeps(p, Step(p, s, moves[0]).value, moves[1..]);
    }
  }

  /** Over any run the handler sees the hints in order, each call reports the handler's own
      verdict, at most one hint is unacknowledged, and an idle writer finds empty channels. */
  lemma HintsInOrder(p: Session, moves: seq<Move>)
    requires Run(p, START, moves).Some?
    ensures var s := Run(p, START, moves).value;
      && |s.routed| <= |p.hints| && s.routed == p.hints[..|s.routed|]
      && |s.outcomes| == |s.routed| && (forall i :: 0 <= i < |s.routed| ==> s.outcomes[i] == p.handler(p.hints[i]))
      && s.acked <= |s.routed| <= s.acked + 1
      && (!s.waiting ==> |s.routed| == s.acked && s.toReader == [] && s.toWriter == [] && s.reader == AtLength)
  {
    hide InFlight;
    RunKeeps(p, START, moves);
  }

  /** A run that cannot go on has delivered and acknowledged every hint, whatever the handler
      made of them: a refused hint releases the writer too. */
  lemma StuckMeansDelivered(p: Session, s: Net)
    requires Inv(p, s) && forall move :: Step(p, s, move).None?
    ensures !s.waiting && s.acked == |p.hints| && s.routed == p.hints
  {
    assert Step(p, s, WriteHint).None? && Step(p, s, ReadAck).None?;
    assert Step(p, s, ReadLength).None? && Step(p, s, ReadPayload(1)).None? && Step(p, s, Route).None?;
    if s.acked < |p.hints| {
      FrameParts(p.hints[s.acked]);
    }
    assert p.hints[..|p.hints|] == p.hints;
  }

  /** Steps left until the current call returns, and for the hints after it. */
  function Work(p: Session, s: Net): int {
    var rest := RestWork(p, s.acked);
    if !s.waiting then rest
    else if |s.routed| > s.acked then rest - OneHint(p, s.acked) + 1
    else
      match s.reader
      case AtLength => rest - 1
      case InPayload(length, got) => rest - OneHint(p, s.acked) + 2 + length - |got|
      case Routing(_) => rest - OneHint(p, s.acked) + 2
  }

  function OneHint(p: Session, i: nat): nat { if i < |p.hints| then 4 + |p.hints[i]| else 0 }

  function RestWork(p: Session, i: nat): nat
    decreases |p.hints| - i
  {
    if i >= |p.hints| then 0 else OneHint(p, i) + RestWork(p, i + 1)
  }

  /** Every step uses up work, so every run ends. */
  lemma StepWorks(p: Session, s: Net, move: Move)
    requires Inv(p, s) && Step(p, s, move).Some?
    ensures 0 <= Work(p, Step(p, s, move).value) < Work(p, s)
  {
    hide Framed;
    if s.acked < |p.hints| {
      FrameParts(p.hints[s.acked]);
    }
  }
}
