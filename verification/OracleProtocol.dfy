/** The preimage wire protocol as a state machine: a client and a server over a pair of FIFO
    byte channels. Every write and read may be split arbitrarily, and the two parties may
    interleave in any way. `GetKey([])` is also the server between two requests. */
module OracleProtocol {
  import opened Words
  import opened MerkleTree

  type Value = s: seq<Byte> | |s| < LONG_LIMIT

  datatype Client =
    | Idle
    | Sending(sent: nat)
    | GetLength(got: seq<Byte>)
    | GetPayload(length: Long, got: seq<Byte>)

  datatype Server =
    | GetKey(got: seq<Byte>)
    | PutLength(value: Value, sent: nat)
    | PutPayload(value: Value, sent: nat)
    | Stopped

  datatype Net = Net(client: Client, server: Server, toServer: seq<Byte>, toClient: seq<Byte>, results: seq<Value>)

  datatype Move = Begin | ClientSend(n: nat) | ClientReceive(n: nat) | ServerReceive(n: nat) | ServerSend(n: nat)

  /** The keys to ask for, and the getter that answers them or fails. */
  datatype Session = Session(keys: seq<Digest>, getter: Digest -> Option<Value>)

  const START := Net(Idle, GetKey([]), [], [], [])

  /** Sends the next bytes of the key, then waits for the length. */
  function SendKey(p: Session, s: Net, n: nat): Option<Net> {
    match s.client
    case Sending(sent) =>
      if |s.results| < |p.keys| && 1 <= n && sent + n <= 32 then
        var client := if sent + n == 32 then GetLength([]) else Sending(sent + n);
        Some(s.(client := client, toServer := s.toServer + p.keys[|s.results|][sent..sent + n]))
      else None
    case _ => None
  }

  /** Receives the length, then as many payload bytes; an empty payload is not waited for. */
  function ReceiveAnswer(s: Net, n: nat): Option<Net> {
    if n == 0 || n > |s.toClient| then None
    else
      var piece, left := s.toClient[..n], s.toClient[n..];
      match s.client
      case GetLength(got) =>
        if |got| + n > 8 then None
        else if |got| + n < 8 then Some(s.(client := GetLength(got + piece), toClient := left))
        else
          var length := LongOf(got + piece);
          if length == 0 then Some(s.(client := Idle, toClient := left, results := s.results + [[]]))
          else Some(s.(client := GetPayload(length, []), toClient := left))
      case GetPayload(length, got) =>
        if |got| + n > length then None
        else if |got| + n < length then Some(s.(client := GetPayload(length, got + piece), toClient := left))
        else Some(s.(client := Idle, toClient := left, results := s.results + [got + piece]))
      case _ => None
  }

  /** Receives key bytes; a complete key is looked up, and a failing lookup ends the server. */
  function ReceiveKey(p: Session, s: Net, n: nat): Option<Net> {
    match s.server
    case GetKey(got) =>
      if n == 0 || n > |s.toServer| || |got| + n > 32 then None
      else
        var key, left := got + s.toServer[..n], s.toServer[n..];
        if |key| < 32 then Some(s.(server := GetKey(key), toServer := left))
        else
          var answer := p.getter(key);
          Some(s.(server := if answer.Some? then PutLength(answer.value, 0) else Stopped, toServer := left))
    case _ => None
  }

  /** Sends the length, then the value unless it is empty. */
  function SendAnswer(s: Net, n: nat): Option<Net> {
    match s.server
    case PutLength(value, sent) =>
      if n == 0 || sent + n > 8 then None
      else
        var out := s.toClient + LongBytesOf(|value|)[sent..sent + n];
        var server :=
          if sent + n < 8 then PutLength(value, sent + n) else if value == [] then GetKey([]) else PutPayload(value, 0);
        Some(s.(server := server, toClient := out))
    case PutPayload(value, sent) =>
      if n == 0 || sent + n > |value| then None
      else
        var out := s.toClient + value[sent..sent + n];
        Some(s.(server := if sent + n < |value| then PutPayload(value, sent + n) else GetKey([]), toClient := out))
    case _ => None
  }

  function Step(p: Session, s: Net, move: Move): Option<Net> {
    match move
    case Begin => if s.client.Idle? && |s.results| < |p.keys| then Some(s.(client := Sending(0))) else None
    case ClientSend(n) => SendKey(p, s, n)
    case ClientReceive(n) => ReceiveAnswer(s, n)
    case ServerReceive(n) => ReceiveKey(p, s, n)
    case ServerSend(n) => SendAnswer(s, n)
  }

  /** The bytes of a whole answer. */
  function Response(value: Value): (r: seq<Byte>)
    ensures |r| == 8 + |value|
  {
    LongBytesOf(|value|) + value
  }

  /** What the client has received of the current answer. */
  function Received(client: Client): seq<Byte> {
    match client
    case GetLength(got) => got
    case GetPayload(length, got) => LongBytesOf(length) + got
    case _ => []
  }

  predicate WellFormed(client: Client) {
    match client
    case GetLength(got) => |got| < 8
    case GetPayload(length, got) => |got| < length
    case Sending(sent) => sent < 32
    case Idle => true
  }

  /** The key is on its way, the answer is, or the server has failed on the key. */
  predicate Awaiting(key: Digest, answer: Option<Value>, server: Server, toServer: seq<Byte>, arrived: seq<Byte>) {
    match server
    case GetKey(got) =>
      || (got + toServer == key && |got| < 32 && arrived == [])
      || (got == [] && toServer == [] && answer.Some? && arrived == Response(answer.value))
    case PutLength(value, sent) =>
      sent < 8 && answer == Some(value) && toServer == [] && arrived == Response(value)[..sent]
    case PutPayload(value, sent) =>
      sent < |value| && answer == Some(value) && toServer == [] && arrived == Response(value)[..8 + sent]
    case Stopped => answer == None && toServer == [] && arrived == []
  }

  predicate Answered(p: Session, results: seq<Value>) {
    |results| <= |p.keys| && forall i :: 0 <= i < |results| ==> p.getter(p.keys[i]) == Some(results[i])
  }

  predicate Inv(p: Session, s: Net) {
    && Answered(p, s.results) && WellFormed(s.client)
    && (!s.client.Idle? ==> |s.results| < |p.keys|)
    && match s.client
       case Idle => s.server == GetKey([]) && s.toServer == [] && s.toClient == []
       case Sending(sent) =>
         s.server.GetKey? && |s.server.got| < 32 && s.toClient == []
         && s.server.got + s.toServer == p.keys[|s.results|][..sent]
       case _ =>
         var key := p.keys[|s.results|];
         Awaiting(key, p.getter(key), s.server, s.toServer, Received(s.client) + s.toClient)
  }

  lemma SendKeyKeeps(p: Session, s: Net, n: nat)
    requires Inv(p, s) && SendKey(p, s, n).Some?
    ensures Inv(p, SendKey(p, s, n).value)
  {
    hide Answered;
    var key, sent := p.keys[|s.results|], s.client.sent;
    assert key[..sent] + key[sent..sent + n] == key[..sent + n];
    assert s.server.got + s.toServer + key[sent..sent + n] == s.server.got + (s.toServer + key[sent..sent + n]);
    assert key[..32] == key;
  }

  lemma ReceiveKeyKeeps(p: Session, s: Net, n: nat)
    requires Inv(p, s) && ReceiveKey(p, s, n).Some?
    ensures Inv(p, ReceiveKey(p, s, n).value)
  {
    hide Answered, LongBytesOf;
    var key, got := p.keys[|s.results|], s.server.got;
    var piece, left := s.toServer[..n], s.toServer[n..];
    assert got + s.toServer == got + piece + left;
    if |got| + n == 32 {
      assert |got + s.toServer| <= 32;
      assert left == [] && got + piece == key;
    }
  }

  /** The next bytes of a response, from the length or from the value. */
  lemma ResponsePiece(value: Value, sent: nat, n: nat)
    requires sent + n <= 8 + |value|
    ensures var r := Response(value);
      && r[..sent] + r[sent..sent + n] == r[..sent + n] && r[..8 + |value|] == r
      && (sent + n <= 8 ==> LongBytesOf(|value|)[sent..sent + n] == r[sent..sent + n])
      && (sent >= 8 ==> value[sent - 8..sent - 8 + n] == r[sent..sent + n])
  {
    hide LongBytesOf;
  }

  lemma SendAnswerKeeps(p: Session, s: Net, n: nat)
    requires Inv(p, s) && SendAnswer(s, n).Some?
    ensures Inv(p, SendAnswer(s, n).value)
  {
    hide Answered, LongBytesOf, Response, Received;
    var sent := if s.server.PutLength? then s.server.sent else 8 + s.server.sent;
    var r := Response(s.server.value);
    ResponsePiece(s.server.value, sent, n);
    Regroup(Received(s.client), s.toClient, r[sent..sent + n]);
  }

  lemma Regroup(a: seq<Byte>, b: seq<Byte>, c: seq<Byte>)
    ensures a + (b + c) == a + b + c
  {
  }

  /** What has arrived is a prefix of the response, so the length read is the value's own. */
  lemma ArrivedPrefix(key: Digest, answer: Option<Value>, server: Server, toServer: seq<Byte>, arrived: seq<Byte>)
    requires Awaiting(key, answer, server, toServer, arrived) && arrived != []
    ensures answer.Some? && |arrived| <= |Response(answer.value)| && arrived == Response(answer.value)[..|arrived|]
    ensures |arrived| == |Response(answer.value)| ==> server == GetKey([]) && toServer == []
  {
    hide LongBytesOf;
  }

  lemma LengthOfResponse(value: Value)
    ensures Response(value)[..8] == LongBytesOf(|value|) && LongOf(LongBytesOf(|value|)) == |value|
    ensures Response(value)[8..] == value
  {
    hide LongBytesOf, LongOf;
    LongRoundTrip(|value|);
  }

  lemma LengthBytes(b: seq<Byte>)
    requires |b| == 8
    ensures LongBytesOf(LongOf(b)) == b
  {
    hide BytesOf, WordOf;
    BytesRoundTrip(b[..4]);
    BytesRoundTrip(b[4..]);
    DivModUnique(LongOf(b), WORD_LIMIT, WordOf(b[..4]), WordOf(b[4..]));
  }

  lemma PayloadLength(length: Long, arrived: seq<Byte>, value: Value)
    requires |arrived| >= 8 && arrived[..8] == LongBytesOf(length) && arrived[..8] == LongBytesOf(|value|)
    ensures length == |value|
  {
    hide LongBytesOf, LongOf;
    LongRoundTrip(length);
    LongRoundTrip(|value|);
  }

  /** The length is received: it is the length of the value. */
  lemma ReceiveLengthKeeps(p: Session, s: Net, n: nat)
    requires Inv(p, s) && s.client.GetLength? && ReceiveAnswer(s, n).Some?
    ensures Inv(p, ReceiveAnswer(s, n).value)
  {
    hide LongBytesOf, LongOf, Response;
    var key, arrived := p.keys[|s.results|], Received(s.client) + s.toClient;
    ArrivedPrefix(key, p.getter(key), s.server, s.toServer, arrived);
    var value := p.getter(key).value;
    var piece, left, got := s.toClient[..n], s.toClient[n..], s.client.got;
    assert s.toClient == piece + left;
    Regroup(got, piece, left);
    if |got| + n == 8 {
      LengthOfResponse(value);
      assert got + piece == arrived[..8] == Response(value)[..8];
      LengthBytes(got + piece);
      Regroup(got + piece, [], left);
      EmptyAnswer(p, s, n, value);
    }
  }

  /** An answer of length zero is complete with its length. */
  lemma EmptyAnswer(p: Session, s: Net, n: nat, value: Value)
    requires Inv(p, s) && s.client.GetLength? && 1 <= n <= |s.toClient| && |s.client.got| + n == 8
    requires p.getter(p.keys[|s.results|]) == Some(value)
    requires s.client.got + s.toClient == Response(value)[..8 + |s.toClient| - n]
    ensures |value| == 0 ==> s.toClient[n..] == [] && s.server == GetKey([]) && s.toServer == []
  {
    hide LongBytesOf, LongOf, Answered;
  }

  /** The payload is received: when it is complete, it is the value. */
  lemma ReceivePayloadKeeps(p: Session, s: Net, n: nat)
    requires Inv(p, s) && s.client.GetPayload? && ReceiveAnswer(s, n).Some?
    ensures Inv(p, ReceiveAnswer(s, n).value)
  {
    hide LongBytesOf, LongOf;
    var key, arrived := p.keys[|s.results|], Received(s.client) + s.toClient;
    ArrivedPrefix(key, p.getter(key), s.server, s.toServer, arrived);
    var value := p.getter(key).value;
    var piece, left, got, head := s.toClient[..n], s.toClient[n..], s.client.got, LongBytesOf(s.client.length);
    LengthOfResponse(value);
    assert head == arrived[..8] == Response(value)[..8];
    PayloadLength(s.client.length, arrived, value);
    assert s.toClient == piece + left;
    assert head + (got + piece) + left == arrived;
    if |got| + n == |value| {
      assert got + piece == arrived[8..8 + |value|] == value;
    }
  }

  lemma ReceiveAnswerKeeps(p: Session, s: Net, n: nat)
    requires Inv(p, s) && ReceiveAnswer(s, n).Some?
    ensures Inv(p, ReceiveAnswer(s, n).value)
  {
    hide Inv;
    if s.client.GetLength? {
      ReceiveLengthKeeps(p, s, n);
    } else {
      ReceivePayloadKeeps(p, s, n);
    }
  }

  /** Every step of every interleaving keeps the invariant. */
  lemma StepKeeps(p: Session, s: Net, move: Move)
    requires Inv(p, s) && Step(p, s, move).Some?
    ensures Inv(p, Step(p, s, move).value)
  {
    hide Answered, SendKey, ReceiveAnswer, ReceiveKey, SendAnswer;
    match move
    case Begin =>
    case ClientSend(n) => SendKeyKeeps(p, s, n);
    case ClientReceive(n) => ReceiveAnswerKeeps(p, s, n);
    case ServerReceive(n) => ReceiveKeyKeeps(p, s, n);
    case ServerSend(n) => SendAnswerKeeps(p, s, n);
  }

  function Run(p: Session, s: Net, moves: seq<Move>): Option<Net>
    decreases |moves|
  {
    if moves == [] then Some(s)
    else
      match Step(p, s, moves[0])
      case Some(next) => Run(p, next, moves[1..])
      case None => None
  }

  lemma {:induction false} RunKeeps(p: Session, s: Net, moves: seq<Move>)
    requires Inv(p, s) && Run(p, s, moves).Some?
    ensures Inv(p, Run(p, s, moves).value)
    decreases |moves|
  {
    hide Inv, Step;
    if moves != [] {
      StepKeeps(p, s, moves[0]);
      RunKeeps(p, Step(p, s, moves[0]).value, moves[1..]);
    }
  }

  /** Safety: whatever the interleaving and the splitting, the i-th answer is the getter's value
      for the i-th key, and between requests both channels are empty. */
  lemma GetsAreCorrect(p: Session, moves: seq<Move>)
    requires Run(p, START, moves).Some?
    ensures var s := Run(p, START, moves).value;
      && Answered(p, s.results)
      && (s.client.Idle? ==> s.server == GetKey([]) && s.toServer == [] && s.toClient == [])
  {
    RunKeeps(p, START, moves);
  }

  function ResponseSize(answer: Option<Value>): nat { if answer.Some? then 8 + |answer.value| else 0 }

  /** Bytes still to be written and read, and requests still to begin. */
  function RestWork(p: Session, i: nat): nat
    decreases |p.keys| - i
  {
    if i >= |p.keys| then 0 else 65 + 2 * ResponseSize(p.getter(p.keys[i])) + RestWork(p, i + 1)
  }

  function ServerWork(s: Net, size: nat): int {
    match s.server
    case GetKey(got) => if got == [] && s.toServer == [] && !s.client.Sending? then 0 else 32 - |got| + size
    case PutLength(_, sent) => size - sent
    case PutPayload(_, sent) => size - 8 - sent
    case Stopped => 0
  }

  function Work(p: Session, s: Net): int {
    if s.client.Idle? || |s.results| >= |p.keys| then RestWork(p, |s.results|)
    else
      var size := ResponseSize(p.getter(p.keys[|s.results|]));
      var toSend := if s.client.Sending? then 32 - s.client.sent else 0;
      toSend + size - |Received(s.client)| + ServerWork(s, size) + RestWork(p, |s.results| + 1)
  }

  /** What the invariant says about amounts only. */
  predicate AmountsHold(p: Session, s: Net)
    requires |s.results| < |p.keys|
  {
    var size := ResponseSize(p.getter(p.keys[|s.results|]));
    var arrived := |Received(s.client)| + |s.toClient|;
    && (!s.client.Sending? && size > 0 ==> |Received(s.client)| < size)
    && match s.server
       case GetKey(got) =>
         || (|got| < 32 && arrived == 0 && |got| + |s.toServer| == if s.client.Sending? then s.client.sent else 32)
         || (got == [] && s.toServer == [] && !s.client.Sending? && size > 0 && arrived == size)
       case PutLength(value, sent) => size == 8 + |value| && !s.client.Sending? && arrived == sent < 8 && s.toServer == []
       case PutPayload(value, sent) =>
         size == 8 + |value| && !s.client.Sending? && arrived == 8 + sent < size && s.toServer == []
       case Stopped => size == 0 && !s.client.Sending? && arrived == 0
  }

  lemma Amounts(p: Session, s: Net)
    requires Inv(p, s) && !s.client.Idle?
    ensures AmountsHold(p, s)
  {
    hide LongBytesOf, Answered;
    if s.client.GetPayload? {
      var key := p.keys[|s.results|];
      ArrivedPrefix(key, p.getter(key), s.server, s.toServer, Received(s.client) + s.toClient);
      LengthOfResponse(p.getter(key).value);
      PayloadLength(s.client.length, Received(s.client) + s.toClient, p.getter(key).value);
    }
  }

  /** Every step uses up work, so every run is finite: at most `RestWork` steps. */
  lemma StepWorks(p: Session, s: Net, move: Move)
    requires Inv(p, s) && Step(p, s, move).Some?
    ensures 0 <= Work(p, Step(p, s, move).value) < Work(p, s)
  {
    hide Inv, Answered, Awaiting, LongBytesOf, LongOf, SendKey, ReceiveKey, SendAnswer, ReceiveAnswer, Work;
    StepKeeps(p, s, move);
    match move
    case Begin => BeginWorks(p, s);
    case ClientSend(n) => SendKeyWorks(p, s, n);
    case ClientReceive(n) => ReceiveAnswerWorks(p, s, n);
    case ServerReceive(n) => ReceiveKeyWorks(p, s, n);
    case ServerSend(n) => SendAnswerWorks(p, s, n);
  }

  lemma BeginWorks(p: Session, s: Net)
    requires Inv(p, s) && Step(p, s, Begin).Some?
    ensures 0 <= Work(p, Step(p, s, Begin).value) < Work(p, s)
  {
    hide LongBytesOf, Answered;
  }

  lemma SendKeyWorks(p: Session, s: Net, n: nat)
    requires Inv(p, s) && SendKey(p, s, n).Some? && Inv(p, SendKey(p, s, n).value)
    ensures 0 <= Work(p, SendKey(p, s, n).value) < Work(p, s)
  {
    hide Inv, LongBytesOf, LongOf;
    StatusOf(p, s);
    StatusOf(p, SendKey(p, s, n).value);
  }

  lemma ReceiveAnswerWorks(p: Session, s: Net, n: nat)
    requires Inv(p, s) && ReceiveAnswer(s, n).Some? && Inv(p, ReceiveAnswer(s, n).value)
    ensures 0 <= Work(p, ReceiveAnswer(s, n).value) < Work(p, s)
  {
    hide Inv, LongBytesOf, LongOf;
    StatusOf(p, s);
    StatusOf(p, ReceiveAnswer(s, n).value);
  }

  lemma ReceiveKeyWorks(p: Session, s: Net, n: nat)
    requires Inv(p, s) && ReceiveKey(p, s, n).Some? && Inv(p, ReceiveKey(p, s, n).value)
    ensures 0 <= Work(p, ReceiveKey(p, s, n).value) < Work(p, s)
  {
    hide Inv, LongBytesOf, LongOf;
    StatusOf(p, s);
    StatusOf(p, ReceiveKey(p, s, n).value);
  }

  lemma SendAnswerWorks(p: Session, s: Net, n: nat)
    requires Inv(p, s) && SendAnswer(s, n).Some? && Inv(p, SendAnswer(s, n).value)
    ensures 0 <= Work(p, SendAnswer(s, n).value) < Work(p, s)
  {
    hide Inv, LongBytesOf, LongOf;
    StatusOf(p, s);
    StatusOf(p, SendAnswer(s, n).value);
  }

  /** The amounts, and that a party is where its bytes are. */
  lemma StatusOf(p: Session, s: Net)
    requires Inv(p, s)
    ensures s.client.Idle? ==> |s.results| <= |p.keys| && s.server == GetKey([]) && s.toServer == [] && s.toClient == []
    ensures !s.client.Idle? ==> |s.results| < |p.keys| && WellFormed(s.client) && AmountsHold(p, s)
  {
    if !s.client.Idle? {
      Amounts(p, s);
    }
  }

  /** No run is longer than the work there is. */
  lemma {:induction false} RunsAreBounded(p: Session, s: Net, moves: seq<Move>)
    requires Inv(p, s) && Run(p, s, moves).Some?
    ensures |moves| <= Work(p, s) - Work(p, Run(p, s, moves).value)
    decreases |moves|
  {
    hide Inv, Step, Work;
    if moves != [] {
      StepKeeps(p, s, moves[0]);
      StepWorks(p, s, moves[0]);
      RunsAreBounded(p, Step(p, s, moves[0]).value, moves[1..]);
    }
  }

  /** A run that cannot go on has answered every key, or the getter has failed on the next. */
  lemma StuckMeansDone(p: Session, s: Net)
    requires Inv(p, s) && forall move :: Step(p, s, move).None?
    ensures |s.results| == |p.keys| || p.getter(p.keys[|s.results|]) == None
  {
    hide Inv, LongBytesOf, LongOf;
    StatusOf(p, s);
    assert Step(p, s, Begin).None?;
    assert Step(p, s, ClientSend(1)).None? && Step(p, s, ClientReceive(1)).None?;
    assert Step(p, s, ServerReceive(1)).None? && Step(p, s, ServerSend(1)).None?;
  }
}
