/** The two ends of the preimage channel as they run when nothing interferes: loops of partial
    writes and reads, the server's request handler, and the two halves of the client's call.
    Interleavings are the subject of the protocol's state machine. */
module OracleEndpoints {
  import opened Words
  import opened Results
  import opened MerkleTree
  import opened OracleProtocol

  /** One direction of the channel. An empty pipe reads as closed by the other side. */
  class Pipe {
    var bytes: seq<Byte>

    constructor ()
      ensures bytes == []
    {
      bytes := [];
    }

    /** Takes some of the bytes, at least one. */
    method Write(b: seq<Byte>) returns (n: nat)
      requires b != []
      modifies this
      ensures 1 <= n <= |b| && bytes == old(bytes) + b[..n]
    {
      n :| 1 <= n <= |b|;
      bytes := bytes + b[..n];
    }

    /** Hands out some of the bytes that are there, at most `limit`. */
    method Read(limit: nat) returns (b: seq<Byte>)
      requires limit > 0
      modifies this
      ensures |b| <= limit && (b == [] <==> old(bytes) == []) && old(bytes) == b + bytes
    {
      b := [];
      if bytes != [] {
        var n :| 1 <= n <= limit && n <= |bytes|;
        b, bytes := bytes[..n], bytes[n..];
      }
    }

    method WriteAll(b: seq<Byte>)
      modifies this
      ensures bytes == old(bytes) + b
    {
      var sent := 0;
      while sent < |b|
        invariant sent <= |b| && bytes == old(bytes) + b[..sent]
      {
        var n := Write(b[sent..]);
        assert b[..sent] + b[sent..][..n] == b[..sent + n];
        sent := sent + n;
      }
    }

    method ReadExact(count: nat) returns (r: Result<seq<Byte>>)
      modifies this
      ensures r.Ok? <==> count <= |old(bytes)|
      ensures r.Ok? ==> r.value == old(bytes)[..count] && bytes == old(bytes)[count..]
    {
      var got := [];
      while |got| < count
        invariant |got| <= count && got + bytes == old(bytes)
        decreases count - |got|
      {
        var piece := Read(count - |got|);
        if piece == [] {
          return Err(ReadFailure);
        }
        got := got + piece;
      }
      r := Ok(got);
    }
  }

  class OracleServer {
    const requests: Pipe
    const answers: Pipe

    constructor (requests: Pipe, answers: Pipe)
      ensures this.requests == requests && this.answers == answers
    {
      this.requests, this.answers := requests, answers;
    }

    /** Takes one key off the requests and puts its whole answer on the other pipe. */
    method NewPreimageRequest(getter: Digest -> Option<Value>) returns (r: Result<()>)
      requires requests != answers
      modifies requests, answers
      ensures r.Ok? <==> 32 <= |old(requests.bytes)| && getter(old(requests.bytes)[..32]).Some?
      ensures r.Ok? ==>
        && requests.bytes == old(requests.bytes)[32..]
        && answers.bytes == old(answers.bytes) + Response(getter(old(requests.bytes)[..32]).value)
      ensures r.Err? ==> answers.bytes == old(answers.bytes)
    {
      hide LongBytesOf;
      var key :- requests.ReadExact(32);
      var value := getter(key);
      if value.None? {
        return Err(OracleFailure);
      }
      answers.WriteAll(LongBytesOf(|value.value|));
      if value.value != [] {
        answers.WriteAll(value.value);
      }
      Regroup(old(answers.bytes), LongBytesOf(|value.value|), value.value);
      r := Ok(());
    }
  }

  class OracleClient {
    const requests: Pipe
    const answers: Pipe

    constructor (requests: Pipe, answers: Pipe)
      ensures this.requests == requests && this.answers == answers
    {
      this.requests, this.answers := requests, answers;
    }

    /** First half of the call: sends the key. */
    method Ask(key: Digest)
      modifies requests
      ensures requests.bytes == old(requests.bytes) + key
    {
      requests.WriteAll(key);
    }

    /** Second half: reads the length and as many bytes. */
    method Collect(ghost value: Value, ghost later: seq<Byte>) returns (r: Result<Value>)
      requires answers.bytes == Response(value) + later
      modifies answers
      ensures r == Ok(value) && answers.bytes == later
    {
      hide LongBytesOf, LongOf;
      LengthOfResponse(value);
      assert (Response(value) + later)[..8] == Response(value)[..8];
      assert (Response(value) + later)[8..] == value + later;
      var head := answers.ReadExact(8);
      var length := LongOf(head.value);
      if length == 0 {
        return Ok([]);
      }
      var payload := answers.ReadExact(length);
      assert (value + later)[..length] == value && (value + later)[length..] == later;
      r := Ok(payload.value);
    }
  }

  /** A whole call on quiet pipes: the client gets the getter's value, and both pipes are empty
      again; if the getter fails, nothing has been answered. */
  method Get(client: OracleClient, server: OracleServer, getter: Digest -> Option<Value>, key: Digest)
    returns (r: Result<Value>)
    requires client.requests == server.requests && client.answers == server.answers
    requires client.requests != client.answers && client.requests.bytes == [] && client.answers.bytes == []
    modifies client.requests, client.answers
    ensures r == match getter(key) case Some(value) => Ok(value) case None => Err(OracleFailure)
    ensures client.answers.bytes == [] && (r.Ok? ==> client.requests.bytes == [])
  {
    hide LongBytesOf;
    client.Ask(key);
    assert client.requests.bytes[..32] == key;
    var served := server.NewPreimageRequest(getter);
    if served.Err? {
      return Err(OracleFailure);
    }
    assert client.answers.bytes == Response(getter(key).value) + [];
    r := client.Collect(getter(key).value, []);
  }
}
