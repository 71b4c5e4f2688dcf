/**
 The login state of dev/join.py over the framed connection: the server turns compression on by a
 packet of the stream, so what a later byte means depends on the packets before it.
 */
module Login {
  import opened Bytes
  import opened WireFraming
  import opened Wrappers

  const DISCONNECT: nat := 0
  const ENCRYPTION: nat := 1
  const FINISHED: nat := 2
  const COMPRESSION: nat := 3
  const HELLO: nat := 0

  datatype LoginError = Wire(error: WireError) | EncryptionAsked | Disconnected

  /** How the login ended, the threshold then in force, and what was not read. */
  datatype Ended = Ended(outcome: Result<(), LoginError>, threshold: int, rest: seq<byte>)

  /** The packet neither accepts nor refuses the player, and it can be understood. */
  predicate GoesOn(p: Packet) {
    && p.id != FINISHED && p.id != ENCRYPTION && p.id != DISCONNECT
    && (p.id == COMPRESSION ==> VarintOf(p.payload).Ok?)
  }

  /** What a packet after which the login does not go on means. */
  function Outcome(p: Packet): Result<(), LoginError>
    requires !GoesOn(p)
  {
    if p.id == FINISHED then Ok(())
    else if p.id == ENCRYPTION then Err(EncryptionAsked)
    else if VarintOf(p.payload).Err? then Err(Wire(VarintOf(p.payload).error))
    else Err(Disconnected)
  }

  /** The threshold once the packet has been read. */
  function NewThreshold(p: Packet, threshold: int): int
    requires GoesOn(p)
  {
    if p.id == COMPRESSION then VarintOf(p.payload).value.0 else threshold
  }

  function LoginOf(stream: seq<byte>, threshold: int, codec: Codec): Ended
    decreases |stream|
  {
    var next := Received(stream, threshold, codec);
    if next.Err? then Ended(Err(Wire(next.error)), threshold, Rest(stream))
    else
      var (p, rest) := next.value;
      if GoesOn(p) then LoginOf(rest, NewThreshold(p, threshold), codec) else Ended(Outcome(p), threshold, rest)
  }

  lemma ReceivedLeavesRest(stream: seq<byte>, threshold: int, codec: Codec)
    ensures Received(stream, threshold, codec).Ok? ==> Rest(stream) == Received(stream, threshold, codec).value.1
  {
  }

  /** `run_login`; `hello` is the payload that names the player. */
  method RunLogin(connection: Connection, hello: seq<byte>) returns (r: Result<(), LoginError>)
    requires connection.sock.Valid()
    modifies connection, connection.sock
    ensures connection.sock.Valid()
    ensures connection.sock.sent
         == old(connection.sock.sent) + Frame(Packet(HELLO, hello), old(connection.threshold), connection.codec)
    ensures Ended(r, connection.threshold, connection.Stream())
         == LoginOf(old(connection.Stream()), old(connection.threshold), connection.codec)
  {
    hide Received, Rest, VarintOf, Frame;
    connection.Send(Packet(HELLO, hello));
    ghost var sent := connection.sock.sent;
    ghost var ended := LoginOf(connection.Stream(), connection.threshold, connection.codec);
    while true
      invariant connection.sock.Valid() && connection.sock.sent == sent
      invariant LoginOf(connection.Stream(), connection.threshold, connection.codec) == ended
      decreases |connection.Stream()|
    {
      ReceivedLeavesRest(connection.Stream(), connection.threshold, connection.codec);
      var received := connection.Receive();
      if received.Err? {
        return Err(Wire(received.error));
      }
      var p := received.value;
      if p.id == COMPRESSION {
        var threshold := ReadVarint(p.payload);
        if threshold.Err? {
          return Err(Wire(threshold.error));
        }
        connection.threshold := threshold.value.0;
      } else if p.id == FINISHED {
        return Ok(());
      } else if p.id == ENCRYPTION {
        return Err(EncryptionAsked);
      } else if p.id == DISCONNECT {
        var reason := ReadVarint(p.payload);
        return Err(if reason.Err? then Wire(reason.error) else Disconnected);
      }
    }
  }

  // ------------------------------------------------------------ what the server sends

  /** The packets of the login state, as the server means them; its compression threshold is a 32-bit number. */
  datatype Said =
    | SetCompression(threshold: nat)
    | Success(profile: seq<byte>)
    | AskEncryption(challenge: seq<byte>)
    | Refuse(reason: seq<byte>)
    | Other(id: nat, payload: seq<byte>)

  const LARGEST_INT: nat := 0x7fff_ffff

  /** What the client is told of a threshold: one that no signed 32-bit number can hold is clamped. */
  function Told(threshold: nat): nat {
    if threshold <= LARGEST_INT then threshold else LARGEST_INT
  }

  function Written(m: Said): Packet {
    match m
    case SetCompression(threshold) => Packet(3, Varint(Told(threshold)))
    case Success(profile) => Packet(2, profile)
    case AskEncryption(challenge) => Packet(1, challenge)
    case Refuse(reason) => Packet(0, Varint(|reason|) + reason)
    case Other(id, payload) => Packet(id, payload)
  }

  /** The numbers the login state does not use otherwise, and a reason that has a length. */
  predicate CanBeSaid(m: Said) {
    (m.Other? ==> m.id > 3) && (m.Refuse? ==> |m.reason| < 0x8_0000_0000)
  }

  predicate EndsLogin(m: Said) {
    m.Success? || m.AskEncryption? || m.Refuse?
  }

  function ServerThreshold(m: Said, threshold: int): int {
    if m.SetCompression? then m.threshold else threshold
  }

  /** The server's bytes: a change of the threshold is framed at the old one, what follows at the new one. */
  function Spoken(said: seq<Said>, threshold: int, codec: Codec): seq<byte> {
    if said == [] then []
    else Frame(Written(said[0]), threshold, codec) + Spoken(said[1..], ServerThreshold(said[0], threshold), codec)
  }

  predicate FitInTurn(said: seq<Said>, threshold: int, codec: Codec) {
    said == [] ||
    (Fits(Written(said[0]), threshold, codec) && FitInTurn(said[1..], ServerThreshold(said[0], threshold), codec))
  }

  /** The last threshold the client has been told. */
  function LastTold(said: seq<Said>, before: int): int {
    if said == [] then before
    else if said[|said| - 1].SetCompression? then Told(said[|said| - 1].threshold)
    else LastTold(said[..|said| - 1], before)
  }

  lemma {:induction false} LastToldFirst(said: seq<Said>, before: int)
    requires said != []
    ensures LastTold(said, before)
         == LastTold(said[1..], if said[0].SetCompression? then Told(said[0].threshold) else before)
    decreases |said|
  {
    var front := said[..|said| - 1];
    if |said| > 1 {
      LastToldFirst(front, before);
      assert front[1..] == said[1..][..|said[1..]| - 1];
    }
  }

  /** Once compression is on, how a frame is read does not depend on the threshold. */
  lemma OnlyTheSignMatters(stream: seq<byte>, server: int, client: int, codec: Codec)
    requires server < 0 <==> client < 0
    ensures Received(stream, client, codec) == Received(stream, server, codec)
  {
    hide VarintOf;
  }

  lemma SaidIsHeard(m: Said, client: int)
    requires CanBeSaid(m)
    ensures GoesOn(Written(m)) <==> !EndsLogin(m)
    ensures GoesOn(Written(m)) ==>
              NewThreshold(Written(m), client) == if m.SetCompression? then Told(m.threshold) else client
    ensures EndsLogin(m) ==>
              Outcome(Written(m)) == match m
                                     case Success(_) => Ok(())
                                     case AskEncryption(_) => Err(EncryptionAsked)
                                     case _ => Err(Disconnected)
  {
    hide Varint, VarintOf;
    if m.SetCompression? {
      VarintReadBack(Told(m.threshold), []);
      assert Varint(Told(m.threshold)) + [] == Varint(Told(m.threshold));
    } else if m.Refuse? {
      VarintReadBack(|m.reason|, m.reason);
    }
  }

  /** One packet of the server is read at the threshold the client was told. */
  lemma OneIsHeard(m: Said, server: int, client: int, codec: Codec, others: seq<byte>)
    requires Inverts(codec) && CanBeSaid(m) && Fits(Written(m), server, codec) && (server < 0 <==> client < 0)
    ensures LoginOf(Frame(Written(m), server, codec) + others, client, codec)
         == if EndsLogin(m) then Ended(Outcome(Written(m)), client, others)
            else LoginOf(others, if m.SetCompression? then Told(m.threshold) else client, codec)
  {
    hide Received, Frame, Fits, Written, GoesOn, NewThreshold, Outcome, EndsLogin;
    ReceivedAsSent(Written(m), server, codec, others);
    OnlyTheSignMatters(Frame(Written(m), server, codec) + others, server, client, codec);
    SaidIsHeard(m, client);
  }

  /**
   The client follows the server through any login: it succeeds exactly when the packet that ends the
   login accepts the player, has then the threshold the server told it last, and has read nothing
   behind that packet. A login that the server never ends is an end of stream.
   */
  lemma {:induction false} LoginFollowsServer(said: seq<Said>, last: Option<Said>, server: int, client: int, codec: Codec, tail: seq<byte>)
    requires Inverts(codec) && (server < 0 <==> client < 0)
    requires forall i :: 0 <= i < |said| ==> CanBeSaid(said[i]) && !EndsLogin(said[i])
    requires if last.Some? then CanBeSaid(last.value) && EndsLogin(last.value) else tail == []
    requires FitInTurn(if last.Some? then said + [last.value] else said, server, codec)
    ensures LoginOf(Spoken(if last.Some? then said + [last.value] else said, server, codec) + tail, client, codec)
         == Ended(
              match last
              case None => Err(Wire(EndOfStream))
              case Some(Success(_)) => Ok(())
              case Some(AskEncryption(_)) => Err(EncryptionAsked)
              case _ => Err(Disconnected),
              LastTold(said, client), tail)
    decreases |said|
  {
    hide Received, Frame, Fits, Written, GoesOn, NewThreshold, Outcome, Rest, LoginOf;
    var all := if last.Some? then said + [last.value] else said;
    if all == [] {
      Silence(client, codec);
      assert said == [] && last.None? && Spoken(all, server, codec) + tail == [];
    } else {
      var others := Spoken(all[1..], ServerThreshold(all[0], server), codec) + tail;
      assert Spoken(all, server, codec) + tail == Frame(Written(all[0]), server, codec) + others;
      OneIsHeard(all[0], server, client, codec, others);
      if said == [] {
        assert others == tail;
        SaidIsHeard(last.value, client);
      } else {
        var told := if all[0].SetCompression? then Told(all[0].threshold) else client;
        assert all[1..] == if last.Some? then said[1..] + [last.value] else said[1..];
        LoginFollowsServer(said[1..], last, ServerThreshold(all[0], server), told, codec, tail);
        LastToldFirst(said, client);
      }
    }
  }

  lemma Silence(threshold: int, codec: Codec)
    ensures LoginOf([], threshold, codec) == Ended(Err(Wire(EndOfStream)), threshold, [])
  {
  }
}
