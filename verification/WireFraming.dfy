/**
 The framed connection of dev/join.py: variable-length integers, and packets cut out of a byte
 stream that arrives in chunks of any size, with compression off or above a threshold.
 */
module WireFraming {
  import opened Bytes
  import opened Wrappers

  /** What Python raises: EOFError, ValueError, IndexError, zlib.error. */
  datatype WireError = EndOfStream | VarintTooLong | OutOfRange | BadCompression

  const MAX_VARINT_BYTES := 5

  function Power128(k: nat): (p: nat)
    ensures p > 0
  {
    if k == 0 then 1 else 128 * Power128(k - 1)
  }

  // ---------------------------------------------------------------- varints

  /** Seven bits to a byte, least significant first; the high bit says that more follow. */
  function Varint(value: nat): (d: seq<byte>)
    ensures |d| > 0
    decreases value
  {
    if value < 128 then [value] else [value % 128 + 128] + Varint(value / 128)
  }

  /** `varint`. */
  method WriteVarint(value: nat) returns (out: seq<byte>)
    ensures out == Varint(value)
  {
    out := [];
    var left := value;
    while true
      invariant out + Varint(left) == Varint(value)
      decreases left
    {
      var low: byte := left % 128;
      left := left / 128;
      if left == 0 {
        return out + [low];
      }
      out := out + [low + 128];
    }
  }

  /** The value of the varint that `data` starts with, if it ends within `limit` bytes, and what follows it. */
  function VarintWithin(data: seq<byte>, limit: nat): (r: Result<(nat, seq<byte>), WireError>)
    ensures r.Ok? ==> |r.value.1| < |data|
    ensures r.Err? ==> r.error == if |data| < limit then OutOfRange else VarintTooLong
  {
    if limit == 0 then Err(VarintTooLong)
    else if data == [] then Err(OutOfRange)
    else if data[0] < 128 then Ok((data[0], data[1..]))
    else
      var higher := VarintWithin(data[1..], limit - 1);
      if higher.Err? then higher else Ok((data[0] - 128 + 128 * higher.value.0, higher.value.1))
  }

  function VarintOf(data: seq<byte>): Result<(nat, seq<byte>), WireError> {
    VarintWithin(data, MAX_VARINT_BYTES)
  }

  /** Continues a varint of which `index` bytes, worth `value`, have been read. */
  function Resume(value: nat, index: nat, read: Result<(nat, seq<byte>), WireError>): Result<(nat, seq<byte>), WireError> {
    if read.Err? then read else Ok((value + Power128(index) * read.value.0, read.value.1))
  }

  /** The value once the seven bits of the next byte are put above the bits read so far. */
  function Raised(value: nat, index: nat, next: byte): nat {
    value + Power128(index) * (next % 128)
  }

  lemma ResumeEnds(value: nat, index: nat, data: seq<byte>)
    requires index <= MAX_VARINT_BYTES
    ensures Resume(0, 0, VarintOf(data)) == VarintOf(data)
    ensures index == MAX_VARINT_BYTES ==> Resume(value, index, VarintWithin(data, MAX_VARINT_BYTES - index)) == Err(VarintTooLong)
    ensures index < MAX_VARINT_BYTES && data == [] ==>
              Resume(value, index, VarintWithin(data, MAX_VARINT_BYTES - index)) == Err(OutOfRange)
  {
  }

  lemma ResumeStep(value: nat, index: nat, data: seq<byte>)
    requires index < MAX_VARINT_BYTES && data != []
    ensures Resume(value, index, VarintWithin(data, MAX_VARINT_BYTES - index))
         == if data[0] < 128 then Ok((Raised(value, index, data[0]), data[1..]))
            else Resume(Raised(value, index, data[0]), index + 1, VarintWithin(data[1..], MAX_VARINT_BYTES - index - 1))
  {
    var higher := VarintWithin(data[1..], MAX_VARINT_BYTES - index - 1);
    if data[0] >= 128 && higher.Ok? {
      Spread(Power128(index), data[0] - 128, higher.value.0);
    }
  }

  lemma Spread(p: nat, low: nat, high: nat)
    ensures p * (low + 128 * high) == p * low + (128 * p) * high
  {
  }

  /** `read_varint`. */
  method ReadVarint(data: seq<byte>) returns (r: Result<(nat, seq<byte>), WireError>)
    ensures r == VarintOf(data)
  {
    hide VarintWithin, Resume, Raised;
    var value: nat := 0;
    ResumeEnds(0, 0, data);
    assert data[0..] == data;
    for index := 0 to MAX_VARINT_BYTES
      invariant index <= |data|
      invariant Resume(value, index, VarintWithin(data[index..], MAX_VARINT_BYTES - index)) == VarintOf(data)
    {
      ResumeEnds(value, index, data[index..]);
      if index >= |data| {
        return Err(OutOfRange);
      }
      var next := data[index];
      ResumeStep(value, index, data[index..]);
      assert data[index..][1..] == data[index + 1..];
      value := Raised(value, index, next);
      if next < 128 {
        return Ok((value, data[index + 1..]));
      }
    }
    ResumeEnds(value, MAX_VARINT_BYTES, data[MAX_VARINT_BYTES..]);
    r := Err(VarintTooLong);
  }

  /** A varint is read back exactly when it is short enough, and refused otherwise. */
  lemma {:induction false} VarintRoundTrip(value: nat, limit: nat, rest: seq<byte>)
    ensures VarintWithin(Varint(value) + rest, limit)
         == if value < Power128(limit) && limit > 0 then Ok((value, rest)) else Err(VarintTooLong)
  {
    var data := Varint(value) + rest;
    if limit > 0 {
      if value < 128 {
        assert data[1..] == rest;
        assert Power128(limit) == 128 * Power128(limit - 1);
      } else {
        VarintRoundTrip(value / 128, limit - 1, rest);
        assert data[1..] == Varint(value / 128) + rest;
        assert Power128(limit) == 128 * Power128(limit - 1);
      }
    }
  }

  /** Five bytes carry thirty-five bits. */
  lemma VarintReadBack(value: nat, rest: seq<byte>)
    ensures VarintOf(Varint(value) + rest) == if value < 0x8_0000_0000 then Ok((value, rest)) else Err(VarintTooLong)
  {
    VarintRoundTrip(value, MAX_VARINT_BYTES, rest);
    assert Power128(5) == 128 * Power128(4) == 128 * 128 * Power128(3) == 0x8_0000_0000 by {
      assert Power128(3) == 128 * Power128(2) == 128 * 128 * Power128(1);
    }
  }

  // ----------------------------------------------------------------- frames

  datatype Packet = Packet(id: nat, payload: seq<byte>)

  /** zlib, of which nothing is known but what the two functions do. */
  datatype Codec = Codec(compress: seq<byte> -> seq<byte>, decompress: seq<byte> -> Option<seq<byte>>)

  ghost predicate Inverts(codec: Codec) {
    forall d :: codec.decompress(codec.compress(d)) == Some(d)
  }

  function Body(p: Packet): seq<byte> {
    Varint(p.id) + p.payload
  }

  /** What stands behind a frame's length; a negative threshold means compression is off. */
  function Content(p: Packet, threshold: int, codec: Codec): seq<byte> {
    if threshold < 0 then Body(p)
    else if |Body(p)| >= threshold then Varint(|Body(p)|) + codec.compress(Body(p))
    else Varint(0) + Body(p)
  }

  function Frame(p: Packet, threshold: int, codec: Codec): seq<byte> {
    Varint(|Content(p, threshold, codec)|) + Content(p, threshold, codec)
  }

  function PacketOf(body: seq<byte>): Result<Packet, WireError> {
    var read := VarintOf(body);
    if read.Err? then Err(read.error) else Ok(Packet(read.value.0, read.value.1))
  }

  /** The packet inside a frame. */
  function Opened(frame: seq<byte>, threshold: int, codec: Codec): Result<Packet, WireError> {
    if threshold < 0 then PacketOf(frame)
    else
      var read := VarintOf(frame);
      if read.Err? then Err(read.error)
      else if read.value.0 == 0 then PacketOf(read.value.1)
      else
        var body := codec.decompress(read.value.1);
        if body.None? then Err(BadCompression) else PacketOf(body.value)
  }

  /** A stream that ends inside a length ends the stream; a buffer would be out of range. */
  function LengthOf(stream: seq<byte>): Result<(nat, seq<byte>), WireError> {
    if VarintOf(stream) == Err(OutOfRange) then Err(EndOfStream) else VarintOf(stream)
  }

  /** The next packet of a stream and what follows its frame. */
  function Received(stream: seq<byte>, threshold: int, codec: Codec): (r: Result<(Packet, seq<byte>), WireError>)
    ensures r.Ok? ==> |r.value.1| < |stream|
  {
    var length := LengthOf(stream);
    if length.Err? then Err(length.error)
    else
      var (count, rest) := length.value;
      if |rest| < count then Err(EndOfStream)
      else
        var packet := Opened(rest[..count], threshold, codec);
        if packet.Err? then Err(packet.error) else Ok((packet.value, rest[count..]))
  }

  /** What reading a length leaves: an endless one costs five bytes, an unfinished one all there are. */
  function BehindLength(stream: seq<byte>): seq<byte> {
    if LengthOf(stream).Ok? then LengthOf(stream).value.1
    else stream[if |stream| < MAX_VARINT_BYTES then |stream| else MAX_VARINT_BYTES..]
  }

  /** What a call of `receive` leaves, an error included: a frame that is all there is consumed whatever is in it. */
  function Rest(stream: seq<byte>): seq<byte> {
    var rest := BehindLength(stream);
    if LengthOf(stream).Ok? && LengthOf(stream).value.0 <= |rest| then rest[LengthOf(stream).value.0..] else rest
  }

  // ------------------------------------------------------------- the connection

  function Joined(chunks: seq<seq<byte>>): seq<byte> {
    if chunks == [] then [] else chunks[0] + Joined(chunks[1..])
  }

  /** The peer's bytes, in the chunks `recv` will return them in; none left means it closed. */
  class Socket {
    var pending: seq<seq<byte>>
    var sent: seq<byte>

    /** `recv` answers with no bytes only when the peer has closed. */
    ghost predicate Valid()
      reads this
    {
      forall i :: 0 <= i < |pending| ==> pending[i] != []
    }

    constructor (chunks: seq<seq<byte>>)
      requires forall i :: 0 <= i < |chunks| ==> chunks[i] != []
      ensures Valid() && pending == chunks && sent == []
    {
      pending, sent := chunks, [];
    }

    method Recv() returns (chunk: seq<byte>)
      requires Valid()
      modifies this`pending
      ensures Valid()
      ensures chunk + Joined(pending) == Joined(old(pending))
      ensures chunk == [] <==> old(pending) == []
      ensures old(pending) != [] ==> pending == old(pending)[1..]
    {
      if pending == [] {
        chunk := [];
      } else {
        chunk := pending[0];
        pending := pending[1..];
      }
    }

    method SendAll(data: seq<byte>)
      modifies this`sent
      ensures sent == old(sent) + data
    {
      sent := sent + data;
    }
  }

  class Connection {
    const sock: Socket
    const codec: Codec
    var buffer: seq<byte>
    var threshold: int

    constructor (sock: Socket, codec: Codec)
      ensures this.sock == sock && this.codec == codec && buffer == [] && threshold == -1
    {
      this.sock, this.codec, buffer, threshold := sock, codec, [], -1;
    }

    /** Everything not yet received, however it is split between the buffer and the chunks to come. */
    ghost function Stream(): seq<byte>
      reads this, sock
    {
      buffer + Joined(sock.pending)
    }

    /** `_fill`: true when the peer closed before `count` bytes were there. */
    method Fill(count: nat) returns (closed: bool)
      requires sock.Valid()
      modifies this`buffer, sock`pending
      ensures sock.Valid() && Stream() == old(Stream())
      ensures closed <==> |Stream()| < count
      ensures !closed ==> |buffer| >= count
    {
      ghost var stream := Stream();
      while |buffer| < count
        invariant sock.Valid() && Stream() == stream
        decreases |sock.pending|
      {
        ghost var chunks := sock.pending;
        var chunk := sock.Recv();
        if chunk == [] {
          assert Stream() == buffer;
          return true;
        }
        assert buffer + (chunk + Joined(sock.pending)) == (buffer + chunk) + Joined(sock.pending);
        buffer := buffer + chunk;
      }
      closed := false;
    }

    /** `_read_varint_from_stream`. */
    method ReadVarintFromStream() returns (r: Result<nat, WireError>)
      requires sock.Valid()
      modifies this`buffer, sock`pending
      ensures sock.Valid()
      ensures var read := LengthOf(old(Stream()));
              r == (if read.Err? then Err(read.error) else Ok(read.value.0))
      ensures Stream() == BehindLength(old(Stream()))
    {
      hide VarintWithin, Resume, Raised;
      var value: nat := 0;
      ghost var stream := Stream();
      ResumeEnds(0, 0, stream);
      for index := 0 to MAX_VARINT_BYTES
        invariant sock.Valid()
        invariant index <= |stream| && Stream() == stream[index..]
        invariant Resume(value, index, VarintWithin(Stream(), MAX_VARINT_BYTES - index)) == VarintOf(stream)
      {
        ResumeEnds(value, index, Stream());
        var closed := Fill(1);
        if closed {
          return Err(EndOfStream);
        }
        ResumeStep(value, index, Stream());
        var next := buffer[0];
        assert Stream()[1..] == buffer[1..] + Joined(sock.pending) && Stream()[0] == next;
        buffer := buffer[1..];
        value := Raised(value, index, next);
        if next < 128 {
          return Ok(value);
        }
      }
      ResumeEnds(value, MAX_VARINT_BYTES, Stream());
      r := Err(VarintTooLong);
    }

    /** `send`. */
    method Send(p: Packet)
      modifies sock`sent
      ensures sock.sent == old(sock.sent) + Frame(p, threshold, codec)
    {
      var id := WriteVarint(p.id);
      var body := id + p.payload;
      if threshold < 0 {
        var length := WriteVarint(|body|);
        sock.SendAll(length + body);
        return;
      }
      var content;
      if |body| >= threshold {
        var full := WriteVarint(|body|);
        content := full + codec.compress(body);
      } else {
        var none := WriteVarint(0);
        content := none + body;
      }
      var length := WriteVarint(|content|);
      sock.SendAll(length + content);
    }

    /** `receive`. */
    method Receive() returns (r: Result<Packet, WireError>)
      requires sock.Valid()
      modifies this`buffer, sock`pending
      ensures sock.Valid()
      ensures var next := Received(old(Stream()), threshold, codec);
              r == (if next.Err? then Err(next.error) else Ok(next.value.0))
      ensures Stream() == Rest(old(Stream()))
    {
      hide VarintOf;
      var length := ReadVarintFromStream();
      if length.Err? {
        return Err(length.error);
      }
      var closed := Fill(length.value);
      if closed {
        return Err(EndOfStream);
      }
      assert Stream()[..length.value] == buffer[..length.value];
      assert Stream()[length.value..] == buffer[length.value..] + Joined(sock.pending);
      var frame := buffer[..length.value];
      buffer := buffer[length.value..];
      if threshold >= 0 {
        var uncompressed := ReadVarint(frame);
        if uncompressed.Err? {
          return Err(uncompressed.error);
        }
        frame := uncompressed.value.1;
        if uncompressed.value.0 > 0 {
          var body := codec.decompress(frame);
          if body.None? {
            return Err(BadCompression);
          }
          frame := body.value;
        }
      }
      var id := ReadVarint(frame);
      if id.Err? {
        return Err(id.error);
      }
      r := Ok(Packet(id.value.0, id.value.1));
    }

    /** Successive calls of `receive`, the threshold having been set anew before each. */
    method ReceiveAll(thresholds: seq<int>) returns (r: Result<seq<Packet>, WireError>)
      requires sock.Valid()
      modifies this`buffer, this`threshold, sock`pending
      ensures sock.Valid()
      ensures var all := ReceivedInTurn(old(Stream()), thresholds, codec);
              if all.Err? then r == Err(all.error) else r == Ok(all.value.0) && Stream() == all.value.1
    {
      hide Received, Rest;
      ghost var all := ReceivedInTurn(Stream(), thresholds, codec);
      var packets: seq<Packet> := [];
      BehindNothing(all);
      assert thresholds[0..] == thresholds;
      for i := 0 to |thresholds|
        invariant sock.Valid()
        invariant Behind(packets, ReceivedInTurn(Stream(), thresholds[i..], codec)) == all
      {
        OneReceived(packets, Stream(), thresholds[i..], codec);
        assert thresholds[i..][1..] == thresholds[i + 1..];
        threshold := thresholds[i];
        var packet := Receive();
        if packet.Err? {
          return Err(packet.error);
        }
        packets := packets + [packet.value];
      }
      assert packets + [] == packets;
      r := Ok(packets);
    }
  }

  /** Puts the packets already received in front of those still to come. */
  function Behind(packets: seq<Packet>, others: Result<(seq<Packet>, seq<byte>), WireError>): Result<(seq<Packet>, seq<byte>), WireError> {
    if others.Err? then others else Ok((packets + others.value.0, others.value.1))
  }

  lemma BehindNothing(others: Result<(seq<Packet>, seq<byte>), WireError>)
    ensures Behind([], others) == others
  {
    if others.Ok? {
      assert [] + others.value.0 == others.value.0;
    }
  }

  lemma OneReceived(packets: seq<Packet>, stream: seq<byte>, thresholds: seq<int>, codec: Codec)
    requires thresholds != []
    ensures var first := Received(stream, thresholds[0], codec);
            Behind(packets, ReceivedInTurn(stream, thresholds, codec))
            == if first.Err? then Err(first.error)
               else Behind(packets + [first.value.0], ReceivedInTurn(Rest(stream), thresholds[1..], codec))
  {
    var first := Received(stream, thresholds[0], codec);
    if first.Ok? {
      assert Rest(stream) == first.value.1;
      var others := ReceivedInTurn(first.value.1, thresholds[1..], codec);
      if others.Ok? {
        assert packets + ([first.value.0] + others.value.0) == (packets + [first.value.0]) + others.value.0;
      }
    }
  }

  // ----------------------------------------------------- what arrives is what was sent

  /** The id and the lengths written before it fit the five bytes a reader allows. */
  predicate Fits(p: Packet, threshold: int, codec: Codec) {
    && p.id < 0x8_0000_0000
    && |Content(p, threshold, codec)| < 0x8_0000_0000
    && (0 <= threshold <= |Body(p)| ==> |Body(p)| < 0x8_0000_0000)
  }

  lemma BodyReadBack(p: Packet)
    ensures PacketOf(Body(p)) == if p.id < 0x8_0000_0000 then Ok(p) else Err(VarintTooLong)
  {
    VarintReadBack(p.id, p.payload);
  }

  lemma ContentOpens(p: Packet, threshold: int, codec: Codec)
    requires Inverts(codec) && |Content(p, threshold, codec)| < 0x8_0000_0000
    ensures Opened(Content(p, threshold, codec), threshold, codec)
         == if Fits(p, threshold, codec) then Ok(p) else Err(VarintTooLong)
  {
    hide VarintOf, Varint;
    BodyReadBack(p);
    if threshold >= 0 {
      VarintReadBack(|Body(p)|, codec.compress(Body(p)));
      VarintReadBack(0, Body(p));
    }
  }

  /** A packet is received as it was sent exactly when it fits; one that does not fit is refused. */
  lemma ReceivedAsSent(p: Packet, threshold: int, codec: Codec, rest: seq<byte>)
    requires Inverts(codec)
    ensures Received(Frame(p, threshold, codec) + rest, threshold, codec)
         == if Fits(p, threshold, codec) then Ok((p, rest)) else Err(VarintTooLong)
  {
    hide VarintOf, Varint, Content, Opened;
    var content := Content(p, threshold, codec);
    assert Frame(p, threshold, codec) + rest == Varint(|content|) + (content + rest);
    VarintReadBack(|content|, content + rest);
    if |content| < 0x8_0000_0000 {
      ContentOpens(p, threshold, codec);
      assert (content + rest)[..|content|] == content && (content + rest)[|content|..] == rest;
    }
  }

  /** A packet and the threshold both ends were at when it passed: login turns compression on mid-stream. */
  datatype Sending = Sending(packet: Packet, threshold: int)

  function Frames(all: seq<Sending>, codec: Codec): seq<byte> {
    if all == [] then [] else Frame(all[0].packet, all[0].threshold, codec) + Frames(all[1..], codec)
  }

  /** The packets that successive calls of `receive` return, at these thresholds, and what is then left. */
  function ReceivedInTurn(stream: seq<byte>, thresholds: seq<int>, codec: Codec): Result<(seq<Packet>, seq<byte>), WireError>
    decreases |thresholds|
  {
    if thresholds == [] then Ok(([], stream))
    else
      var first := Received(stream, thresholds[0], codec);
      if first.Err? then Err(first.error)
      else
        var others := ReceivedInTurn(first.value.1, thresholds[1..], codec);
        if others.Err? then others else Ok(([first.value.0] + others.value.0, others.value.1))
  }

  function Packets(all: seq<Sending>): seq<Packet> {
    seq(|all|, i requires 0 <= i < |all| => all[i].packet)
  }

  function Thresholds(all: seq<Sending>): seq<int> {
    seq(|all|, i requires 0 <= i < |all| => all[i].threshold)
  }

  /** Read back in turn, the packets sent come out in order and nothing else is consumed. */
  lemma {:induction false} PacketsArrive(all: seq<Sending>, codec: Codec, tail: seq<byte>)
    requires Inverts(codec)
    requires forall i :: 0 <= i < |all| ==> Fits(all[i].packet, all[i].threshold, codec)
    ensures ReceivedInTurn(Frames(all, codec) + tail, Thresholds(all), codec) == Ok((Packets(all), tail))
    decreases |all|
  {
    hide Received, Frame, Fits;
    if all == [] {
      assert Frames(all, codec) + tail == tail;
    } else {
      var (first, others) := (all[0], Frames(all[1..], codec) + tail);
      assert Frames(all, codec) + tail == Frame(first.packet, first.threshold, codec) + others;
      ReceivedAsSent(first.packet, first.threshold, codec, others);
      PacketsArrive(all[1..], codec, tail);
      assert Thresholds(all)[1..] == Thresholds(all[1..]) && Packets(all) == [first.packet] + Packets(all[1..]);
    }
  }

  /** The encodings the protocol's documentation gives as samples. */
  lemma SampleVarints()
    ensures Varint(0) == [0x00] && Varint(127) == [0x7f] && Varint(128) == [0x80, 0x01] && Varint(255) == [0xff, 0x01]
    ensures Varint(25565) == [0xdd, 0xc7, 0x01] && Varint(2097151) == [0xff, 0xff, 0x7f]
  {
    assert Varint(199) == [0xc7, 0x01] && Varint(16383) == [0xff, 0x7f];
  }

  /** A frame says how long its body is, and holds it compressed, from the threshold on; below it holds the body as it is. */
  lemma CompressedFromThreshold(p: Packet, threshold: int, codec: Codec, rest: seq<byte>)
    requires |Body(p)| < 0x8_0000_0000
    ensures threshold < 0 ==> Frame(p, threshold, codec) == Varint(|Body(p)|) + Body(p)
    ensures 0 <= threshold ==>
              VarintOf(Content(p, threshold, codec))
              == Ok(if |Body(p)| >= threshold then (|Body(p)|, codec.compress(Body(p))) else (0, Body(p)))
    ensures VarintOf(Frame(p, threshold, codec) + rest)
         == if |Content(p, threshold, codec)| < 0x8_0000_0000 then Ok((|Content(p, threshold, codec)|, Content(p, threshold, codec) + rest))
            else Err(VarintTooLong)
  {
    hide VarintOf, Varint, Body;
    VarintReadBack(|Body(p)|, codec.compress(Body(p)));
    VarintReadBack(0, Body(p));
    var content := Content(p, threshold, codec);
    VarintReadBack(|content|, content + rest);
    assert Frame(p, threshold, codec) + rest == Varint(|content|) + (content + rest);
  }
}
