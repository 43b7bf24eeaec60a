/** Messages over a byte stream: each is sent as its length in four bytes, most significant first, and
    its bytes. Writes and reads move as much as the system likes, at least one byte. */
module TcpSockets {
  import opened Wrappers
  import opened Words
  import opened Buffers

  datatype Error = SystemError | PeerShutdown

  // ----- Frames -----

  /** The 32-bit length in network order; a longer length loses its upper part. */
  function SizeBytes(n: nat): (s: seq<Byte>)
    ensures |s| == 4
  {
    hide ByteOf;
    [ByteOf(n / 0x100_0000 % 256), ByteOf(n / 0x1_0000 % 256), ByteOf(n / 0x100 % 256), ByteOf(n % 256)]
  }

  function SizeValue(s: seq<Byte>): nat
    requires |s| == 4
  {
    Value([s[3], s[2], s[1], s[0]])
  }

  lemma ValueOfFour(a: Byte, b: Byte, c: Byte, d: Byte)
    ensures Value([d, c, b, a]) == d as nat + 0x100 * (c as nat) + 0x1_0000 * (b as nat) + 0x100_0000 * (a as nat)
  {
    assert [d, c, b, a][1..] == [c, b, a] && [c, b, a][1..] == [b, a] && [b, a][1..] == [a] && [a][1..] == [];
    assert Value([a]) == a as nat;
    assert Value([b, a]) == b as nat + 0x100 * Value([a]);
    assert Value([c, b, a]) == c as nat + 0x100 * Value([b, a]);
  }

  lemma SizeRoundTrip(n: nat)
    ensures SizeValue(SizeBytes(n)) == n % 0x1_0000_0000
  {
    hide ByteOf, Value;
    var s := SizeBytes(n);
    ValueOfFour(s[0], s[1], s[2], s[3]);
    SizeDigits(n);
  }

  lemma SizeDigits(n: nat)
    ensures n % 0x100 + 0x100 * (n / 0x100 % 0x100) + 0x1_0000 * (n / 0x1_0000 % 0x100) + 0x100_0000 * (n / 0x100_0000 % 0x100)
            == n % 0x1_0000_0000
  {
    var q := n / 0x100;
    TwoBytesOff(n);
    TwoBytesOff(q);
    assert q / 0x1_0000 == n / 0x100_0000 by {
      ThreeBytesOff(n);
    }
    DigitStep(q / 0x100, 0x100);
    DigitStep(q, 0x1_0000);
    DigitStep(n, 0x100_0000);
  }

  lemma ThreeBytesOff(n: nat)
    ensures n / 0x100 / 0x1_0000 == n / 0x100_0000
  {
    var q := n / 0x100;
    assert n == 0x100 * q + n % 0x100 && q == 0x1_0000 * (q / 0x1_0000) + q % 0x1_0000;
    Remainder(n, 0x100_0000, q / 0x1_0000, n % 0x100 + 0x100 * (q % 0x1_0000));
  }

  function Frame(message: seq<Byte>): seq<Byte> {
    SizeBytes(|message|) + message
  }

  /** On the wire a message is behind its length, whose most significant byte comes first. */
  lemma FrameIs(message: seq<Byte>)
    ensures var s := Frame(message);
            && |s| == 4 + |message| && s[4..] == message
            && 0x100_0000 * (s[0] as nat) + 0x1_0000 * (s[1] as nat) + 0x100 * (s[2] as nat) + s[3] as nat == |message| % 0x1_0000_0000
  {
    hide SizeBytes;
    var s := SizeBytes(|message|);
    SizeRoundTrip(|message|);
    assert SizeValue(s) == Value([s[3], s[2], s[1], s[0]]);
    ValueOfFour(s[0], s[1], s[2], s[3]);
    hide Value, SizeValue;
    assert Frame(message)[..4] == s && Frame(message)[4..] == message;
  }

  /** The first message of a stream and what follows it. A read of no bytes is taken for the end of the
      stream, so an empty message cannot be received. */
  function Unframe(s: seq<Byte>): Result<(seq<Byte>, seq<Byte>), Error> {
    if |s| < 4 then Failure(PeerShutdown)
    else
      var size := SizeValue(s[..4]);
      if size == 0 || |s| - 4 < size then Failure(PeerShutdown)
      else Success((s[4..4 + size], s[4 + size..]))
  }

  /** Exactly the messages of at least one byte and a 32-bit length come back, whatever follows them. */
  lemma FramingRoundTrip(message: seq<Byte>, rest: seq<Byte>)
    ensures Unframe(Frame(message) + rest) == Success((message, rest)) <==> 0 < |message| < 0x1_0000_0000
  {
    hide SizeBytes, SizeValue;
    SizeRoundTrip(|message|);
    var s := Frame(message) + rest;
    assert s[..4] == SizeBytes(|message|);
    assert s[4..] == message + rest;
    var size := |message| % 0x1_0000_0000;
    if size == |message| {
      assert s[4..4 + size] == message && s[4 + size..] == rest;
    }
  }

  /** What arrives later does not change a message already complete. */
  lemma LaterBytesDoNotMatter(s: seq<Byte>, later: seq<Byte>)
    requires Unframe(s).Success?
    ensures Unframe(s + later) == Success((Unframe(s).value.0, Unframe(s).value.1 + later))
  {
    hide SizeValue;
    assert (s + later)[..4] == s[..4];
    var size := SizeValue(s[..4]);
    assert (s + later)[4..4 + size] == s[4..4 + size];
    assert (s + later)[4 + size..] == s[4 + size..] + later;
  }

  predicate Sendable(messages: seq<seq<Byte>>) {
    forall i | 0 <= i < |messages| :: 0 < |messages[i]| < 0x1_0000_0000
  }

  function FrameAll(messages: seq<seq<Byte>>): seq<Byte> {
    if messages == [] then [] else Frame(messages[0]) + FrameAll(messages[1..])
  }

  lemma {:induction false} FrameAllAppend(messages: seq<seq<Byte>>, message: seq<Byte>)
    ensures FrameAll(messages + [message]) == FrameAll(messages) + Frame(message)
  {
    hide Frame;
    if messages == [] {
      assert [message][1..] == [];
    } else {
      assert (messages + [message])[1..] == messages[1..] + [message];
      FrameAllAppend(messages[1..], message);
    }
  }

  /** The first message of several. */
  lemma UnframeFirst(messages: seq<seq<Byte>>, rest: seq<Byte>)
    requires Sendable(messages) && messages != []
    ensures Unframe(FrameAll(messages) + rest) == Success((messages[0], FrameAll(messages[1..]) + rest))
  {
    hide Unframe, Frame;
    assert FrameAll(messages) + rest == Frame(messages[0]) + (FrameAll(messages[1..]) + rest);
    FramingRoundTrip(messages[0], FrameAll(messages[1..]) + rest);
  }

  // ----- The stream and its two ends -----

  /** One direction of a connection: the bytes written and not yet read. A read of an empty stream gives
      nothing, as after the peer's shutdown; a faulty stream may fail at any call. */
  class Stream {
    var bytes: seq<Byte>
    const faulty: bool

    constructor (faulty: bool)
      ensures bytes == [] && this.faulty == faulty
    {
      this.bytes, this.faulty := [], faulty;
    }

    /** The system's write: some of the bytes, at least one if there are any. */
    method WriteSome(buffer: seq<Byte>) returns (sent: Option<nat>)
      modifies this
      ensures sent.None? ==> faulty && bytes == old(bytes)
      ensures sent.Some? ==> sent.value <= |buffer| && (buffer != [] ==> sent.value > 0)
      ensures sent.Some? ==> bytes == old(bytes) + buffer[..sent.value]
    {
      if faulty {
        if * {
          return None;
        }
      }
      var n :| 0 <= n <= |buffer| && (buffer != [] ==> n > 0);
      bytes := bytes + buffer[..n];
      sent := Some(n);
    }

    /** The system's read: some of the bytes wanted, none only at the end or when none are wanted. */
    method ReadSome(wanted: nat) returns (piece: Option<seq<Byte>>)
      modifies this
      ensures piece.None? ==> faulty
      ensures piece.Some? ==> |piece.value| <= wanted && old(bytes) == piece.value + bytes
      ensures piece == Some([]) <==> piece.Some? && (wanted == 0 || old(bytes) == [])
    {
      if faulty {
        if * {
          return None;
        }
      }
      var n :| 0 <= n <= |bytes| && n <= wanted && (n == 0 <==> wanted == 0 || bytes == []);
      piece := Some(bytes[..n]);
      bytes := bytes[n..];
    }
  }

  class TCPSocket {
    const incoming: Stream
    const outgoing: Stream

    constructor (incoming: Stream, outgoing: Stream)
      ensures this.incoming == incoming && this.outgoing == outgoing
    {
      this.incoming, this.outgoing := incoming, outgoing;
    }

    method SendBytes(buffer: seq<Byte>) returns (error: Option<Error>)
      modifies outgoing
      ensures error.None? ==> outgoing.bytes == old(outgoing.bytes) + buffer
      ensures error.Some? ==> outgoing.faulty && exists n | 0 <= n <= |buffer| :: outgoing.bytes == old(outgoing.bytes) + buffer[..n]
    {
      var done := 0;
      var again := true;
      while again
        invariant 0 <= done <= |buffer| && (!again ==> done == |buffer|)
        invariant outgoing.bytes == old(outgoing.bytes) + buffer[..done]
        decreases again, |buffer| - done
      {
        var sent := outgoing.WriteSome(buffer[done..]);
        if sent.None? {
          return Some(SystemError);
        }
        assert buffer[..done] + buffer[done..][..sent.value] == buffer[..done + sent.value];
        done := done + sent.value;
        again := done < |buffer|;
      }
      error := None;
    }

    /** A message behind its length. */
    method Send(message: seq<Byte>) returns (error: Option<Error>)
      modifies outgoing
      ensures error.None? ==> outgoing.bytes == old(outgoing.bytes) + Frame(message)
      ensures error.Some? ==> outgoing.faulty
    {
      hide SizeBytes;
      error := SendBytes(SizeBytes(|message|));
      if error.None? {
        error := SendBytes(message);
      }
    }

    /** Fills the front of a buffer. It fails when the stream ends first, and always when nothing is wanted. */
    method ReceiveBytes(message: Buffer, wanted: nat) returns (error: Option<Error>)
      requires message.Valid() && wanted <= message.capacity
      modifies incoming, message`data
      ensures message.Valid()
      ensures error.None? ==> 0 < wanted <= |old(incoming.bytes)|
      ensures error.None? ==> message.data == old(incoming.bytes)[..wanted] + old(message.data)[wanted..]
      ensures error.None? ==> incoming.bytes == old(incoming.bytes)[wanted..]
      ensures error == Some(SystemError) ==> incoming.faulty
      ensures error == Some(PeerShutdown) ==> wanted == 0 || |old(incoming.bytes)| < wanted
    {
      ghost var was := message.data;
      ghost var stream := incoming.bytes;
      var done := 0;
      var again := true;
      while again
        invariant 0 <= done <= wanted && done <= |stream|
        invariant if again then wanted == 0 || done < wanted else 0 < done == wanted
        invariant incoming.bytes == stream[done..]
        invariant message.data == stream[..done] + was[done..]
        decreases again, wanted - done
      {
        var piece := incoming.ReadSome(wanted - done);
        if piece.None? {
          return Some(SystemError);
        }
        if piece.value == [] {
          return Some(PeerShutdown);
        }
        PieceArrives(stream, was, done, piece.value, incoming.bytes);
        message.data := message.data[..done] + piece.value + message.data[done + |piece.value|..];
        done := done + |piece.value|;
        again := done < wanted;
      }
      error := None;
    }

    method ReceiveMessageSize() returns (size: Result<nat, Error>)
      modifies incoming
      ensures size.Success? ==> |old(incoming.bytes)| >= 4 && size.value == SizeValue(old(incoming.bytes)[..4])
      ensures size.Success? ==> incoming.bytes == old(incoming.bytes)[4..]
      ensures size == Failure(SystemError) ==> incoming.faulty
      ensures size == Failure(PeerShutdown) ==> |old(incoming.bytes)| < 4
    {
      hide SizeValue;
      var buffer := new Buffer(4);
      var error := ReceiveBytes(buffer, 4);
      if error.Some? {
        return Failure(error.value);
      }
      assert buffer.data == old(incoming.bytes)[..4];
      size := Success(SizeValue(buffer.data));
    }

    /** A message into a buffer, which grows when it has to. */
    method Receive(message: Buffer) returns (error: Option<Error>)
      requires message.Valid()
      modifies incoming, message
      ensures message.Valid()
      ensures error.None? ==> Unframe(old(incoming.bytes)) == Success((message.Contents(), incoming.bytes))
      ensures error.None? ==> message.capacity == if old(message.capacity) < message.actualSize then message.actualSize else old(message.capacity)
      ensures error == Some(PeerShutdown) ==> Unframe(old(incoming.bytes)).Failure?
      ensures error == Some(SystemError) ==> incoming.faulty
    {
      hide SizeValue;
      var size := ReceiveMessageSize();
      if size.Failure? {
        return Some(size.error);
      }
      if message.capacity < size.value {
        message.Resize(size.value);
      }
      error := ReceiveBytes(message, size.value);
      if error.None? {
        var ok := message.SetSize(size.value);
        assert message.Contents() == old(incoming.bytes)[4..][..size.value] == old(incoming.bytes)[4..4 + size.value];
        assert incoming.bytes == old(incoming.bytes)[4 + size.value..];
      }
    }

    /** As many messages as there are, one after the other into the same buffer. */
    method ReceiveAll(n: nat, ghost sent: seq<seq<Byte>>, ghost rest: seq<Byte>) returns (error: Option<Error>, messages: seq<seq<Byte>>)
      requires !incoming.faulty && n == |sent| && Sendable(sent) && incoming.bytes == FrameAll(sent) + rest
      modifies incoming
      ensures error == None && messages == sent && incoming.bytes == rest
    {
      hide Unframe, Frame, Sendable;
      messages := [];
      var message := new Buffer(0);
      for i := 0 to n
        invariant fresh(message) && message.Valid()
        invariant messages == sent[..i] && incoming.bytes == FrameAll(sent[i..]) + rest
      {
        SendableRest(sent, i);
        UnframeFirst(sent[i..], rest);
        error := Receive(message);
        match error {
          case None =>
          case Some(SystemError) => assert false;
          case Some(PeerShutdown) => assert false;
        }
        assert sent[..i + 1] == sent[..i] + [sent[i]];
        messages := messages + [message.Contents()];
      }
      error := None;
    }
  }

  lemma SendableRest(messages: seq<seq<Byte>>, i: nat)
    requires i < |messages| && Sendable(messages)
    ensures Sendable(messages[i..]) && messages[i..] != [] && messages[i..][0] == messages[i] && messages[i..][1..] == messages[i + 1..]
  {
  }

  lemma PieceArrives(stream: seq<Byte>, was: seq<Byte>, done: nat, piece: seq<Byte>, left: seq<Byte>)
    requires done <= |stream| && stream[done..] == piece + left && done + |piece| <= |was|
    ensures done + |piece| <= |stream| && left == stream[done + |piece|..]
    ensures (stream[..done] + was[done..])[..done] + piece + (stream[..done] + was[done..])[done + |piece|..]
            == stream[..done + |piece|] + was[done + |piece|..]
  {
    assert piece == stream[done..][..|piece|] == stream[done..done + |piece|];
    assert left == stream[done..][|piece|..];
    assert stream[..done] + piece == stream[..done + |piece|];
    assert (stream[..done] + was[done..])[..done] == stream[..done];
    assert (stream[..done] + was[done..])[done + |piece|..] == was[done + |piece|..];
  }

  /** Messages sent over a connection that holds nothing come out at its other end, in order and with
      nothing left over. */
  method SendThenReceive(sender: TCPSocket, receiver: TCPSocket, messages: seq<seq<Byte>>) returns (received: seq<seq<Byte>>)
    requires sender.outgoing == receiver.incoming && !sender.outgoing.faulty && sender.outgoing.bytes == []
    requires forall i | 0 <= i < |messages| :: 1 <= |messages[i]| <= 0xffff_ffff
    modifies sender.outgoing
    ensures received == messages && receiver.incoming.bytes == []
  {
    assert Sendable(messages);
    hide Sendable, Frame;
    for i := 0 to |messages|
      invariant sender.outgoing.bytes == FrameAll(messages[..i])
    {
      FrameAllAppend(messages[..i], messages[i]);
      assert messages[..i + 1] == messages[..i] + [messages[i]];
      var error := sender.Send(messages[i]);
    }
    assert messages[..|messages|] == messages;
    var error;
    error, received := receiver.ReceiveAll(|messages|, messages, []);
  }
}
