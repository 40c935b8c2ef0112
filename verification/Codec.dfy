/** Length-prefixed messages over a byte stream (arale/examples/asio/chat/Codec.h). */
module Codec {
  import opened CInt
  import opened Bytes
  import B = Buffer

  const HEADER: nat := 4  // sizeof(int32_t)
  const MAX_LENGTH := 65535

  /** What a delivery leaves: the messages called back, the bytes kept, and whether the header at their
      front is invalid, in which case the connection was shut down. */
  datatype Decoded = Decoded(messages: seq<seq<byte>>, rest: seq<byte>, invalid: bool)

  /** What the loop in `onMessage` finds at the front of the buffer. */
  datatype Front = Incomplete | Invalid | Whole(len: nat)

  function FrontOf(s: seq<byte>): (f: Front)
    ensures f.Whole? ==> HEADER + f.len <= |s|
  {
    if |s| < HEADER then Incomplete
    else
      var len := Decode(s[..HEADER]);
      if len > MAX_LENGTH || len < 0 then Invalid
      else if |s| >= len + HEADER then Whole(len)
      else Incomplete
  }

  function DecodeStream(s: seq<byte>): Decoded {
    match FrontOf(s)
    case Incomplete => Decoded([], s, false)
    case Invalid => Decoded([], s, true)
    case Whole(len) =>
      var d := DecodeStream(s[HEADER + len..]);
      d.(messages := [s[HEADER..HEADER + len]] + d.messages)
  }

  /** `d`, after the messages called back before. */
  function After(before: seq<seq<byte>>, d: Decoded): Decoded {
    d.(messages := before + d.messages)
  }

  lemma AfterAfter(before: seq<seq<byte>>, more: seq<seq<byte>>, d: Decoded)
    ensures After(before, After(more, d)) == After(before + more, d)
    ensures After([], d) == d
  {
    assert before + (more + d.messages) == before + more + d.messages;
    assert [] + d.messages == d.messages;
  }

  lemma FrontIs(s: seq<byte>)
    ensures |s| < HEADER ==> FrontOf(s) == Incomplete
    ensures |s| >= HEADER ==>
              var len := Decode(s[..HEADER]);
              FrontOf(s) == if len > MAX_LENGTH || len < 0 then Invalid
                            else if |s| >= len + HEADER then Whole(len)
                            else Incomplete
  {
  }

  /** A turn of the loop that takes a message off the buffer. */
  lemma WholeTurn(before: seq<seq<byte>>, s: seq<byte>, len: nat)
    requires FrontOf(s) == Whole(len)
    ensures After(before, DecodeStream(s)) ==
            After(before + [s[HEADER..HEADER + len]], DecodeStream(s[HEADER + len..]))
  {
    AfterAfter(before, [s[HEADER..HEADER + len]], DecodeStream(s[HEADER + len..]));
  }

  /** The turn that ends the loop. */
  lemma LastTurn(before: seq<seq<byte>>, s: seq<byte>)
    requires !FrontOf(s).Whole?
    ensures After(before, DecodeStream(s)) == Decoded(before, s, FrontOf(s).Invalid?)
  {
  }

  class LengthHeaderCodec {
    const form: Form  // of the buffers it creates

    constructor (form: Form)
      ensures this.form == form
    {
      this.form := form;
    }

    method OnMessage(buf: B.Buffer) returns (messages: seq<seq<byte>>, shutdown: bool)
      requires buf.Valid()
      modifies buf`readIndex, buf`writeIndex
      ensures buf.Valid()
      ensures Decoded(messages, buf.Contents(), shutdown) == DecodeStream(old(buf.Contents()))
    {
      hide Decode, DecodeStream, After, FrontOf;
      messages, shutdown := [], false;
      ghost var input := buf.Contents();
      AfterAfter([], [], DecodeStream(input));
      while buf.ReadableBytes() >= HEADER
        invariant buf.Valid()
        invariant After(messages, DecodeStream(buf.Contents())) == DecodeStream(input)
        decreases buf.ReadableBytes()
      {
        ghost var front := buf.Contents();
        FrontIs(front);
        var len := buf.PeekInt(HEADER);
        if len > MAX_LENGTH || len < 0 {
          shutdown := true;
          break;
        } else if buf.ReadableBytes() >= len + HEADER {
          WholeTurn(messages, front, len);
          var msg := TakeMessage(buf, len);
          messages := messages + [msg];
        } else {
          break;
        }
      }
      FrontIs(buf.Contents());
      LastTurn(messages, buf.Contents());
    }

    /** The branch of `onMessage` that reads one message. */
    method TakeMessage(buf: B.Buffer, len: nat) returns (msg: seq<byte>)
      requires buf.Valid() && HEADER + len <= |buf.Contents()|
      modifies buf`readIndex, buf`writeIndex
      ensures buf.Valid() && msg == old(buf.Contents())[HEADER..HEADER + len]
      ensures buf.Contents() == old(buf.Contents())[HEADER + len..]
    {
      ghost var s := buf.Contents();
      assert s[HEADER..][..len] == s[HEADER..HEADER + len] && s[HEADER..][len..] == s[HEADER + len..];
      buf.Retrieve(HEADER);
      assert buf.Contents() == s[HEADER..];
      msg := buf.RetrieveAsString(len);
    }

    /** Returns the bytes handed to the connection, or ok == false where the append ends the program. The length of a
        message is not checked. */
    method SendMessage(message: seq<byte>) returns (ok: bool, wire: seq<byte>)
      ensures ok <==> form.Intended? || !(1025 <= |message| <= 1032)
      ensures ok ==> wire == Frame(message)
    {
      hide Decode, Encode, FitsSigned;
      var buf := new B.Buffer(form);
      wire := [];
      ok := buf.Append(message);
      if ok {
        var len := CastInt(|message|);
        IntWidth(len);
        buf.PrependInt(len, HEADER);
        assert buf.Contents() == buf.Contents()[..HEADER] + buf.Contents()[HEADER..];
        wire := buf.RetrieveAsString(buf.ReadableBytes());
      }
    }
  }

  lemma IntWidth(x: int)
    requires FitsInt(x)
    ensures FitsSigned(x, HEADER)
  {
    assert Pow256(2) == 65536;
    assert Pow256(3) == 256 * Pow256(2);
    assert Pow256(4) == 256 * Pow256(3);
  }

  /** The wire form of a message; the length is cast to 32 bits. */
  function Frame(message: seq<byte>): (s: seq<byte>)
    ensures |s| == HEADER + |message|
  {
    IntWidth(CastInt(|message|));
    Encode(CastInt(|message|), HEADER) + message
  }

  function Frames(messages: seq<seq<byte>>): seq<byte> {
    if messages == [] then [] else Frame(messages[0]) + Frames(messages[1..])
  }

  /** What the receiver finds at the front: the header reads as the cast length. */
  lemma FrameHeader(message: seq<byte>, more: seq<byte>)
    ensures var s := Frame(message) + more;
            s[..HEADER] == Encode(CastInt(|message|), HEADER) && Decode(s[..HEADER]) == CastInt(|message|)
  {
    hide Decode, Encode, FitsSigned;
    IntWidth(CastInt(|message|));
    IntRoundTrip(CastInt(|message|), HEADER);
    assert (Frame(message) + more)[..HEADER] == Encode(CastInt(|message|), HEADER);
  }

  /** The receiver gives up on the frame of a message exactly when the cast length is not in 0..65535. */
  lemma RefusedExactly(message: seq<byte>, more: seq<byte>)
    ensures DecodeStream(Frame(message) + more) == Decoded([], Frame(message) + more, true)
            <==> !(0 <= CastInt(|message|) <= 65535)
  {
    hide Decode, Encode, FitsSigned, CastInt, Frame;
    FrameHeader(message, more);
  }

  /** The bytes of a frame: two zeros, the length in two bytes, and the message. */
  lemma FrameInBytes(message: seq<byte>)
    requires |message| <= 65535
    ensures Frame(message) == [0, 0, |message| / 256, |message| % 256] + message
  {
    Int32OnWire(|message|);
  }

  lemma HeaderInBytes(s: seq<byte>)
    requires |s| == 4
    ensures 0 <= Decode(s) <= 65535 <==> s[0] == 0 && s[1] == 0
    ensures s[0] == 0 && s[1] == 0 ==> Decode(s) == 256 * (s[2] as int) + s[3]
  {
    Powers();
    assert s[..3] == [s[0], s[1], s[2]] && s[..3][..2] == [s[0], s[1]] && s[..3][..2][..1] == [s[0]];
    assert s[..3][..2][..1][..0] == [];
    assert FromBigEndian(s[..3][..2][..1]) == s[0];
    assert FromBigEndian(s[..3][..2]) == 256 * (s[0] as int) + s[1];
    assert FromBigEndian(s[..3]) == 256 * (256 * (s[0] as int) + s[1]) + s[2];
  }

  /** What the receiver sees at the front of any bytes: a header is valid exactly if its first two bytes are zero. */
  lemma FrontInBytes(s: seq<byte>)
    ensures |s| < 4 ==> FrontOf(s) == Incomplete
    ensures |s| >= 4 ==>
              FrontOf(s) == if s[0] != 0 || s[1] != 0 then Invalid
                            else if |s| >= 4 + 256 * (s[2] as int) + s[3] then Whole(256 * (s[2] as int) + s[3])
                            else Incomplete
  {
    hide Decode;
    if |s| >= 4 {
      HeaderInBytes(s[..4]);
    }
  }

  /** A stream that starts with a frame decodes to its message first. */
  lemma DecodeFrame(message: seq<byte>, more: seq<byte>)
    requires |message| <= MAX_LENGTH
    ensures DecodeStream(Frame(message) + more) == After([message], DecodeStream(more))
  {
    hide Decode, Encode, FitsSigned;
    IntWidth(|message|);
    IntRoundTrip(|message|, HEADER);
    var s := Frame(message) + more;
    assert s[..HEADER] == Encode(|message|, HEADER);
    assert FrontOf(s) == Whole(|message|);
    assert s[HEADER..HEADER + |message|] == message;
    assert s[HEADER + |message|..] == more;
  }

  /** Exactly the messages of at most 65535 bytes arrive, whatever follows them on the stream. */
  lemma ArrivesExactly(message: seq<byte>, more: seq<byte>)
    ensures DecodeStream(Frame(message) + more) == After([message], DecodeStream(more)) <==> |message| <= 65535
  {
    hide DecodeStream, Frame, CastInt;
    if |message| <= MAX_LENGTH {
      DecodeFrame(message, more);
    } else if 0 <= CastInt(|message|) <= MAX_LENGTH {
      WrapsAround(message, more);
      var len := CastInt(|message|);
      assert After([message[..len]], DecodeStream(message[len..] + more)).messages[0] == message[..len];
      assert After([message], DecodeStream(more)).messages[0] == message;
    } else {
      RefusedExactly(message, more);
    }
  }

  /** A longer message whose cast length is in range: the receiver calls back only its first bytes, and goes on reading
      frames in the rest of it. */
  lemma WrapsAround(message: seq<byte>, more: seq<byte>)
    requires |message| > MAX_LENGTH && 0 <= CastInt(|message|) <= MAX_LENGTH
    ensures var len := CastInt(|message|);
            DecodeStream(Frame(message) + more) == After([message[..len]], DecodeStream(message[len..] + more))
  {
    hide Decode, Encode, FitsSigned, CastInt;
    var len := CastInt(|message|);
    var s := Frame(message) + more;
    FrameHeader(message, more);
    assert FrontOf(s) == Whole(len);
    assert s[HEADER..HEADER + len] == message[..len];
    assert s[HEADER + len..] == message[len..] + more;
  }

  /** One byte too many, and the receiver shuts the connection down. */
  lemma FirstRefused(message: seq<byte>, more: seq<byte>)
    requires |message| == 65536
    ensures DecodeStream(Frame(message) + more) == Decoded([], Frame(message) + more, true)
  {
    RefusedExactly(message, more);
  }

  /** A message of 2^32 bytes arrives as an empty one, and its bytes are read as frames. */
  lemma FirstMisread(message: seq<byte>, more: seq<byte>)
    requires |message| == 0x1_0000_0000
    ensures DecodeStream(Frame(message) + more) == After([[]], DecodeStream(message + more))
  {
    WrapsAround(message, more);
    assert CastInt(|message|) == 0;
    assert message[..0] == [] && message[0..] == message;
  }

  /** A frame that has not completely arrived stays in the buffer. */
  lemma DecodePartialFrame(message: seq<byte>, part: seq<byte>)
    requires |message| <= MAX_LENGTH && part < Frame(message)
    ensures DecodeStream(part) == Decoded([], part, false)
  {
    hide Decode, Encode, FitsSigned;
    if |part| >= HEADER {
      IntWidth(|message|);
      IntRoundTrip(|message|, HEADER);
      assert part[..HEADER] == Encode(|message|, HEADER);
    }
  }

  // ---- Deliveries ----

  lemma FrontAppend(s: seq<byte>, more: seq<byte>)
    ensures !FrontOf(s).Incomplete? ==> FrontOf(s + more) == FrontOf(s)
  {
    hide Decode;
    if |s| >= HEADER {
      assert (s + more)[..HEADER] == s[..HEADER];
    }
  }

  /** Decoding does not depend on where the stream was cut, valid or not. */
  lemma {:induction false} DecodeAppend(s: seq<byte>, more: seq<byte>)
    ensures DecodeStream(s + more) ==
            After(DecodeStream(s).messages, DecodeStream(DecodeStream(s).rest + more))
  {
    hide FrontOf;
    if FrontOf(s).Whole? {
      FrontAppend(s, more);
      var len := FrontOf(s).len;
      var msg, tail := s[HEADER..HEADER + len], s[HEADER + len..];
      assert (s + more)[HEADER + len..] == tail + more;
      assert (s + more)[HEADER..HEADER + len] == msg;
      DecodeAppend(tail, more);
      AfterAfter([msg], DecodeStream(tail).messages, DecodeStream(DecodeStream(tail).rest + more));
    } else {
      AfterAfter([], [], DecodeStream(s + more));
    }
  }

  /** One onMessage call per delivered piece, each after the piece was added to what the last one kept. */
  function Deliver(kept: seq<byte>, pieces: seq<seq<byte>>): Decoded
    decreases |pieces|
  {
    if pieces == [] then DecodeStream(kept)
    else
      var d := DecodeStream(kept + pieces[0]);
      After(d.messages, Deliver(d.rest, pieces[1..]))
  }

  lemma {:induction false} DeliverIsDecode(kept: seq<byte>, pieces: seq<seq<byte>>)
    ensures Deliver(kept, pieces) == DecodeStream(kept + Concat(pieces))
    decreases |pieces|
  {
    hide DecodeStream;
    if pieces == [] {
      assert kept + [] == kept;
    } else {
      var d := DecodeStream(kept + pieces[0]);
      DeliverIsDecode(d.rest, pieces[1..]);
      DecodeAppend(kept + pieces[0], Concat(pieces[1..]));
      assert kept + Concat(pieces) == kept + pieces[0] + Concat(pieces[1..]);
    }
  }

  lemma DecodeEmpty()
    ensures DecodeStream([]) == Decoded([], [], false)
  {
  }

  /** The point up to which `arrived` bytes of a sequence of frames complete messages. */
  lemma {:induction false} DecodePrefix(messages: seq<seq<byte>>, arrived: seq<byte>) returns (k: nat)
    requires forall m :: m in messages ==> |m| <= MAX_LENGTH
    requires arrived <= Frames(messages)
    ensures k <= |messages|
    ensures var d := DecodeStream(arrived);
            && d.messages == messages[..k] && !d.invalid
            && Frames(messages[..k]) + d.rest == arrived
            && (if k == |messages| then d.rest == [] else d.rest < Frame(messages[k]))
  {
    hide Frame, DecodeStream;
    k := 0;
    if messages == [] {
      assert arrived == [];
      DecodeEmpty();
    } else {
      var first := Frame(messages[0]);
      if |arrived| < |first| {
        assert arrived < first;
        DecodePartialFrame(messages[0], arrived);
      } else {
        var more := SplitFrames(messages, arrived);
        DecodeFrame(messages[0], more);
        k := DecodePrefix(messages[1..], more);
        assert messages[..k + 1] == [messages[0]] + messages[1..][..k];
        assert messages[..k + 1][1..] == messages[1..][..k];
        k := k + 1;
      }
    }
  }

  lemma SplitFrames(messages: seq<seq<byte>>, arrived: seq<byte>) returns (more: seq<byte>)
    requires forall m :: m in messages ==> |m| <= MAX_LENGTH
    requires arrived <= Frames(messages)
    requires messages != [] && |arrived| >= |Frame(messages[0])|
    ensures arrived == Frame(messages[0]) + more && more <= Frames(messages[1..])
  {
    hide Frame;
    var n := |Frame(messages[0])|;
    more := arrived[n..];
    assert Frames(messages)[..n] == Frame(messages[0]) == arrived[..n];
    assert Frames(messages)[n..] == Frames(messages[1..]);
  }

  /** However the frames of a list of messages are cut into deliveries, and wherever the stream stops: the
      callbacks get exactly the completed messages in order, and the buffer keeps the incomplete frame. */
  lemma FramingIsExact(messages: seq<seq<byte>>, pieces: seq<seq<byte>>) returns (k: nat)
    requires forall m :: m in messages ==> |m| <= MAX_LENGTH
    requires Concat(pieces) <= Frames(messages)
    ensures k <= |messages|
    ensures var d := Deliver([], pieces);
            && d.messages == messages[..k] && !d.invalid
            && Frames(messages[..k]) + d.rest == Concat(pieces)
            && (if k == |messages| then d.rest == [] else d.rest < Frame(messages[k]))
  {
    DeliverIsDecode([], pieces);
    assert [] + Concat(pieces) == Concat(pieces);
    k := DecodePrefix(messages, Concat(pieces));
  }
}
