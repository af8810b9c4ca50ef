/** TCP framing and the publication envelope of `network.cpp`.

    Every TCP message travels as a frame: a u32 byte count followed by exactly
    that many bytes (`SendTcpMessage`). The receiver reads a 4-byte header and
    then the announced number of bytes (`StartReceivingTcpMessages`), and
    re-arms the same read for the next frame. A publication is the tag
    `"publication"`, the topic string, a u32 payload length and the payload
    (`SendPublication`, `HandlePublication`).
 */
module Framing {
  import opened Wrappers
  import opened Codec
  import opened Messages

  /** The size of the frame header. */
  const HEADER_SIZE: nat := 4

  // ---------------------------------------------------------------------
  // Frames
  // ---------------------------------------------------------------------

  /** `SendTcpMessage`: the u32 size of `message` (truncated from `size_t`), then `message`. */
  function Frame(message: Bytes): (r: Bytes)
    ensures |r| == HEADER_SIZE + |message|
    ensures r[HEADER_SIZE..] == message
  {
    var buffer := SerializeNumber(UInt32, LengthPrefix(|message|), []);
    buffer + message
  }

  /** One turn of the receive loop on a byte stream: the header, then the body
      it announces. A stream that ends early is the socket error that makes the
      C++ code drop the connection. */
  function ParseFrame(stream: Bytes): (r: Result<Read<Bytes>>)
    ensures r.Ok? ==> |r.value.rest| + HEADER_SIZE <= |stream|
    ensures r.Ok? ==> stream == stream[..HEADER_SIZE] + r.value.value + r.value.rest
  {
    if |stream| < HEADER_SIZE then Err(Truncated(HEADER_SIZE, |stream|))
    else
      var header := stream[..HEADER_SIZE];
      var size :- DeserializeNumber(UInt32, header);
      var n: nat := size.value;
      var body := stream[HEADER_SIZE..];
      if |body| < n then Err(Truncated(n, |body|))
      else
        assert stream == header + body[..n] + body[n..];
        Ok(Read(body[..n], body[n..]))
  }

  /** A frame is four bytes longer than its message, and a frame is laid out
      like a length-prefixed string. */
  lemma FrameLayout(message: Bytes)
    ensures |Frame(message)| == HEADER_SIZE + |message|
    ensures Frame(message) == EncodeString(message)
  {
  }

  /** A frame on its own reads back as its message with nothing left over. */
  lemma FrameParsesAlone(message: Bytes)
    ensures Fits32(message) ==> ParseFrame(Frame(message)) == Ok(Read(message, []))
  {
    if Fits32(message) {
      FrameRoundTrip(message, []);
      assert Frame(message) + [] == Frame(message);
    }
  }

  /** Reading a frame back recovers the message and leaves the following bytes. */
  lemma FrameRoundTrip(message: Bytes, rest: Bytes)
    requires Fits32(message)
    ensures ParseFrame(Frame(message) + rest) == Ok(Read(message, rest))
  {
    var header := EncodeNumber(UInt32, |message|);
    LengthPrefixExact(|message|);
    var stream := Frame(message) + rest;
    assert stream[..HEADER_SIZE] == header;
    assert stream[HEADER_SIZE..] == message + rest;
    NumberRoundTrip(UInt32, |message|, []);
    assert header + [] == header;
    assert (message + rest)[..|message|] == message;
    assert (message + rest)[|message|..] == rest;
  }

  /** A stream shorter than its header, or than the body its header announces,
      yields no message. */
  lemma ParseFrameTruncated(size: uint32, body: Bytes)
    requires |body| < size
    ensures ParseFrame(EncodeNumber(UInt32, size) + body).Err?
    ensures forall stream: Bytes | |stream| < HEADER_SIZE :: ParseFrame(stream).Err?
  {
    var stream := EncodeNumber(UInt32, size) + body;
    assert stream[..HEADER_SIZE] == EncodeNumber(UInt32, size) + [];
    NumberRoundTrip(UInt32, size, []);
  }

  /** The frames of `messages`, one after another. */
  function JoinFrames(messages: seq<Bytes>): Bytes {
    if |messages| == 0 then [] else Frame(messages[0]) + JoinFrames(messages[1..])
  }

  /** The messages of every complete frame at the front of `stream`, and the
      bytes left when no further frame is complete. */
  function SplitFrames(stream: Bytes): (seq<Bytes>, Bytes)
    decreases |stream|
  {
    match ParseFrame(stream)
    case Err(_) => ([], stream)
    case Ok(frame) =>
      var tail := SplitFrames(frame.rest);
      ([frame.value] + tail.0, tail.1)
  }

  /** Concatenated frames split back into exactly their messages, in order. */
  lemma {:induction false} SplitJoinFrames(messages: seq<Bytes>, tail: Bytes)
    requires forall i | 0 <= i < |messages| :: Fits32(messages[i])
    requires ParseFrame(tail).Err?
    ensures SplitFrames(JoinFrames(messages) + tail) == (messages, tail)
  {
    if |messages| > 0 {
      var first := Frame(messages[0]);
      var others := JoinFrames(messages[1..]);
      ConcatAssociative(first, others, tail);
      FrameRoundTrip(messages[0], others + tail);
      SplitJoinFrames(messages[1..], tail);
      assert [messages[0]] + messages[1..] == messages;
    } else {
      assert JoinFrames(messages) + tail == tail;
    }
  }

  /** What `SplitFrames` returns is a sequence of whole frames followed by an
      incomplete one: together they are the stream. */
  lemma {:induction false} SplitFramesCover(stream: Bytes)
    ensures JoinFrames(SplitFrames(stream).0) + SplitFrames(stream).1 == stream
    ensures ParseFrame(SplitFrames(stream).1).Err?
    decreases |stream|
  {
    var r := ParseFrame(stream);
    if r.Ok? {
      var tail := SplitFrames(r.value.rest);
      SplitFramesCover(r.value.rest);
      FrameOfParsed(stream);
      assert ([r.value.value] + tail.0)[1..] == tail.0;
      ConcatAssociative(Frame(r.value.value), JoinFrames(tail.0), tail.1);
    } else {
      assert JoinFrames([]) + stream == stream;
    }
  }

  /** The receive loop over a whole stream: parse frames until the next one is
      incomplete. */
  method ReceiveFrames(stream: Bytes) returns (messages: seq<Bytes>, rest: Bytes)
    ensures (messages, rest) == SplitFrames(stream)
    ensures JoinFrames(messages) + rest == stream
    ensures ParseFrame(rest).Err?
  {
    messages := [];
    rest := stream;
    assert messages + SplitFrames(rest).0 == SplitFrames(rest).0;
    while true
      invariant SplitFrames(stream) == (messages + SplitFrames(rest).0, SplitFrames(rest).1)
      decreases |rest|
    {
      var r := ParseFrame(rest);
      if r.Err? {
        assert messages + [] == messages;
        SplitFramesCover(stream);
        return;
      }
      ghost var tail := SplitFrames(r.value.rest);
      assert messages + ([r.value.value] + tail.0) == (messages + [r.value.value]) + tail.0;
      messages := messages + [r.value.value];
      rest := r.value.rest;
    }
  }

  /** A parsed frame is the frame of the message it yields. */
  lemma FrameOfParsed(stream: Bytes)
    requires ParseFrame(stream).Ok?
    ensures var r := ParseFrame(stream).value;
            Fits32(r.value) && stream == Frame(r.value) + r.rest
  {
    var r := ParseFrame(stream).value;
    var header := stream[..HEADER_SIZE];
    DeserializeNumberInverse(UInt32, header);
    assert header == EncodeNumber(UInt32, |r.value|) + [];
    LengthPrefixExact(|r.value|);
  }

  lemma {:induction false} JoinFramesSnoc(messages: seq<Bytes>, m: Bytes)
    ensures JoinFrames(messages + [m]) == JoinFrames(messages) + Frame(m)
  {
    if |messages| == 0 {
      assert messages + [m] == [m];
      assert JoinFrames([m]) == Frame(m) + JoinFrames([]);
    } else {
      assert (messages + [m])[1..] == messages[1..] + [m];
      JoinFramesSnoc(messages[1..], m);
      ConcatAssociative(Frame(messages[0]), JoinFrames(messages[1..]), Frame(m));
    }
  }

  // ---------------------------------------------------------------------
  // Publication envelope
  // ---------------------------------------------------------------------

  /** `SendPublication`'s packet: tag, topic, u32 payload length, payload. */
  function SerializePublication(topic: Bytes, message: Bytes): (r: Bytes)
    ensures |r| == 4 + |PublicationTag| + 4 + |topic| + 4 + |message|
    ensures r[..|EncodeString(PublicationTag)|] == EncodeString(PublicationTag)
    ensures r[|r| - |message|..] == message
  {
    var p1 := SerializeString(PublicationTag, []);
    var p2 := SerializeString(topic, p1);
    var p3 := SerializeNumber(UInt32, LengthPrefix(|message|), p2);
    PrefixOfPrefix(p3 + message, p3, p1);
    p3 + message
  }

  /** `HandlePublication` after the tag: the topic, the declared payload size,
      and that many payload bytes; anything after them is ignored. */
  function DeserializePublication(packet: Bytes): (r: Result<(Bytes, Bytes)>)
    ensures r.Ok? ==> Fits32(r.value.0) && Fits32(r.value.1)
    ensures r.Ok? ==> |r.value.1| <= |packet|
  {
    var topic :- DeserializeString(packet);
    var size :- DeserializeNumber(UInt32, topic.rest);
    var n: nat := size.value;
    if |size.rest| < n then Err(Truncated(n, |size.rest|))
    else
      Ok((topic.value, size.rest[..n]))
  }

  /** The envelope is the tag string followed by the publication body. */
  lemma PublicationLayout(topic: Bytes, message: Bytes)
    ensures SerializePublication(topic, message)
         == EncodeString(PublicationTag) + (EncodeString(topic) + (EncodeNumber(UInt32, LengthPrefix(|message|)) + message))
  {
    var tag := EncodeString(PublicationTag);
    var t := EncodeString(topic);
    var n := EncodeNumber(UInt32, LengthPrefix(|message|));
    SerializeStringAppends(topic, tag);
    SerializeNumberAppends(UInt32, LengthPrefix(|message|), tag + t);
    ConcatAssociative(tag + t, n, message);
    ConcatAssociative(tag, t, n + message);
  }

  /** After the tag is read off, the topic and exactly the payload come back. */
  lemma PublicationRoundTrip(topic: Bytes, message: Bytes)
    requires Fits32(topic) && Fits32(message)
    ensures var tag := DeserializeString(SerializePublication(topic, message));
            && tag.Ok? && tag.value.value == PublicationTag
            && DeserializePublication(tag.value.rest) == Ok((topic, message))
  {
    TagsDistinct();
    PublicationLayout(topic, message);
    LengthPrefixExact(|message|);
    var body := EncodeString(topic) + (EncodeNumber(UInt32, |message|) + message);
    StringRoundTrip(PublicationTag, body);
    assert EncodeString(PublicationTag) + body == SerializePublication(topic, message);
    PublicationBodyRoundTrip(topic, message);
  }

  /** The publication body reads back as its topic and exactly its payload. */
  lemma PublicationBodyRoundTrip(topic: Bytes, message: Bytes)
    requires Fits32(topic) && Fits32(message)
    ensures DeserializePublication(EncodeString(topic) + (EncodeNumber(UInt32, |message|) + message))
         == Ok((topic, message))
  {
    StringRoundTrip(topic, EncodeNumber(UInt32, |message|) + message);
    NumberRoundTrip(UInt32, |message|, message);
    assert message[..|message|] == message;
  }
}
