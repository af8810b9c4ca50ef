/** The discovery and handshake records of `pingpong.cpp`.

    Each record is written as a type-tag string followed by its fields in a
    fixed order: id, name, UDP address, UDP port (u16), TCP address, TCP port
    (u16); the TCP variants then add a u32 topic count and that many topic
    strings. `Deserialize*` starts AFTER the tag: the dispatcher in the node
    has already read it to decide which record follows.
 */
module Messages {
  import opened Wrappers
  import opened Codec

  // ---------------------------------------------------------------------
  // Type tags
  // ---------------------------------------------------------------------

  /** The bytes of an ASCII text. */
  function Ascii(s: string): (r: Bytes)
    requires forall i | 0 <= i < |s| :: s[i] as int < 0x80
    ensures |r| == |s|
    ensures forall i | 0 <= i < |s| :: r[i] == s[i] as int
  {
    seq(|s|, i requires 0 <= i < |s| && s[i] as int < 0x80 => s[i] as int)
  }

  const UdpPingTag: Bytes := Ascii("udp_ping")
  const UdpPongTag: Bytes := Ascii("udp_pong")
  const TcpPingTag: Bytes := Ascii("tcp_ping")
  const TcpPongTag: Bytes := Ascii("tcp_pong")
  const PublicationTag: Bytes := Ascii("publication")

  /** The five tags are pairwise different, so dispatch on them is unambiguous. */
  lemma TagsDistinct()
    ensures UdpPingTag != UdpPongTag
    ensures TcpPingTag != TcpPongTag && TcpPingTag != PublicationTag && TcpPongTag != PublicationTag
    ensures Fits32(UdpPingTag) && Fits32(UdpPongTag) && Fits32(TcpPingTag)
    ensures Fits32(TcpPongTag) && Fits32(PublicationTag)
  {
    assert UdpPingTag[5] != UdpPongTag[5];
    assert TcpPingTag[5] != TcpPongTag[5];
    assert |TcpPingTag| != |PublicationTag|;
    assert |TcpPongTag| != |PublicationTag|;
  }

  // ---------------------------------------------------------------------
  // Records
  // ---------------------------------------------------------------------

  /** The identity and endpoints every discovery record carries. */
  datatype NodeInfo = NodeInfo(
    id: Bytes,
    name: Bytes,
    udpAddress: Bytes,
    udpPort: uint16,
    tcpAddress: Bytes,
    tcpPort: uint16)
  {
    /** Every string is short enough for its u32 length prefix. */
    predicate Valid() {
      Fits32(id) && Fits32(name) && Fits32(udpAddress) && Fits32(tcpAddress)
    }
  }

  datatype UdpPing = UdpPing(info: NodeInfo)
  datatype UdpPong = UdpPong(info: NodeInfo)
  datatype TcpPing = TcpPing(info: NodeInfo, subscribedTopics: seq<Bytes>)
  datatype TcpPong = TcpPong(info: NodeInfo, subscribedTopics: seq<Bytes>)

  /** A topic list whose count and every topic fit their u32 prefixes. */
  predicate ValidTopics(ts: seq<Bytes>) {
    |ts| < U32_MODULUS && forall i | 0 <= i < |ts| :: Fits32(ts[i])
  }

  // ---------------------------------------------------------------------
  // Shared field layout
  // ---------------------------------------------------------------------

  /** The six identity fields appended in wire order. */
  function SerializeInfo(m: NodeInfo, packet: Bytes): (r: Bytes)
    ensures |r| == |packet| + INFO_MIN_SIZE + |m.id| + |m.name| + |m.udpAddress| + |m.tcpAddress|
    ensures r[..|packet|] == packet
  {
    var p1 := SerializeString(m.id, packet);
    var p2 := SerializeString(m.name, p1);
    var p3 := SerializeString(m.udpAddress, p2);
    var p4 := SerializeNumber(UInt16, m.udpPort, p3);
    var p5 := SerializeString(m.tcpAddress, p4);
    var p6 := SerializeNumber(UInt16, m.tcpPort, p5);
    PrefixOfPrefix(p2, p1, packet);
    PrefixOfPrefix(p3, p2, packet);
    PrefixOfPrefix(p4, p3, packet);
    PrefixOfPrefix(p5, p4, packet);
    PrefixOfPrefix(p6, p5, packet);
    p6
  }

  /** The identity fields take at least four u32 string lengths and two u16 ports. */
  const INFO_MIN_SIZE: nat := 20

  function DeserializeInfo(packet: Bytes): (r: Result<Read<NodeInfo>>)
    ensures r.Ok? ==> r.value.value.Valid()
  {
    var id :- DeserializeString(packet);
    var name :- DeserializeString(id.rest);
    var udpAddress :- DeserializeString(name.rest);
    var udpPort :- DeserializeNumber(UInt16, udpAddress.rest);
    var tcpAddress :- DeserializeString(udpPort.rest);
    var tcpPort :- DeserializeNumber(UInt16, tcpAddress.rest);
    Ok(Read(NodeInfo(id.value, name.value, udpAddress.value, udpPort.value,
                     tcpAddress.value, tcpPort.value), tcpPort.rest))
  }

  /** The identity fields on their own. */
  function EncodeInfo(m: NodeInfo): Bytes {
    SerializeInfo(m, [])
  }

  /** The fields are appended one after another behind the existing packet. */
  lemma InfoLayout(m: NodeInfo, packet: Bytes, rest: Bytes)
    ensures SerializeInfo(m, packet) + rest
         == packet + (EncodeString(m.id) + (EncodeString(m.name) + (EncodeString(m.udpAddress)
              + (EncodeNumber(UInt16, m.udpPort) + (EncodeString(m.tcpAddress)
              + (EncodeNumber(UInt16, m.tcpPort) + rest))))))
  {
    var p1 := SerializeString(m.id, packet);
    var p2 := SerializeString(m.name, p1);
    var p3 := SerializeString(m.udpAddress, p2);
    var p4 := SerializeNumber(UInt16, m.udpPort, p3);
    var p5 := SerializeString(m.tcpAddress, p4);
    var p6 := SerializeNumber(UInt16, m.tcpPort, p5);
    var e6 := EncodeNumber(UInt16, m.tcpPort) + rest;
    var e5 := EncodeString(m.tcpAddress) + e6;
    var e4 := EncodeNumber(UInt16, m.udpPort) + e5;
    var e3 := EncodeString(m.udpAddress) + e4;
    var e2 := EncodeString(m.name) + e3;
    var e1 := EncodeString(m.id) + e2;
    SerializeNumberAppends(UInt16, m.tcpPort, p5);
    ConcatAssociative(p5, EncodeNumber(UInt16, m.tcpPort), rest);
    SerializeStringAppends(m.tcpAddress, p4);
    ConcatAssociative(p4, EncodeString(m.tcpAddress), e6);
    SerializeNumberAppends(UInt16, m.udpPort, p3);
    ConcatAssociative(p3, EncodeNumber(UInt16, m.udpPort), e5);
    SerializeStringAppends(m.udpAddress, p2);
    ConcatAssociative(p2, EncodeString(m.udpAddress), e4);
    SerializeStringAppends(m.name, p1);
    ConcatAssociative(p1, EncodeString(m.name), e3);
    SerializeStringAppends(m.id, packet);
    ConcatAssociative(packet, EncodeString(m.id), e2);
    assert p6 + rest == packet + e1;
  }

  lemma InfoAppends(m: NodeInfo, packet: Bytes)
    ensures SerializeInfo(m, packet) == packet + EncodeInfo(m)
  {
    var fields := EncodeString(m.id) + (EncodeString(m.name) + (EncodeString(m.udpAddress)
              + (EncodeNumber(UInt16, m.udpPort) + (EncodeString(m.tcpAddress)
              + (EncodeNumber(UInt16, m.tcpPort) + [])))));
    InfoLayout(m, packet, []);
    InfoLayout(m, [], []);
    var x := SerializeInfo(m, packet);
    assert x + [] == x;
    assert EncodeInfo(m) + [] == EncodeInfo(m);
    assert [] + fields == fields;
    assert EncodeInfo(m) == fields;
  }

  lemma InfoRoundTrip(m: NodeInfo, rest: Bytes)
    requires m.Valid()
    ensures DeserializeInfo(EncodeInfo(m) + rest) == Ok(Read(m, rest))
  {
    InfoLayout(m, [], rest);
    var e6 := EncodeNumber(UInt16, m.tcpPort) + rest;
    var e5 := EncodeString(m.tcpAddress) + e6;
    var e4 := EncodeNumber(UInt16, m.udpPort) + e5;
    var e3 := EncodeString(m.udpAddress) + e4;
    var e2 := EncodeString(m.name) + e3;
    assert EncodeInfo(m) + rest == EncodeString(m.id) + e2;
    StringRoundTrip(m.id, e2);
    StringRoundTrip(m.name, e3);
    StringRoundTrip(m.udpAddress, e4);
    NumberRoundTrip(UInt16, m.udpPort, e5);
    StringRoundTrip(m.tcpAddress, e6);
    NumberRoundTrip(UInt16, m.tcpPort, rest);
  }

  // ---------------------------------------------------------------------
  // Topic lists
  // ---------------------------------------------------------------------

  /** The topic strings appended in order (the body of the `for` loop). */
  function SerializeStrings(ts: seq<Bytes>, packet: Bytes): (r: Bytes)
    ensures |r| >= |packet| + 4 * |ts|
    ensures r[..|packet|] == packet
  {
    if |ts| == 0 then packet else
      var p := SerializeString(ts[0], packet);
      var r := SerializeStrings(ts[1..], p);
      PrefixOfPrefix(r, p, packet);
      r
  }

  /** A u32 topic count, then the topics. */
  function SerializeTopics(ts: seq<Bytes>, packet: Bytes): (r: Bytes)
    ensures |r| >= |packet| + 4 + 4 * |ts|
    ensures r[..|packet|] == packet
  {
    var p := SerializeNumber(UInt32, LengthPrefix(|ts|), packet);
    var r := SerializeStrings(ts, p);
    PrefixOfPrefix(r, p, packet);
    r
  }

  /** Read `count` strings one after another. */
  function DeserializeStrings(count: nat, packet: Bytes): (r: Result<Read<seq<Bytes>>>)
    ensures r.Ok? ==> |r.value.value| == count
    ensures r.Ok? ==> forall i | 0 <= i < count :: Fits32(r.value.value[i])
  {
    if count == 0 then Ok(Read([], packet))
    else
      var head :- DeserializeString(packet);
      var tail :- DeserializeStrings(count - 1, head.rest);
      Ok(Read([head.value] + tail.value, tail.rest))
  }

  /** The u32 count, then that many strings, starting from an empty list. */
  function DeserializeTopics(packet: Bytes): (r: Result<Read<seq<Bytes>>>)
    ensures r.Ok? ==> ValidTopics(r.value.value)
  {
    var count :- DeserializeNumber(UInt32, packet);
    DeserializeStrings(count.value, count.rest)
  }

  lemma {:induction false} SerializeStringsAppends(ts: seq<Bytes>, packet: Bytes)
    ensures SerializeStrings(ts, packet) == packet + SerializeStrings(ts, [])
  {
    if |ts| > 0 {
      var e := EncodeString(ts[0]);
      var tail := SerializeStrings(ts[1..], []);
      SerializeStringAppends(ts[0], packet);
      SerializeStringsAppends(ts[1..], packet + e);
      SerializeStringsAppends(ts[1..], e);
      ConcatAssociative(packet, e, tail);
    }
  }

  lemma {:induction false} StringsRoundTrip(ts: seq<Bytes>, rest: Bytes)
    requires ValidTopics(ts)
    ensures DeserializeStrings(|ts|, SerializeStrings(ts, []) + rest) == Ok(Read(ts, rest))
  {
    if |ts| > 0 {
      var e := EncodeString(ts[0]);
      var tail := SerializeStrings(ts[1..], []);
      SerializeStringsAppends(ts[1..], e);
      ConcatAssociative(e, tail, rest);
      assert Fits32(ts[0]);
      StringRoundTrip(ts[0], tail + rest);
      assert ValidTopics(ts[1..]) by {
        forall i | 0 <= i < |ts| - 1 ensures Fits32(ts[1..][i]) {
          assert ts[1..][i] == ts[i + 1];
        }
      }
      StringsRoundTrip(ts[1..], rest);
      assert [ts[0]] + ts[1..] == ts;
    } else {
      assert SerializeStrings(ts, []) + rest == rest;
    }
  }

  lemma TopicsAppends(ts: seq<Bytes>, packet: Bytes)
    ensures SerializeTopics(ts, packet) == packet + SerializeTopics(ts, [])
  {
    var count := EncodeNumber(UInt32, LengthPrefix(|ts|));
    SerializeNumberAppends(UInt32, LengthPrefix(|ts|), packet);
    SerializeStringsAppends(ts, packet + count);
    SerializeStringsAppends(ts, count);
    ConcatAssociative(packet, count, SerializeStrings(ts, []));
  }

  /** The count written equals the number of topics, and the list reads back
      in order, the empty list included. */
  lemma TopicsRoundTrip(ts: seq<Bytes>, rest: Bytes)
    requires ValidTopics(ts)
    ensures SerializeTopics(ts, []) == EncodeNumber(UInt32, |ts|) + SerializeStrings(ts, [])
    ensures DeserializeTopics(SerializeTopics(ts, []) + rest) == Ok(Read(ts, rest))
  {
    LengthPrefixExact(|ts|);
    var count := EncodeNumber(UInt32, |ts|);
    var body := SerializeStrings(ts, []);
    SerializeStringsAppends(ts, count);
    assert SerializeTopics(ts, []) == count + body;
    ConcatAssociative(count, body, rest);
    NumberRoundTrip(UInt32, |ts|, body + rest);
    assert DeserializeNumber(UInt32, SerializeTopics(ts, []) + rest) == Ok(Read(|ts|, body + rest));
    StringsRoundTrip(ts, rest);
  }

  // ---------------------------------------------------------------------
  // The four records
  // ---------------------------------------------------------------------

  function SerializeUdpPing(m: UdpPing, packet: Bytes): (r: Bytes)
    ensures |r| >= |packet| + |EncodeString(UdpPingTag)| + INFO_MIN_SIZE
    ensures r[..|packet|] == packet
    ensures r[|packet|..|packet| + |EncodeString(UdpPingTag)|] == EncodeString(UdpPingTag)
  {
    var p := SerializeString(UdpPingTag, packet);
    var r := SerializeInfo(m.info, p);
    TagAfter(UdpPingTag, packet, r);
    r
  }

  function SerializeUdpPong(m: UdpPong, packet: Bytes): (r: Bytes)
    ensures |r| >= |packet| + |EncodeString(UdpPongTag)| + INFO_MIN_SIZE
    ensures r[..|packet|] == packet
    ensures r[|packet|..|packet| + |EncodeString(UdpPongTag)|] == EncodeString(UdpPongTag)
  {
    var p := SerializeString(UdpPongTag, packet);
    var r := SerializeInfo(m.info, p);
    TagAfter(UdpPongTag, packet, r);
    r
  }

  function SerializeTcpPing(m: TcpPing, packet: Bytes): (r: Bytes)
    ensures |r| >= |packet| + |EncodeString(TcpPingTag)| + INFO_MIN_SIZE + 4 + 4 * |m.subscribedTopics|
    ensures r[..|packet|] == packet
    ensures r[|packet|..|packet| + |EncodeString(TcpPingTag)|] == EncodeString(TcpPingTag)
  {
    var p := SerializeString(TcpPingTag, packet);
    var q := SerializeInfo(m.info, p);
    var r := SerializeTopics(m.subscribedTopics, q);
    PrefixOfPrefix(r, q, p);
    TagAfter(TcpPingTag, packet, r);
    r
  }

  function SerializeTcpPong(m: TcpPong, packet: Bytes): (r: Bytes)
    ensures |r| >= |packet| + |EncodeString(TcpPongTag)| + INFO_MIN_SIZE + 4 + 4 * |m.subscribedTopics|
    ensures r[..|packet|] == packet
    ensures r[|packet|..|packet| + |EncodeString(TcpPongTag)|] == EncodeString(TcpPongTag)
  {
    var p := SerializeString(TcpPongTag, packet);
    var q := SerializeInfo(m.info, p);
    var r := SerializeTopics(m.subscribedTopics, q);
    PrefixOfPrefix(r, q, p);
    TagAfter(TcpPongTag, packet, r);
    r
  }

  /** A record written behind `packet` starts with its tag string. */
  lemma TagAfter(tag: Bytes, packet: Bytes, r: Bytes)
    requires |SerializeString(tag, packet)| <= |r|
    requires r[..|SerializeString(tag, packet)|] == SerializeString(tag, packet)
    ensures r[..|packet|] == packet
    ensures r[|packet|..|packet| + |EncodeString(tag)|] == EncodeString(tag)
  {
    var p := SerializeString(tag, packet);
    SerializeStringAppends(tag, packet);
    PrefixOfPrefix(r, p, packet);
    assert r[|packet|..|packet| + |EncodeString(tag)|] == p[|packet|..];
  }

  /** The one-argument `Serialize` overloads: the record in a fresh packet. */
  function EncodeUdpPing(m: UdpPing): Bytes { SerializeUdpPing(m, []) }
  function EncodeUdpPong(m: UdpPong): Bytes { SerializeUdpPong(m, []) }
  function EncodeTcpPing(m: TcpPing): Bytes { SerializeTcpPing(m, []) }
  function EncodeTcpPong(m: TcpPong): Bytes { SerializeTcpPong(m, []) }

  function DeserializeUdpPing(packet: Bytes): (r: Result<Read<UdpPing>>)
    ensures r.Ok? <==> DeserializeInfo(packet).Ok?
    ensures r.Ok? ==> r.value.value.info.Valid()
  {
    var info :- DeserializeInfo(packet);
    Ok(Read(UdpPing(info.value), info.rest))
  }

  function DeserializeUdpPong(packet: Bytes): (r: Result<Read<UdpPong>>)
    ensures r.Ok? <==> DeserializeInfo(packet).Ok?
    ensures r.Ok? ==> r.value.value.info.Valid()
  {
    var info :- DeserializeInfo(packet);
    Ok(Read(UdpPong(info.value), info.rest))
  }

  function DeserializeTcpPing(packet: Bytes): (r: Result<Read<TcpPing>>)
    ensures r.Ok? ==> r.value.value.info.Valid() && ValidTopics(r.value.value.subscribedTopics)
  {
    var info :- DeserializeInfo(packet);
    var topics :- DeserializeTopics(info.rest);
    Ok(Read(TcpPing(info.value, topics.value), topics.rest))
  }

  function DeserializeTcpPong(packet: Bytes): (r: Result<Read<TcpPong>>)
    ensures r.Ok? ==> r.value.value.info.Valid() && ValidTopics(r.value.value.subscribedTopics)
  {
    var info :- DeserializeInfo(packet);
    var topics :- DeserializeTopics(info.rest);
    Ok(Read(TcpPong(info.value, topics.value), topics.rest))
  }

  /** A tagged record: its tag string, then its body. */
  lemma TaggedLayout(tag: Bytes, body: Bytes, packet: Bytes)
    requires Fits32(tag)
    ensures SerializeString(tag, packet) + body == packet + (EncodeString(tag) + body)
    ensures DeserializeString(EncodeString(tag) + body) == Ok(Read(tag, body))
  {
    SerializeStringAppends(tag, packet);
    ConcatAssociative(packet, EncodeString(tag), body);
    StringRoundTrip(tag, body);
  }

  /** `UdpPing` and `UdpPong` are laid out identically except for the tag. */
  lemma UdpLayout(i: NodeInfo)
    ensures EncodeUdpPing(UdpPing(i)) == EncodeString(UdpPingTag) + EncodeInfo(i)
    ensures EncodeUdpPong(UdpPong(i)) == EncodeString(UdpPongTag) + EncodeInfo(i)
  {
    InfoAppends(i, EncodeString(UdpPingTag));
    InfoAppends(i, EncodeString(UdpPongTag));
  }

  /** `TcpPing` and `TcpPong` are laid out identically except for the tag: the
      identity fields, the topic count, then each topic in order. */
  lemma TcpLayout(i: NodeInfo, ts: seq<Bytes>)
    requires ValidTopics(ts)
    ensures EncodeTcpPing(TcpPing(i, ts))
         == EncodeString(TcpPingTag) + EncodeInfo(i) + (EncodeNumber(UInt32, |ts|) + SerializeStrings(ts, []))
    ensures EncodeTcpPong(TcpPong(i, ts))
         == EncodeString(TcpPongTag) + EncodeInfo(i) + (EncodeNumber(UInt32, |ts|) + SerializeStrings(ts, []))
  {
    InfoAppends(i, EncodeString(TcpPingTag));
    InfoAppends(i, EncodeString(TcpPongTag));
    TopicsAppends(ts, EncodeString(TcpPingTag) + EncodeInfo(i));
    TopicsAppends(ts, EncodeString(TcpPongTag) + EncodeInfo(i));
    TopicsRoundTrip(ts, []);
  }

  /** The topic strings follow one another in list order. */
  lemma StringsLayout(t: Bytes, ts: seq<Bytes>)
    ensures SerializeStrings([t] + ts, []) == EncodeString(t) + SerializeStrings(ts, [])
  {
    assert ([t] + ts)[1..] == ts;
    SerializeStringsAppends(ts, EncodeString(t));
  }

  /** Writing a record into a packet appends its one-argument encoding. */
  lemma UdpRecordsAppend(i: NodeInfo, packet: Bytes)
    ensures SerializeUdpPing(UdpPing(i), packet) == packet + EncodeUdpPing(UdpPing(i))
    ensures SerializeUdpPong(UdpPong(i), packet) == packet + EncodeUdpPong(UdpPong(i))
  {
    TagsDistinct();
    UdpLayout(i);
    InfoAppends(i, SerializeString(UdpPingTag, packet));
    InfoAppends(i, SerializeString(UdpPongTag, packet));
    TaggedLayout(UdpPingTag, EncodeInfo(i), packet);
    TaggedLayout(UdpPongTag, EncodeInfo(i), packet);
  }

  lemma TcpRecordsAppend(i: NodeInfo, ts: seq<Bytes>, packet: Bytes)
    ensures SerializeTcpPing(TcpPing(i, ts), packet) == packet + EncodeTcpPing(TcpPing(i, ts))
    ensures SerializeTcpPong(TcpPong(i, ts), packet) == packet + EncodeTcpPong(TcpPong(i, ts))
  {
    TagsDistinct();
    var body := EncodeInfo(i);
    var topics := SerializeTopics(ts, []);
    InfoAppends(i, SerializeString(TcpPingTag, packet));
    InfoAppends(i, SerializeString(TcpPongTag, packet));
    InfoAppends(i, EncodeString(TcpPingTag));
    InfoAppends(i, EncodeString(TcpPongTag));
    TopicsAppends(ts, SerializeInfo(i, SerializeString(TcpPingTag, packet)));
    TopicsAppends(ts, SerializeInfo(i, SerializeString(TcpPongTag, packet)));
    TopicsAppends(ts, EncodeString(TcpPingTag) + body);
    TopicsAppends(ts, EncodeString(TcpPongTag) + body);
    TaggedLayout(TcpPingTag, body, packet);
    TaggedLayout(TcpPongTag, body, packet);
    ConcatAssociative(packet, EncodeString(TcpPingTag) + body, topics);
    ConcatAssociative(packet, EncodeString(TcpPongTag) + body, topics);
  }

  /** After its tag is read off, a `UdpPing` reads back whole and leaves `rest`. */
  lemma UdpPingRoundTrip(m: UdpPing, rest: Bytes)
    requires m.info.Valid()
    ensures var tag := DeserializeString(EncodeUdpPing(m) + rest);
            && tag.Ok? && tag.value.value == UdpPingTag
            && DeserializeUdpPing(tag.value.rest) == Ok(Read(m, rest))
  {
    TagsDistinct();
    UdpLayout(m.info);
    ConcatAssociative(EncodeString(UdpPingTag), EncodeInfo(m.info), rest);
    TaggedLayout(UdpPingTag, EncodeInfo(m.info) + rest, []);
    InfoRoundTrip(m.info, rest);
  }

  /** A `UdpPing` on its own reads back, after its tag, with nothing left over. */
  lemma UdpPingParsesAlone(m: UdpPing)
    ensures m.info.Valid() ==>
              var tag := DeserializeString(EncodeUdpPing(m));
              && tag.Ok? && tag.value.value == UdpPingTag
              && DeserializeUdpPing(tag.value.rest) == Ok(Read(m, []))
  {
    if m.info.Valid() {
      UdpPingRoundTrip(m, []);
      assert EncodeUdpPing(m) + [] == EncodeUdpPing(m);
    }
  }

  lemma UdpPongRoundTrip(m: UdpPong, rest: Bytes)
    requires m.info.Valid()
    ensures var tag := DeserializeString(EncodeUdpPong(m) + rest);
            && tag.Ok? && tag.value.value == UdpPongTag
            && DeserializeUdpPong(tag.value.rest) == Ok(Read(m, rest))
  {
    TagsDistinct();
    UdpLayout(m.info);
    ConcatAssociative(EncodeString(UdpPongTag), EncodeInfo(m.info), rest);
    TaggedLayout(UdpPongTag, EncodeInfo(m.info) + rest, []);
    InfoRoundTrip(m.info, rest);
  }

  /** The identity and topic list of a TCP record read back in order. */
  lemma TcpBodyRoundTrip(i: NodeInfo, ts: seq<Bytes>, rest: Bytes)
    requires i.Valid() && ValidTopics(ts)
    ensures DeserializeInfo(EncodeInfo(i) + (SerializeTopics(ts, []) + rest)) == Ok(Read(i, SerializeTopics(ts, []) + rest))
    ensures DeserializeTopics(SerializeTopics(ts, []) + rest) == Ok(Read(ts, rest))
  {
    InfoRoundTrip(i, SerializeTopics(ts, []) + rest);
    TopicsRoundTrip(ts, rest);
  }

  /** After its tag is read off, a `TcpPing` reads back whole, with exactly the
      encoded topics in order (an empty list included). */
  lemma TcpPingRoundTrip(m: TcpPing, rest: Bytes)
    requires m.info.Valid() && ValidTopics(m.subscribedTopics)
    ensures var tag := DeserializeString(EncodeTcpPing(m) + rest);
            && tag.Ok? && tag.value.value == TcpPingTag
            && DeserializeTcpPing(tag.value.rest) == Ok(Read(m, rest))
  {
    TagsDistinct();
    var tag := EncodeString(TcpPingTag);
    var info := EncodeInfo(m.info);
    var topics := SerializeTopics(m.subscribedTopics, []);
    InfoAppends(m.info, tag);
    TopicsAppends(m.subscribedTopics, tag + info);
    assert EncodeTcpPing(m) == (tag + info) + topics;
    ConcatAssociative(tag + info, topics, rest);
    ConcatAssociative(tag, info, topics + rest);
    TaggedLayout(TcpPingTag, info + (topics + rest), []);
    TcpBodyRoundTrip(m.info, m.subscribedTopics, rest);
  }

  lemma TcpPongRoundTrip(m: TcpPong, rest: Bytes)
    requires m.info.Valid() && ValidTopics(m.subscribedTopics)
    ensures var tag := DeserializeString(EncodeTcpPong(m) + rest);
            && tag.Ok? && tag.value.value == TcpPongTag
            && DeserializeTcpPong(tag.value.rest) == Ok(Read(m, rest))
  {
    TagsDistinct();
    var tag := EncodeString(TcpPongTag);
    var info := EncodeInfo(m.info);
    var topics := SerializeTopics(m.subscribedTopics, []);
    InfoAppends(m.info, tag);
    TopicsAppends(m.subscribedTopics, tag + info);
    assert EncodeTcpPong(m) == (tag + info) + topics;
    ConcatAssociative(tag + info, topics, rest);
    ConcatAssociative(tag, info, topics + rest);
    TaggedLayout(TcpPongTag, info + (topics + rest), []);
    TcpBodyRoundTrip(m.info, m.subscribedTopics, rest);
  }
}
