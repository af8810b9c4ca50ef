# farfler network core in Dafny

farfler/network is a small C++ publish/subscribe library for nodes on a local
network. Nodes find each other through UDP broadcasts on port 21075. Each
`udp_ping` is answered with a `udp_pong`, and a pong from an unknown node makes
the receiver dial the TCP endpoint that node advertises. On the new connection the dialer sends a
`tcp_ping` and the other side answers with a `tcp_pong`, which makes the
dialer treat the peer as verified. Publications travel as `publication`
messages inside length-prefixed TCP frames and are delivered to the
receiver's online subscribers.

This project models that core as pure Dafny functions and proves properties
about it:

- `wrappers.dfy` (`Wrappers`): the `Result` type. A decoder returns
  `Err(Truncated(..))` where the C++ code reads past the end of its buffer.
- `codec.dfy` (`Codec`): `Number<T>` and `String` from `types.cpp`.
  - Integers are written as their little-endian two's-complement bytes.
  - A string is a u32 length followed by its bytes.
  - Lengths pass through a `size_t`-to-`uint32_t` conversion, which is modelled
    modulo 2^32.
  - Decoding returns the value and the bytes left over, which is what the C++
    code's erase of the consumed prefix leaves behind.
- `messages.dfy` (`Messages`): the four discovery and handshake records of
  `pingpong.cpp` and their wire layout.
- `pubsub.dfy` (`PubSub`): the subscriber registry of `pubsub.cpp`.
  - There are two maps, offline and online, from topic to subscription id to
    callback.
  - Reading a topic that is not in a map yields an empty map, as
    `operator[]` does.
- `framing.dfy` (`Framing`): the TCP frame (`SendTcpMessage`), the receive loop
  that cuts a byte stream into frames (`StartReceivingTcpMessages`), and the
  publication envelope.
- `network.dfy` (`Network`): a node's two peer maps and its registry.
  - The message, connect and error handlers are transitions from one node
    state to a `Step`. A `Step` holds the next state and the effects the
    handler starts: broadcasts, dials, starting the receive loop on a dialed
    socket, TCP writes and callback calls.
  - `HandleTcpError` returns the next node alone, since it starts nothing.
  - The discovery tick is the single broadcast it starts.
  - The online and all-maps unsubscribe operations are methods, because the
    topic listing they send is chosen nondeterministically. The offline one
    sends nothing and is a function.

## Model

| member | source | states |
|---|---|---|
| Codec.IntType.Modulus | src/farfler/network/types.cpp:43-50 | the number of values of each instantiated integer type is 256 to the power of its byte size |
| Codec.FromLittleEndianOfLittleEndian | src/farfler/network/types.cpp:17-22 | the bytes written for a number below 256^width read back as that number |
| Codec.LittleEndianOfFromLittleEndian | src/farfler/network/types.cpp:31-36 | any byte group read as a number is written back as the same bytes |
| Codec.SerializeNumber | src/farfler/network/types.cpp:17-22 | writing a number lengthens the packet by sizeof(T) and keeps what was already written |
| Codec.DeserializeNumber | src/farfler/network/types.cpp:31-36 | a number is read exactly when at least sizeof(T) bytes are present; the value belongs to T, and the rest is the input without its first sizeof(T) bytes |
| Codec.SerializeNumberAppends | src/farfler/network/types.cpp:17-22 | writing a number appends exactly sizeof(T) bytes and keeps the packet as a prefix |
| Codec.NumberRoundTrip | src/farfler/network/types.cpp:17-36 | reading back a written number gives the same value and leaves whatever followed it |
| Codec.DeserializeNumberInverse | src/farfler/network/types.cpp:31-36 | whatever a successful read consumed is the encoding of the value it returned |
| Codec.LengthPrefixExact | src/farfler/network/types.cpp:63-68 | a length below 2^32 survives the conversion to uint32_t unchanged |
| Codec.SerializeString | src/farfler/network/types.cpp:63-68 | writing a string lengthens the packet by 4 plus the string's length, keeps what was already written and ends with the string itself |
| Codec.DeserializeString | src/farfler/network/types.cpp:76-81 | a string is read exactly when the 4-byte length is present and at least that many bytes follow it, and the string read is shorter than 2^32 |
| Codec.DeserializeStringLayout | src/farfler/network/types.cpp:76-81 | a successful read splits the packet into the length, a string of exactly that length, and the rest, in that order |
| Codec.SerializeStringAppends | src/farfler/network/types.cpp:63-68 | writing a string appends 4 plus its length bytes: the u32 length, then the string |
| Codec.StringRoundTrip | src/farfler/network/types.cpp:63-81 | reading back a written string shorter than 2^32 gives the same string and leaves whatever followed it |
| Codec.EmptyStringRoundTrip | src/farfler/network/types.cpp:63-81 | the empty string is the four zero bytes, and it reads back as empty |
| Codec.DeserializeStringTruncated | src/farfler/network/types.cpp:76-81 | a declared length longer than the bytes that remain is an error, never a short string |
| Codec.FieldRoundTrip | src/farfler/network/types.cpp:17-81 | one number or string field reads back as the field that was written |
| Codec.FieldsRoundTrip | src/farfler/network/types.cpp:31-81 | fields written one after another read back in the same order, because each read erases what it consumed (lines 34 and 79) and the next read starts where the previous one stopped |
| Messages.TagsDistinct | src/farfler/network/network.cpp:142-146 | the five message tags differ pairwise where they are dispatched on, so dispatch is unambiguous |
| Messages.SerializeInfo | src/farfler/network/pingpong.cpp:24-29 | the identity fields take at least 20 bytes beyond their four strings and keep what was already written |
| Messages.DeserializeInfo | src/farfler/network/pingpong.cpp:40-45 | the four strings of identity fields that are read back are each shorter than 2^32 |
| Messages.InfoLayout | src/farfler/network/pingpong.cpp:24-29 | the six identity fields are written in the order id, name, udp address, udp port, tcp address, tcp port |
| Messages.InfoAppends | src/farfler/network/pingpong.cpp:24-29 | writing the identity fields appends them after the packet's existing bytes |
| Messages.InfoRoundTrip | src/farfler/network/pingpong.cpp:39-47 | the identity fields read back in the same order recover the node's id, name, addresses and ports |
| Messages.SerializeStrings | src/farfler/network/pingpong.cpp:119-121 | writing the topic strings adds at least four bytes per topic and keeps what was already written |
| Messages.SerializeTopics | src/farfler/network/pingpong.cpp:118-121 | writing the topic list adds the u32 count and at least four bytes per topic, and keeps what was already written |
| Messages.DeserializeStrings | src/farfler/network/pingpong.cpp:140-144 | reading a given count of strings yields exactly that many, each shorter than 2^32 |
| Messages.DeserializeTopics | src/farfler/network/pingpong.cpp:138-144 | a topic list read back has fewer than 2^32 entries, each shorter than 2^32 |
| Messages.SerializeStringsAppends | src/farfler/network/pingpong.cpp:118-121 | writing the topic strings appends them and keeps what was already written |
| Messages.StringsRoundTrip | src/farfler/network/pingpong.cpp:138-145 | reading back as many strings as were written gives the same topics, in order |
| Messages.TopicsAppends | src/farfler/network/pingpong.cpp:117-121 | writing the topic count and topics appends them to the packet |
| Messages.TopicsRoundTrip | src/farfler/network/pingpong.cpp:117-145 | the topic list is its u32 count followed by each topic, and it reads back as the same list |
| Messages.TagAfter | src/farfler/network/pingpong.cpp:23 | a record written after a tag still starts, at the old end of the packet, with that tag's encoding |
| Messages.SerializeUdpPing | src/farfler/network/pingpong.cpp:21-31 | a udp_ping is appended to the packet and starts with the udp_ping tag followed by at least the 20 fixed bytes of the identity fields |
| Messages.DeserializeUdpPing | src/farfler/network/pingpong.cpp:39-47 | a udp_ping body is read exactly when its identity fields are, and the strings read are each shorter than 2^32 |
| Messages.SerializeUdpPong | src/farfler/network/pingpong.cpp:65-75 | a udp_pong is appended to the packet and starts with the udp_pong tag followed by at least the 20 fixed bytes of the identity fields |
| Messages.DeserializeUdpPong | src/farfler/network/pingpong.cpp:83-91 | a udp_pong body is read exactly when its identity fields are, and the strings read are each shorter than 2^32 |
| Messages.SerializeTcpPing | src/farfler/network/pingpong.cpp:109-123 | a tcp_ping is appended to the packet, starts with its tag, and holds the identity fields and at least four bytes per topic plus the count |
| Messages.DeserializeTcpPing | src/farfler/network/pingpong.cpp:131-147 | a tcp_ping body read back has identity strings and topics each shorter than 2^32, and fewer than 2^32 topics |
| Messages.SerializeTcpPong | src/farfler/network/pingpong.cpp:165-179 | a tcp_pong is appended to the packet, starts with its tag, and holds the identity fields and at least four bytes per topic plus the count |
| Messages.DeserializeTcpPong | src/farfler/network/pingpong.cpp:187-203 | a tcp_pong body read back has identity strings and topics each shorter than 2^32, and fewer than 2^32 topics |
| Messages.TaggedLayout | src/farfler/network/pingpong.cpp:21-31 | a record starts with its tag string, and reading that string yields the tag and the record body |
| Messages.UdpLayout | src/farfler/network/pingpong.cpp:21-31 | a udp_ping and a udp_pong from the same node differ only in their tag |
| Messages.TcpLayout | src/farfler/network/pingpong.cpp:109-123 | a tcp_ping and a tcp_pong are the tag, the identity fields and the topic list, and differ only in their tag |
| Messages.StringsLayout | src/farfler/network/pingpong.cpp:118-121 | the topic strings are written in list order, first topic first |
| Messages.UdpRecordsAppend | src/farfler/network/pingpong.cpp:65-75 | writing a UDP record into a packet appends it to what is already there |
| Messages.TcpRecordsAppend | src/farfler/network/pingpong.cpp:165-179 | writing a TCP record into a packet appends it to what is already there |
| Messages.UdpPingParsesAlone | src/farfler/network/pingpong.cpp:21-47 | a udp_ping sent on its own reads back, after its tag, as the same ping with nothing left over |
| Messages.UdpPingRoundTrip | src/farfler/network/pingpong.cpp:21-47 | a serialized udp_ping starts with the udp_ping tag, and after the tag it reads back as the same ping |
| Messages.UdpPongRoundTrip | src/farfler/network/pingpong.cpp:65-91 | a serialized udp_pong starts with the udp_pong tag, and after the tag it reads back as the same pong |
| Messages.TcpBodyRoundTrip | src/farfler/network/pingpong.cpp:131-147 | the body of a TCP record reads back as its identity fields and then its topic list |
| Messages.TcpPingRoundTrip | src/farfler/network/pingpong.cpp:109-147 | a serialized tcp_ping starts with its tag and reads back as the same ping, topics included |
| Messages.TcpPongRoundTrip | src/farfler/network/pingpong.cpp:165-203 | a serialized tcp_pong starts with its tag and reads back as the same pong, topics included |
| PubSub.SubscribeOffline | include/farfler/network/pubsub.hpp:22-23 | subscribing offline puts the callback under the id for the topic; other topics and the online map are unchanged |
| PubSub.SubscribeOnline | include/farfler/network/pubsub.hpp:25-26 | subscribing online puts the callback under the id for the topic; other topics and the offline map are unchanged |
| PubSub.SubscribeAll | include/farfler/network/pubsub.hpp:38-39 | subscribing to both puts the same callback under the same id in both maps, and every other topic of both maps is unchanged |
| PubSub.UnsubscribeOffline | src/farfler/network/pubsub.cpp:7-11 | the id is gone from the topic's offline subscribers; every other topic and the online map are unchanged; the topic now has an entry, possibly empty |
| PubSub.UnsubscribeOnline | src/farfler/network/pubsub.cpp:13-17 | the id is gone from the topic's online subscribers; every other topic and the offline map are unchanged |
| PubSub.Unsubscribe | src/farfler/network/pubsub.cpp:35-40 | removing the id from both maps is the offline removal followed by the online one |
| PubSub.UnsubscribeAbsentIsNoop | src/farfler/network/pubsub.cpp:35-40 | removing an id the topic does not have leaves an equivalent registry |
| PubSub.UnsubscribeIdempotent | src/farfler/network/pubsub.cpp:35-40 | removing the same subscription twice is the same as removing it once |
| PubSub.SubscribeThenUnsubscribe | src/farfler/network/pubsub.cpp:35-40 | subscribing under a fresh id and then unsubscribing it gives back an equivalent registry |
| PubSub.PublishOffline | src/farfler/network/pubsub.cpp:19-25 | publishing offline delivers the message to exactly the topic's offline subscribers; the registry stays equivalent and the online map is untouched |
| PubSub.PublishOnline | src/farfler/network/pubsub.cpp:27-33 | publishing online delivers the message to exactly the topic's online subscribers; the registry stays equivalent and the offline map is untouched |
| PubSub.OfflineDelivery | src/farfler/network/pubsub.cpp:19-25 | a subscriber reaches an offline publication on its topic, with the message that was published, and a fresh id subscribed offline is never reached by an online publication |
| PubSub.OnlineDelivery | src/farfler/network/pubsub.cpp:27-33 | a subscriber reaches an online publication on its topic, with the message that was published, and a fresh id subscribed online is never reached by an offline publication |
| PubSub.GetOnlineSubscribedTopics | src/farfler/network/pubsub.cpp:42-51 | lists each topic with at least one online subscriber exactly once, and no other topic, in some order |
| PubSub.OnlineTopicsRespectEquivalence | src/farfler/network/pubsub.cpp:42-51 | registries that differ only in empty entries list the same topics |
| PubSub.UnsubscribeLastOnline | src/farfler/network/pubsub.cpp:13-17 | removing a topic's last online subscriber drops the topic from the listing and keeps every other topic |
| PubSub.SubscribeOnlineListsTopic | src/farfler/network/pubsub.cpp:42-51 | after an online subscription the topic is listed, and so is every topic listed before |
| Framing.Frame | src/farfler/network/network.cpp:356-362 | a frame is the message behind a 4-byte header |
| Framing.ParseFrame | src/farfler/network/network.cpp:208-243 | a frame read consumes at least the 4-byte header, and the stream is the header, the body and the rest, in that order |
| Framing.FrameLayout | src/farfler/network/network.cpp:356-362 | a frame is 4 bytes longer than its message and has the layout of a length-prefixed string |
| Framing.FrameParsesAlone | src/farfler/network/network.cpp:356-362 | a frame sent on its own is read back as exactly its message, with nothing left over |
| Framing.FrameRoundTrip | src/farfler/network/network.cpp:208-243 | the receiver gets back exactly the message that was framed and keeps the following bytes for the next read |
| Framing.ParseFrameTruncated | src/farfler/network/network.cpp:211-237 | a stream shorter than the 4-byte header, or a body shorter than its header announces, yields no message |
| Framing.SplitJoinFrames | src/farfler/network/network.cpp:208-243 | back-to-back frames are cut into exactly their messages, in order |
| Framing.SplitFramesCover | src/farfler/network/network.cpp:208-243 | the frames cut from a stream plus the incomplete remainder make up the stream |
| Framing.ReceiveFrames | src/farfler/network/network.cpp:208-243 | the re-arming receive loop yields the messages of the stream's complete frames, in order, and stops at the first incomplete one |
| Framing.FrameOfParsed | src/farfler/network/network.cpp:222-239 | what a frame read consumed is the frame of the message it returned |
| Framing.JoinFramesSnoc | src/farfler/network/network.cpp:356-362 | sending one more message appends its frame to the stream |
| Framing.SerializePublication | src/farfler/network/network.cpp:377-387 | a publication is 12 bytes longer than its tag, topic and payload together, starts with the publication tag and ends with the payload |
| Framing.DeserializePublication | src/farfler/network/network.cpp:324-330 | a publication read back yields a topic and payload shorter than 2^32, the payload no longer than the packet |
| Framing.PublicationLayout | src/farfler/network/network.cpp:377-387 | a publication is the tag, the topic, the u32 payload length and the payload |
| Framing.PublicationBodyRoundTrip | src/farfler/network/network.cpp:324-330 | the topic, the u32 payload size and the payload read back as the topic and exactly the payload |
| Framing.PublicationRoundTrip | src/farfler/network/network.cpp:324-330 | once its tag is read, a publication yields the topic and exactly the payload that were sent |
| Network.DiscoveryBroadcast | src/farfler/network/network.cpp:99-107 | the discovery timer broadcasts a packet that starts with the udp_ping tag and, after it, reads back as this node's ping |
| Network.ReceiveDatagram | src/farfler/network/network.cpp:61-77 | the handler sees at most the first 1024 bytes of a datagram, and all of it when it fits |
| Network.HandleUdpPing | src/farfler/network/network.cpp:149-163 | answering a ping never changes the node, and fails only when the ping is truncated |
| Network.HandleUdpPong | src/farfler/network/network.cpp:165-177 | handling a pong never changes the node, and fails only when the pong is truncated |
| Network.ProcessUdpMessage | src/farfler/network/network.cpp:138-147 | UDP traffic never changes the node and starts at most one effect |
| Network.UdpDispatch | src/farfler/network/network.cpp:138-147 | a datagram goes to the ping handler or the pong handler by its tag, and any other tag is ignored |
| Network.UdpPingAnswered | src/farfler/network/network.cpp:149-163 | a ping from another node is answered by broadcasting our own pong; our own ping is ignored |
| Network.UdpPongDials | src/farfler/network/network.cpp:165-177 | a pong makes the node dial exactly when the sender is not the node itself and is neither pending nor verified, and the dial uses the pong's endpoint |
| Network.DiscoveryLeadsToDial | src/farfler/network/network.cpp:99-177 | one node's discovery ping is answered by another node, and the answer makes the first node dial the endpoint the second advertises |
| Network.PingFrame | src/farfler/network/network.cpp:341-362 | the frame of our tcp_ping, which lists the registry's online topics, is cut back out of the stream as exactly that record |
| Network.PongFrame | src/farfler/network/network.cpp:285-302 | the frame of our tcp_pong, which lists the registry's online topics, is cut back out of the stream as exactly that record |
| Network.ConnectSucceeded | src/farfler/network/network.cpp:192-200 | a completed dial records the peer as pending on the new socket, changes no other entry, starts reading that socket and then sends our tcp_ping on it |
| Network.HandleTcpError | src/farfler/network/network.cpp:245-268 | after a TCP error neither map refers to the failed socket, every entry on another socket survives, and the registry is untouched |
| Network.HandleTcpErrorIdempotent | src/farfler/network/network.cpp:245-268 | handling the same socket error twice is the same as handling it once |
| Network.HandleTcpPing | src/farfler/network/network.cpp:285-302 | a tcp_ping is handled exactly when it decodes; the node records nothing about the sender and sends exactly one message, on the socket the ping came in on |
| Network.HandleTcpPong | src/farfler/network/network.cpp:304-322 | a tcp_pong makes its sender verified on this socket and removes it from pending |
| Network.HandlePublication | src/farfler/network/network.cpp:324-330 | a publication leaves both peer maps alone and leaves the registry equivalent |
| Network.ProcessTcpMessage | src/farfler/network/network.cpp:270-283 | no TCP message changes the node's own identity |
| Network.TcpDispatch | src/farfler/network/network.cpp:270-283 | a message goes to the tcp_ping, tcp_pong or publication handler by its tag, and any other tag is ignored |
| Network.TcpPingAnswered | src/farfler/network/network.cpp:285-302 | an encoded tcp_ping is answered with one framed tcp_pong on the same socket and changes nothing |
| Network.TcpPongPromotes | src/farfler/network/network.cpp:304-322 | an encoded tcp_pong sets its sender's verified socket, removes it from pending, leaves every other entry alone and starts nothing |
| Network.PublicationDelivered | src/farfler/network/network.cpp:324-330 | a publication is delivered to exactly the topic's online subscribers, with the payload that was sent |
| Network.OnlinePublicationReachesSubscriber | src/farfler/network/network.cpp:377-387 | a framed publication is cut from the stream intact and reaches each online subscriber of its topic with the sent payload |
| Network.HandshakeVerifies | src/farfler/network/network.cpp:192-322 | dial, read start and tcp_ping, tcp_pong: the dialer ends with the peer verified on the dialed socket and no longer pending |
| Network.HandleTcpPongKeepsPeersDisjoint | src/farfler/network/network.cpp:314-318 | promoting a peer keeps every id in at most one of the two maps |
| Network.HandleTcpErrorKeepsPeersDisjoint | src/farfler/network/network.cpp:245-268 | purging a socket keeps every id in at most one of the two maps |
| Network.ConnectSucceededDisjointness | src/farfler/network/network.cpp:192-198 | a completed dial keeps the maps disjoint exactly when the peer was not verified in the meantime |
| Network.SendPublication | src/farfler/network/network.cpp:377-387 | a publication goes to the given socket in one frame that the receiver cuts back out as exactly the publication |
| Network.BroadcastSubscriptionUpdate | src/farfler/network/network.cpp:389-405 | one tcp_ping carrying the current online topics is sent once to each verified peer's socket, and to nobody else |
| Network.NodeUnsubscribeOffline | src/farfler/network/network.cpp:417-421 | an offline unsubscribe keeps the node's identity and both peer maps, removes only the id from only the topic's offline subscribers, leaves the online map and so the advertised topics alone, and sends nothing |
| Network.NodeUnsubscribeOnline | src/farfler/network/network.cpp:433-438 | an online unsubscribe keeps the node's identity and peer maps and is followed by one update to each verified peer, no peer twice, listing the new online topics |
| Network.NodeUnsubscribeAll | src/farfler/network/network.cpp:450-455 | unsubscribing from both maps keeps the node's identity and peer maps and is followed by one update to each verified peer, no peer twice, listing the new online topics |

## Left out

- Sockets, the asio event loop, the resolver, timers and the strand are not
  modelled. Writes, broadcasts, dials, callback calls and the start of
  reading on a dialed socket become an `Effect`. Only the order of effects
  within one handler is represented.
- Re-arming a read or a timer is not an `Effect`:
  - `StartReceivingUdpMessages` re-arming itself after each datagram;
  - `StartReceivingTcpMessages` on an accepted socket;
  - `StartReceivingTcpMessages` after each frame, whose loop is `ReceiveFrames`
    as a whole;
  - the one-second discovery timer.

  `HandshakeVerifies` takes it that the accepting node reads its end of the
  connection.
- The broadcast address and the discovery port 21075 are not part of
  `UdpBroadcast`, since every broadcast goes to the same place.
- Mutexes and concurrency are not modelled. Handlers are treated as atomic,
  as they are on the single strand. What matters across handlers is
  stated as the invariant `PeersDisjoint`, together with the race that
  breaks it.
- UUID generation for node ids and subscription ids is not modelled.
  - Ids are opaque byte strings.
  - The subscribe functions take the id as a parameter and accept any id.
    Freshness, which the random UUID is assumed to provide, is assumed only
    where a property needs it: `SubscribeThenUnsubscribe` and the `Fresh`
    clauses of the two delivery lemmas.
  - The subscribe templates live in `pubsub.tpp`, which is not part of this
    model; the subscribe functions follow their declarations in
    `pubsub.hpp`.
- `network.tpp` (the `Network` subscribe and publish templates) is not part
  of this model.
  - A publication sent to a peer is modelled through `SendPublication` and
    its frame.
  - The fan-out to every verified peer is not modelled.
- `Number<float>`, `Number<double>`, `Number<bool>`, `Vector2`, `Vector3` and
  `Coordinate` are left out, because floating point has no faithful
  counterpart here. `bool` is left out because its byte representation is
  implementation-defined.
- The singleton `instance` and the constructors are left out.
  - The public constructor, when no instance exists yet, creates a second
    `Network` as the instance through the private constructor and returns
    with its own sockets unopened.
  - The private constructor opens the sockets and starts the receive, accept
    and discovery loops, which are modelled as transitions from an
    arbitrary node state.
- The static wrappers that forward to the instance are left out: they only
  add the "initialize first" check and logging.
- The Python bindings, `setup.py` and the examples are left out.
- Logging is left out. `UpdatePeerSubscriptions` only prints the peer's
  topics, so nothing is recorded for them.
- The host byte order is fixed to little-endian.
- Codec.StringRoundTrip: it requires the string to be shorter than 2^32
  bytes. Longer strings get a truncated length prefix, which the model
  computes (`LengthPrefix`) but about which no round trip is claimed.
- Messages.TopicsRoundTrip: it requires every topic, and the number of topics,
  to be below 2^32, for the same reason.
- Framing.FrameRoundTrip: it requires the message to be shorter than 2^32
  bytes, for the same reason.
- Network.HandshakeVerifies: it requires both encoded records to be shorter
  than 2^32 bytes, for the same reason.
- Network.OnlinePublicationReachesSubscriber: it requires the encoded
  publication to be shorter than 2^32 bytes, for the same reason.
- Reads past the end of a buffer are undefined behaviour in the C++ code. The
  model returns `Err(Truncated(..))` for them instead.
- `GetOnlineSubscribedTopics` walks an `unordered_map`, so its order is
  unspecified.
  - The method picks keys nondeterministically and promises only the set of
    topics and the absence of duplicates.
  - The handlers that embed the list take it as a `snapshot` parameter.
- `PubSub::UnsubscribeAll` is declared in `pubsub.hpp` but defined in
  `pubsub.cpp` under the name `Unsubscribe`. The model follows the
  definition (`PubSub.Unsubscribe`), and `Network.NodeUnsubscribeAll` calls
  it.
- Only the dialing side records a peer. `HandleTcpPing` answers but adds no
  map entry, so the accepting side learns of a peer only by dialing it in
  turn.
- The accepted-connection path (`StartAcceptingTcpConnections`) is not a
  transition of its own. It records nothing in either map and starts the
  receive loop on the accepted socket, whose messages go through
  `ProcessTcpMessage`.
- The dialer's failure branch only logs, so it is not modelled as a
  transition.
- Network.DiscoveryLeadsToDial and Network.HandshakeVerifies: the addresses a
  node advertises are part of the parameter `me`, and the dialed socket is a
  parameter taken to reach the advertised node.
  - The C++ code binds its acceptor to the IPv4 wildcard (network.cpp:49-52).
  - It advertises that acceptor's local address (network.cpp:105), which is
    `0.0.0.0`.
  - `ConnectToPeer` resolves and dials that address (network.cpp:184), which
    reaches the dialer's own host.

  So the connection premise holds only between nodes on one host, and the
  model does not claim more.
- Network.DiscoveryLeadsToDial: it requires both encoded records to fit the
  1024-byte receive buffer. A longer datagram is cut to its first 1024 bytes
  (`ReceiveDatagram`), and no discovery is claimed for it.
