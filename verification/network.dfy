/** The peer bookkeeping of `network.cpp`, as pure transitions.

    A node keeps two maps from peer id to socket: `pending` (the C++ code's
    `unverified_tcp_sockets_`: connected, handshake not finished) and
    `verified` (the C++ code's `connecting_tcp_sockets_`, which despite its
    name holds the peers whose handshake completed). Sockets are opaque
    handles of type `S`, callbacks opaque values of type `C`.

    Most socket completions become a transition from a node to a `Step`: the
    next node and the effects the handler starts (datagrams, dials, reads
    started on a new connection, TCP writes, callback invocations). The I/O
    itself is not modelled. A packet too short
    for the fields it declares yields `Err` where the C++ code reads out of
    bounds.

    The topic list a handler puts into a `TcpPing`/`TcpPong` is whatever
    `GetOnlineSubscribedTopics` returned at that moment. Its order is
    unspecified, so the handlers take it as the parameter `snapshot` and
    require it to be such a listing of the node's registry.
 */
module Network {
  import opened Wrappers
  import opened Codec
  import opened Messages
  import opened PubSub
  import opened Framing

  type PeerId = Bytes

  datatype Node<S, C> = Node(
    me: NodeInfo,
    pending: map<PeerId, S>,
    verified: map<PeerId, S>,
    registry: Registry<C>)

  /** What a handler starts. */
  datatype Effect<S, C> =
    /** Send `packet` to the broadcast address on the discovery port. */
    | UdpBroadcast(packet: Bytes)
    /** Open a TCP connection to the endpoint `peer` advertises. */
    | Connect(peer: UdpPong)
    /** Start the frame receive loop on `socket`. */
    | TcpReceive(socket: S)
    /** Write `frame` to `socket`. */
    | TcpSend(socket: S, frame: Bytes)
    /** Call each callback of the delivery with its message. */
    | Invoke(delivery: Delivery<C>)

  datatype Step<S, C> = Step(node: Node<S, C>, effects: seq<Effect<S, C>>)

  /** The size of the buffer a received datagram is copied into. */
  const UDP_BUFFER_SIZE: nat := 1024

  /** A peer id is in at most one of the two maps. */
  predicate PeersDisjoint<S, C>(node: Node<S, C>) {
    node.pending.Keys !! node.verified.Keys
  }

  /** A UDP pong makes the node dial: the sender is another node that is
      neither pending nor verified. */
  predicate ShouldDial<S, C>(node: Node<S, C>, id: PeerId) {
    id != node.me.id && id !in node.pending && id !in node.verified
  }

  // ---------------------------------------------------------------------
  // UDP discovery
  // ---------------------------------------------------------------------

  /** One tick of the discovery timer: broadcast this node's `UdpPing`. */
  function DiscoveryBroadcast<S, C>(node: Node<S, C>): (e: Effect<S, C>)
    ensures e.UdpBroadcast?
    ensures |EncodeString(UdpPingTag)| <= |e.packet|
    ensures e.packet[..|EncodeString(UdpPingTag)|] == EncodeString(UdpPingTag)
    ensures node.me.Valid() ==>
              var tag := DeserializeString(e.packet);
              && tag.Ok? && tag.value.value == UdpPingTag
              && DeserializeUdpPing(tag.value.rest) == Ok(Read(UdpPing(node.me), []))
  {
    UdpPingParsesAlone(UdpPing(node.me));
    UdpBroadcast(EncodeUdpPing(UdpPing(node.me)))
  }

  /** `StartReceivingUdpMessages`: a datagram is copied into the fixed receive
      buffer, so at most its first `UDP_BUFFER_SIZE` bytes reach the handler. */
  function ReceiveDatagram(datagram: Bytes): (r: Bytes)
    ensures |r| <= UDP_BUFFER_SIZE && |r| <= |datagram|
    ensures r == datagram[..|r|]
    ensures |datagram| <= UDP_BUFFER_SIZE ==> r == datagram
  {
    if |datagram| <= UDP_BUFFER_SIZE then datagram else datagram[..UDP_BUFFER_SIZE]
  }

  /** `HandleUdpPing`: answer every ping but our own with a `UdpPong`. */
  function HandleUdpPing<S, C>(node: Node<S, C>, packet: Bytes): (r: Result<Step<S, C>>)
    ensures r.Ok? <==> DeserializeUdpPing(packet).Ok?
    ensures r.Ok? ==> r.value.node == node
  {
    var msg :- DeserializeUdpPing(packet);
    if msg.value.info.id != node.me.id then
      Ok(Step(node, [UdpBroadcast(EncodeUdpPong(UdpPong(node.me)))]))
    else
      Ok(Step(node, []))
  }

  /** `HandleUdpPong`: dial a sender that is not us and not yet known. */
  function HandleUdpPong<S, C>(node: Node<S, C>, packet: Bytes): (r: Result<Step<S, C>>)
    ensures r.Ok? <==> DeserializeUdpPong(packet).Ok?
    ensures r.Ok? ==> r.value.node == node
  {
    var msg :- DeserializeUdpPong(packet);
    if ShouldDial(node, msg.value.info.id) then
      Ok(Step(node, [Connect(msg.value)]))
    else
      Ok(Step(node, []))
  }

  /** `ProcessUdpMessage`: read the tag and hand the rest to its handler;
      any other tag is ignored. UDP traffic never changes the node. */
  function ProcessUdpMessage<S, C>(node: Node<S, C>, packet: Bytes): (r: Result<Step<S, C>>)
    ensures r.Ok? ==> r.value.node == node && |r.value.effects| <= 1
  {
    var tag :- DeserializeString(packet);
    if tag.value == UdpPingTag then HandleUdpPing(node, tag.rest)
    else if tag.value == UdpPongTag then HandleUdpPong(node, tag.rest)
    else Ok(Step(node, []))
  }

  /** A datagram is routed by its leading tag. */
  lemma UdpDispatch<S, C>(node: Node<S, C>, tag: Bytes, body: Bytes)
    requires Fits32(tag)
    ensures ProcessUdpMessage(node, EncodeString(tag) + body)
         == if tag == UdpPingTag then HandleUdpPing(node, body)
            else if tag == UdpPongTag then HandleUdpPong(node, body)
            else Ok(Step(node, []))
  {
    StringRoundTrip(tag, body);
  }

  /** A ping from another node is answered with our own pong; our own ping
      (the broadcast comes back to us) is ignored. */
  lemma UdpPingAnswered<S, C>(node: Node<S, C>, m: UdpPing)
    requires m.info.Valid()
    ensures ProcessUdpMessage(node, EncodeUdpPing(m))
         == Ok(Step(node, if m.info.id != node.me.id then [UdpBroadcast(EncodeUdpPong(UdpPong(node.me)))] else []))
  {
    UdpPingRoundTrip(m, []);
    assert EncodeUdpPing(m) + [] == EncodeUdpPing(m);
  }

  /** A pong makes the node dial exactly when the sender is another node that
      is in neither peer map, and the dial targets the endpoint in the pong. */
  lemma UdpPongDials<S, C>(node: Node<S, C>, m: UdpPong)
    requires m.info.Valid()
    ensures ProcessUdpMessage(node, EncodeUdpPong(m))
         == Ok(Step(node, if ShouldDial(node, m.info.id) then [Connect(m)] else []))
  {
    UdpPongRoundTrip(m, []);
    TagsDistinct();
    assert EncodeUdpPong(m) + [] == EncodeUdpPong(m);
  }

  /** Discovery between two nodes whose records fit the receive buffer: the
      second answers the first one's broadcast, and the answer makes the first
      dial the second. */
  lemma DiscoveryLeadsToDial<S, C>(a: Node<S, C>, b: Node<S, C>)
    requires a.me.Valid() && b.me.Valid()
    requires a.me.id != b.me.id
    requires b.me.id !in a.pending && b.me.id !in a.verified
    requires |EncodeUdpPing(UdpPing(a.me))| <= UDP_BUFFER_SIZE
    requires |EncodeUdpPong(UdpPong(b.me))| <= UDP_BUFFER_SIZE
    ensures ProcessUdpMessage(b, ReceiveDatagram(DiscoveryBroadcast(a).packet))
         == Ok(Step(b, [UdpBroadcast(EncodeUdpPong(UdpPong(b.me)))]))
    ensures ProcessUdpMessage(a, ReceiveDatagram(EncodeUdpPong(UdpPong(b.me))))
         == Ok(Step(a, [Connect(UdpPong(b.me))]))
  {
    UdpPingAnswered(b, UdpPing(a.me));
    UdpPongDials(a, UdpPong(b.me));
  }

  // ---------------------------------------------------------------------
  // TCP connections
  // ---------------------------------------------------------------------

  /** `SendTcpPing`: the frame carrying this node's `TcpPing`, which advertises
      the topics the node has online subscribers for. */
  function PingFrame<S, C>(node: Node<S, C>, snapshot: seq<Topic>): (r: Bytes)
    requires IsTopicListing(node.registry, snapshot)
    ensures Fits32(EncodeTcpPing(TcpPing(node.me, snapshot))) ==>
              ParseFrame(r) == Ok(Read(EncodeTcpPing(TcpPing(node.me, snapshot)), []))
  {
    var packet := EncodeTcpPing(TcpPing(node.me, snapshot));
    FrameParsesAlone(packet);
    Frame(packet)
  }

  /** The frame carrying this node's `TcpPong`, which advertises the topics the
      node has online subscribers for. */
  function PongFrame<S, C>(node: Node<S, C>, snapshot: seq<Topic>): (r: Bytes)
    requires IsTopicListing(node.registry, snapshot)
    ensures Fits32(EncodeTcpPong(TcpPong(node.me, snapshot))) ==>
              ParseFrame(r) == Ok(Read(EncodeTcpPong(TcpPong(node.me, snapshot)), []))
  {
    var packet := EncodeTcpPong(TcpPong(node.me, snapshot));
    FrameParsesAlone(packet);
    Frame(packet)
  }

  /** The success branch of `ConnectToPeer`: the peer becomes pending on the
      new socket, the receive loop starts on it, and then our `TcpPing` is
      written to it. */
  function ConnectSucceeded<S, C>(node: Node<S, C>, peer: UdpPong, socket: S, snapshot: seq<Topic>): (s: Step<S, C>)
    requires IsTopicListing(node.registry, snapshot)
    ensures peer.info.id in s.node.pending && s.node.pending[peer.info.id] == socket
    ensures forall id | id != peer.info.id :: (id in s.node.pending <==> id in node.pending)
    ensures forall id | id != peer.info.id && id in node.pending :: s.node.pending[id] == node.pending[id]
    ensures s.node.verified == node.verified && s.node.registry == node.registry && s.node.me == node.me
    ensures s.effects == [TcpReceive(socket), TcpSend(socket, PingFrame(node, snapshot))]
  {
    Step(node.(pending := node.pending[peer.info.id := socket]),
         [TcpReceive(socket), TcpSend(socket, PingFrame(node, snapshot))])
  }

  /** The entries of `m` whose socket is not `socket`. */
  function WithoutSocket<S(==)>(m: map<PeerId, S>, socket: S): (r: map<PeerId, S>)
    ensures forall id :: id in r <==> id in m && m[id] != socket
    ensures forall id | id in r :: r[id] == m[id]
  {
    map id | id in m && m[id] != socket :: m[id]
  }

  /** `HandleTcpError`: forget every peer, pending or verified, that used the
      failed socket, and no other. */
  function HandleTcpError<S(==), C>(node: Node<S, C>, socket: S): (n: Node<S, C>)
    ensures forall id | id in n.verified :: n.verified[id] != socket
    ensures forall id | id in n.pending :: n.pending[id] != socket
    ensures forall id | id in node.verified && node.verified[id] != socket ::
              id in n.verified && n.verified[id] == node.verified[id]
    ensures forall id | id in node.pending && node.pending[id] != socket ::
              id in n.pending && n.pending[id] == node.pending[id]
    ensures n.verified.Keys <= node.verified.Keys && n.pending.Keys <= node.pending.Keys
    ensures n.me == node.me && n.registry == node.registry
  {
    node.(verified := WithoutSocket(node.verified, socket),
          pending := WithoutSocket(node.pending, socket))
  }

  /** Purging a socket twice is purging it once. */
  lemma HandleTcpErrorIdempotent<S, C>(node: Node<S, C>, socket: S)
    ensures HandleTcpError(HandleTcpError(node, socket), socket) == HandleTcpError(node, socket)
  {
    var n := HandleTcpError(node, socket);
    assert WithoutSocket(n.verified, socket) == n.verified;
    assert WithoutSocket(n.pending, socket) == n.pending;
  }

  /** `HandleTcpPing`: reply on the same socket with our `TcpPong`. The sender
      is recorded nowhere: the accepting side keeps no map entry for it. */
  function HandleTcpPing<S, C>(node: Node<S, C>, packet: Bytes, socket: S, snapshot: seq<Topic>): (r: Result<Step<S, C>>)
    requires IsTopicListing(node.registry, snapshot)
    ensures r.Ok? <==> DeserializeTcpPing(packet).Ok?
    ensures r.Ok? ==> r.value.node == node && |r.value.effects| == 1
    ensures r.Ok? ==> r.value.effects[0].TcpSend? && r.value.effects[0].socket == socket
  {
    var msg :- DeserializeTcpPing(packet);
    Ok(Step(node, [TcpSend(socket, PongFrame(node, snapshot))]))
  }

  /** `HandleTcpPong`: the sender becomes verified on this socket and stops
      being pending. */
  function HandleTcpPong<S, C>(node: Node<S, C>, packet: Bytes, socket: S): (r: Result<Step<S, C>>)
    ensures r.Ok? <==> DeserializeTcpPong(packet).Ok?
    ensures r.Ok? ==> var id := DeserializeTcpPong(packet).value.value.info.id;
                      && id in r.value.node.verified && r.value.node.verified[id] == socket
                      && id !in r.value.node.pending
  {
    var msg :- DeserializeTcpPong(packet);
    var id := msg.value.info.id;
    Ok(Step(node.(verified := node.verified[id := socket], pending := node.pending - {id}), []))
  }

  /** `HandlePublication`: deliver the payload to the topic's online subscribers. */
  function HandlePublication<S, C>(node: Node<S, C>, packet: Bytes): (r: Result<Step<S, C>>)
    ensures r.Ok? ==> Equivalent(r.value.node.registry, node.registry)
    ensures r.Ok? ==> r.value.node.pending == node.pending && r.value.node.verified == node.verified
  {
    var publication :- DeserializePublication(packet);
    var published := PublishOnline(node.registry, publication.0, publication.1);
    Ok(Step(node.(registry := published.registry), [Invoke(published.delivery)]))
  }

  /** `ProcessTcpMessage`: read the tag of a received frame's payload and hand
      the rest to its handler; any other tag is ignored. */
  function ProcessTcpMessage<S, C>(node: Node<S, C>, packet: Bytes, socket: S, snapshot: seq<Topic>): (r: Result<Step<S, C>>)
    requires IsTopicListing(node.registry, snapshot)
    ensures r.Ok? ==> r.value.node.me == node.me
  {
    var tag :- DeserializeString(packet);
    if tag.value == TcpPingTag then HandleTcpPing(node, tag.rest, socket, snapshot)
    else if tag.value == TcpPongTag then HandleTcpPong(node, tag.rest, socket)
    else if tag.value == PublicationTag then HandlePublication(node, tag.rest)
    else Ok(Step(node, []))
  }

  /** `SendPublication`: the framed publication written to one socket. */
  function SendPublication<S, C>(socket: S, topic: Topic, message: Bytes): (e: Effect<S, C>)
    ensures e.TcpSend? && e.socket == socket
    ensures Fits32(SerializePublication(topic, message)) ==>
              ParseFrame(e.frame) == Ok(Read(SerializePublication(topic, message), []))
  {
    var packet := SerializePublication(topic, message);
    FrameParsesAlone(packet);
    TcpSend(socket, Frame(packet))
  }

  /** A message is routed by its leading tag. */
  lemma TcpDispatch<S, C>(node: Node<S, C>, tag: Bytes, body: Bytes, socket: S, snapshot: seq<Topic>)
    requires Fits32(tag) && IsTopicListing(node.registry, snapshot)
    ensures ProcessTcpMessage(node, EncodeString(tag) + body, socket, snapshot)
         == if tag == TcpPingTag then HandleTcpPing(node, body, socket, snapshot)
            else if tag == TcpPongTag then HandleTcpPong(node, body, socket)
            else if tag == PublicationTag then HandlePublication(node, body)
            else Ok(Step(node, []))
  {
    StringRoundTrip(tag, body);
  }

  /** A `TcpPing` is answered on the same socket with our `TcpPong`. */
  lemma TcpPingAnswered<S, C>(node: Node<S, C>, m: TcpPing, socket: S, snapshot: seq<Topic>)
    requires m.info.Valid() && ValidTopics(m.subscribedTopics)
    requires IsTopicListing(node.registry, snapshot)
    ensures ProcessTcpMessage(node, EncodeTcpPing(m), socket, snapshot)
         == Ok(Step(node, [TcpSend(socket, PongFrame(node, snapshot))]))
  {
    TcpPingRoundTrip(m, []);
    assert EncodeTcpPing(m) + [] == EncodeTcpPing(m);
  }

  /** A `TcpPong` promotes its sender to verified on this socket, removes it
      from pending, and leaves every other entry alone. */
  lemma TcpPongPromotes<S, C>(node: Node<S, C>, m: TcpPong, socket: S, snapshot: seq<Topic>)
    requires m.info.Valid() && ValidTopics(m.subscribedTopics)
    requires IsTopicListing(node.registry, snapshot)
    ensures var r := ProcessTcpMessage(node, EncodeTcpPong(m), socket, snapshot);
            && r.Ok? && r.value.effects == []
            && r.value.node.verified == node.verified[m.info.id := socket]
            && r.value.node.pending == node.pending - {m.info.id}
            && r.value.node.registry == node.registry
  {
    TcpPongRoundTrip(m, []);
    TagsDistinct();
    assert EncodeTcpPong(m) + [] == EncodeTcpPong(m);
  }

  /** A publication reaches exactly the topic's online subscribers, with the
      payload that was sent. */
  lemma PublicationDelivered<S, C>(node: Node<S, C>, topic: Topic, message: Bytes, socket: S, snapshot: seq<Topic>)
    requires Fits32(topic) && Fits32(message)
    requires IsTopicListing(node.registry, snapshot)
    ensures var r := ProcessTcpMessage(node, SerializePublication(topic, message), socket, snapshot);
            && r.Ok?
            && r.value.effects == [Invoke(Delivery(Lookup(node.registry.online, topic), message))]
            && r.value.node == node.(registry := PublishOnline(node.registry, topic, message).registry)
  {
    PublicationRoundTrip(topic, message);
    TagsDistinct();
  }

  /** A publication written to a peer is cut from the stream by the peer's
      receive loop and reaches its online subscribers of the topic, once each. */
  lemma OnlinePublicationReachesSubscriber<S, C>(
    receiver: Node<S, C>, sender: S, receiverSocket: S, topic: Topic, message: Bytes,
    id: SubscriptionId, callback: C, snapshot: seq<Topic>)
    requires Fits32(topic) && Fits32(message)
    requires Fits32(SerializePublication(topic, message))
    requires IsTopicListing(receiver.registry, snapshot)
    requires id in Lookup(receiver.registry.online, topic)
    requires Lookup(receiver.registry.online, topic)[id] == callback
    ensures var frame := SendPublication<S, C>(sender, topic, message).frame;
            var parsed := ParseFrame(frame);
            && parsed == Ok(Read(SerializePublication(topic, message), []))
            && var r := ProcessTcpMessage(receiver, parsed.value.value, receiverSocket, snapshot);
               && r.Ok? && |r.value.effects| == 1
               && r.value.effects[0].Invoke?
               && var d := r.value.effects[0].delivery;
                  id in d.callbacks && d.callbacks[id] == callback && d.message == message
  {
    var packet := SerializePublication(topic, message);
    FrameRoundTrip(packet, []);
    assert Frame(packet) + [] == Frame(packet);
    PublicationDelivered(receiver, topic, message, receiverSocket, snapshot);
  }

  // ---------------------------------------------------------------------
  // The handshake and the peer-map invariant
  // ---------------------------------------------------------------------

  /** The full handshake. The dialer `a` connects to `b`, starts reading the
      dialed socket and sends its ping; `b`, reading its end of the connection
      since it accepted it, answers with its pong; the pong makes `b` verified
      at `a` on the dialed socket and no longer pending. */
  lemma HandshakeVerifies<S, C>(
    a: Node<S, C>, b: Node<S, C>, aSocket: S, bSocket: S, aSnapshot: seq<Topic>, bSnapshot: seq<Topic>)
    requires a.me.Valid() && b.me.Valid()
    requires ValidTopics(aSnapshot) && ValidTopics(bSnapshot)
    requires IsTopicListing(a.registry, aSnapshot) && IsTopicListing(b.registry, bSnapshot)
    requires Fits32(EncodeTcpPing(TcpPing(a.me, aSnapshot))) && Fits32(EncodeTcpPong(TcpPong(b.me, bSnapshot)))
    ensures var dialed := ConnectSucceeded(a, UdpPong(b.me), aSocket, aSnapshot);
            && dialed.effects == [TcpReceive(aSocket), TcpSend(aSocket, PingFrame(a, aSnapshot))]
            && var ping := ParseFrame(PingFrame(a, aSnapshot));
               && ping == Ok(Read(EncodeTcpPing(TcpPing(a.me, aSnapshot)), []))
               && ProcessTcpMessage(b, ping.value.value, bSocket, bSnapshot)
                  == Ok(Step(b, [TcpSend(bSocket, PongFrame(b, bSnapshot))]))
               && var pong := ParseFrame(PongFrame(b, bSnapshot));
                  && pong == Ok(Read(EncodeTcpPong(TcpPong(b.me, bSnapshot)), []))
                  && var done := ProcessTcpMessage(dialed.node, pong.value.value, aSocket, aSnapshot);
                     && done.Ok?
                     && done.value.node.verified == a.verified[b.me.id := aSocket]
                     && b.me.id !in done.value.node.pending
  {
    var pingPacket := EncodeTcpPing(TcpPing(a.me, aSnapshot));
    var pongPacket := EncodeTcpPong(TcpPong(b.me, bSnapshot));
    FrameRoundTrip(pingPacket, []);
    FrameRoundTrip(pongPacket, []);
    assert Frame(pingPacket) + [] == Frame(pingPacket);
    assert Frame(pongPacket) + [] == Frame(pongPacket);
    TcpPingAnswered(b, TcpPing(a.me, aSnapshot), bSocket, bSnapshot);
    var dialed := ConnectSucceeded(a, UdpPong(b.me), aSocket, aSnapshot);
    TcpPongPromotes(dialed.node, TcpPong(b.me, bSnapshot), aSocket, aSnapshot);
  }

  /** Handling a `TcpPong` keeps every peer id in at most one map. */
  lemma HandleTcpPongKeepsPeersDisjoint<S, C>(node: Node<S, C>, packet: Bytes, socket: S)
    requires PeersDisjoint(node)
    ensures var r := HandleTcpPong(node, packet, socket);
            r.Ok? ==> PeersDisjoint(r.value.node)
  {
  }

  /** Purging a failed socket keeps every peer id in at most one map. */
  lemma HandleTcpErrorKeepsPeersDisjoint<S, C>(node: Node<S, C>, socket: S)
    requires PeersDisjoint(node)
    ensures PeersDisjoint(HandleTcpError(node, socket))
  {
  }

  /** A completed dial keeps the maps disjoint only if the peer did not become
      verified while the dial was outstanding. Nothing rechecks this when the
      connection completes, so a second dial to an already verified peer puts
      its id in both maps. */
  lemma ConnectSucceededDisjointness<S, C>(node: Node<S, C>, peer: UdpPong, socket: S, snapshot: seq<Topic>)
    requires PeersDisjoint(node) && IsTopicListing(node.registry, snapshot)
    ensures PeersDisjoint(ConnectSucceeded(node, peer, socket, snapshot).node) <==> peer.info.id !in node.verified
  {
    var n := ConnectSucceeded(node, peer, socket, snapshot).node;
    if peer.info.id in node.verified {
      assert peer.info.id in n.pending.Keys * n.verified.Keys;
    }
  }

  // ---------------------------------------------------------------------
  // Subscription updates
  // ---------------------------------------------------------------------

  /** `BroadcastSubscriptionUpdate`: build one `TcpPing` with the current
      online topics and write it once to the socket of every verified peer. */
  method BroadcastSubscriptionUpdate<S, C>(node: Node<S, C>)
    returns (topics: seq<Topic>, targets: seq<PeerId>, effects: seq<Effect<S, C>>)
    ensures IsTopicListing(node.registry, topics)
    ensures NoDuplicates(targets)
    ensures forall id :: id in targets <==> id in node.verified
    ensures |effects| == |targets|
    ensures forall i | 0 <= i < |targets| ::
              targets[i] in node.verified
              && effects[i] == TcpSend(node.verified[targets[i]], PingFrame(node, topics))
  {
    topics := GetOnlineSubscribedTopics(node.registry);
    var frame := PingFrame(node, topics);
    targets := [];
    effects := [];
    var remaining := node.verified.Keys;
    while remaining != {}
      invariant remaining <= node.verified.Keys
      invariant NoDuplicates(targets)
      invariant forall id :: id in targets <==> id in node.verified && id !in remaining
      invariant |effects| == |targets|
      invariant forall i | 0 <= i < |targets| ::
                  targets[i] in node.verified && effects[i] == TcpSend(node.verified[targets[i]], frame)
      decreases remaining
    {
      var id :| id in remaining;
      targets := targets + [id];
      effects := effects + [TcpSend(node.verified[id], frame)];
      remaining := remaining - {id};
    }
  }

  /** `Network::UnsubscribeOffline(Network&, ...)`: registry only, no traffic. */
  function NodeUnsubscribeOffline<S, C>(node: Node<S, C>, topic: Topic, id: SubscriptionId): (n: Node<S, C>)
    ensures n.me == node.me && n.pending == node.pending && n.verified == node.verified
    ensures n.registry == UnsubscribeOffline(node.registry, topic, id)
    ensures Lookup(n.registry.offline, topic) == Lookup(node.registry.offline, topic) - {id}
    ensures forall t | t != topic :: Lookup(n.registry.offline, t) == Lookup(node.registry.offline, t)
    ensures n.registry.online == node.registry.online
    ensures OnlineTopics(n.registry) == OnlineTopics(node.registry)
    ensures id !in Lookup(n.registry.offline, topic)
  {
    node.(registry := UnsubscribeOffline(node.registry, topic, id))
  }

  /** `Network::UnsubscribeOnline(Network&, ...)`: unsubscribe, then announce
      the new topic list to every verified peer. */
  method NodeUnsubscribeOnline<S, C>(node: Node<S, C>, topic: Topic, id: SubscriptionId)
    returns (n: Node<S, C>, topics: seq<Topic>, targets: seq<PeerId>, effects: seq<Effect<S, C>>)
    ensures n.registry == UnsubscribeOnline(node.registry, topic, id)
    ensures n.me == node.me && n.pending == node.pending && n.verified == node.verified
    ensures IsTopicListing(n.registry, topics)
    ensures NoDuplicates(targets)
    ensures forall p :: p in targets <==> p in node.verified
    ensures |effects| == |targets|
    ensures forall i | 0 <= i < |targets| ::
              targets[i] in node.verified
              && effects[i] == TcpSend(node.verified[targets[i]], PingFrame(n, topics))
  {
    n := node.(registry := UnsubscribeOnline(node.registry, topic, id));
    topics, targets, effects := BroadcastSubscriptionUpdate(n);
  }

  /** `Network::UnsubscribeAll(Network&, ...)`: unsubscribe from both maps,
      then announce the new topic list to every verified peer. */
  method NodeUnsubscribeAll<S, C>(node: Node<S, C>, topic: Topic, id: SubscriptionId)
    returns (n: Node<S, C>, topics: seq<Topic>, targets: seq<PeerId>, effects: seq<Effect<S, C>>)
    ensures n.registry == Unsubscribe(node.registry, topic, id)
    ensures n.me == node.me && n.pending == node.pending && n.verified == node.verified
    ensures IsTopicListing(n.registry, topics)
    ensures NoDuplicates(targets)
    ensures forall p :: p in targets <==> p in node.verified
    ensures |effects| == |targets|
    ensures forall i | 0 <= i < |targets| ::
              targets[i] in node.verified
              && effects[i] == TcpSend(node.verified[targets[i]], PingFrame(n, topics))
  {
    n := node.(registry := Unsubscribe(node.registry, topic, id));
    topics, targets, effects := BroadcastSubscriptionUpdate(n);
  }
}
