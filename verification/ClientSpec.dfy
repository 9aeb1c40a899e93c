/** The MQTT client (esp_mqtt/mqtt/mqtt.c) as a state machine on values: one step for each
    callback, timer tick, task run and call of the application. */
module ClientSpec {
  import opened Octets
  import opened MqttWire
  import opened MqttConnect
  import Msg = MqttMsg
  import Framing
  import Proto
  import PacketQueue

  const BUF: nat := PacketQueue.MQTT_BUF_SIZE
  const MQTT_SEND_TIMEOUT := 5
  const MQTT_RECONNECT_TIMEOUT := 5
  const TICK_WRAP := 0x1_0000_0000

  /** The connection states that the client ever assigns. */
  datatype ConnState =
    WIFI_INIT | TCP_RECONNECT_REQ | TCP_RECONNECT | TCP_CONNECTING | MQTT_CONNECT_SENDING | MQTT_DATA

  datatype Source = Greeting | Ping | FromQueue

  /** What the client makes happen outside, in order. `reached` is false for a send that
      espconn_sent refuses, a result the client never looks at, and for one without a
      connection object. */
  datatype Output =
    | Opened                                                  // a TCP connection was established
    | Sent(packet: seq<byte>, source: Source, reached: bool)  // espconn_sent
    | Accepted                                                // CONNACK: connectedCb
    | Dropped                                                 // espconn_disconnect on an invalid packet
    | Data(topic: Option<seq<byte>>, payload: Option<seq<byte>>) // dataCb

  /** A packet that left the queue: accepted by the connection, refused by it or handed to
      none, or dropped for a newer one. */
  datatype Taken = Transmitted(packet: seq<byte>) | Lost(packet: seq<byte>) | Discarded(packet: seq<byte>)

  datatype View = View(
    connState: ConnState, sendTimeout: nat, keepAliveTick: nat, reconnectTick: nat, pendingType: nat,
    hasConn: bool, armed: bool, messageId: uint16, ring: seq<byte>, inBuffer: seq<byte>,
    log: seq<Output>, accepted: seq<seq<byte>>, taken: seq<Taken>)

  datatype Config = Config(info: ConnectInfo, ringSize: nat)

  ghost predicate Legal(v: View, cfg: Config) {
    && |v.ring| <= cfg.ringSize && Framing.WellFormed(v.ring)
    && |v.inBuffer| == BUF
  }

  function Logged(v: View, o: Output): View {
    v.(log := v.log + [o])
  }

  // ----- queueing

  /** QUEUE_Puts: on a full ring the packet is given up. */
  function Put(v: View, packet: seq<byte>, cfg: Config): View
    requires |v.ring| <= cfg.ringSize
  {
    var fits := |v.ring| + |Framing.Encode(packet)| <= cfg.ringSize;
    v.(ring := Proto.Written(v.ring, packet, cfg.ringSize),
       accepted := if fits then v.accepted + [packet] else v.accepted)
  }

  function Discard(ps: seq<seq<byte>>): (r: seq<Taken>)
    ensures |r| == |ps| && forall i :: 0 <= i < |ps| ==> r[i] == Discarded(ps[i])
  {
    seq(|ps|, i requires 0 <= i < |ps| => Discarded(ps[i]))
  }

  /** The drop-oldest loop of MQTT_Publish and MQTT_Subscribe. */
  function PutDropping(v: View, packet: seq<byte>, cfg: Config): View
    requires |v.ring| <= cfg.ringSize
  {
    var (ring, ok) := PacketQueue.Dropping(v.ring, packet, cfg.ringSize);
    var before := Framing.Decode(v.ring);
    var k := if ok then PacketQueue.Dropped(v.ring, packet, cfg.ringSize) else |before|;
    v.(ring := ring, accepted := if ok then v.accepted + [packet] else v.accepted,
       taken := v.taken + Discard(before[..if k <= |before| then k else |before|]))
  }

  function PublishPacket(topic: seq<byte>, payload: seq<byte>, qos: int, retain: int, id: uint16): seq<byte> {
    if topic == [] then []
    else Msg.Built(Flags(PUBLISH, 0, qos, retain), Msg.PublishParts(topic, qos, id, payload), BUF)
  }

  function SubscribePacket(topic: seq<byte>, id: uint16): seq<byte> {
    if topic == [] then [] else Msg.Built(Flags(SUBSCRIBE, 0, 1, 0), Msg.SubscribeParts(id, topic, 0), BUF)
  }

  /** The SUBSCRIBE for this topic fits the build buffer. */
  predicate Subscribable(topic: seq<byte>) {
    0 < |topic| <= BUF - 8
  }

  lemma SubscribableIff(topic: seq<byte>, id: uint16)
    ensures SubscribePacket(topic, id) == [] <==> !Subscribable(topic)
  {
    if topic != [] {
      var parts := Msg.SubscribeParts(id, topic, 0);
      assert |parts| == |topic| + 5;
      FinishedSomething(Flags(SUBSCRIBE, 0, 1, 0), parts);
    }
  }

  lemma FinishedSomething(first: byte, body: seq<byte>)
    ensures Msg.Finished(first, body) != []
  {
  }

  /** MQTT_Publish gives up on a packet that does not fit the build buffer. */
  function Publishing(v: View, topic: seq<byte>, payload: seq<byte>, qos: int, retain: int, cfg: Config): View
    requires |v.ring| <= cfg.ringSize
  {
    var v1 := if qos > 0 && 0 < |topic| <= BUF - 5 then v.(messageId := Msg.FreshId(v.messageId)) else v;
    var packet := PublishPacket(topic, payload, qos, retain, v1.messageId);
    if packet == [] then v1 else PutDropping(v1, packet, cfg)
  }

  /** MQTT_Subscribe always asks for QoS 0 and does not check the packet it built. */
  function Subscribing(v: View, topic: seq<byte>, cfg: Config): View
    requires |v.ring| <= cfg.ringSize
  {
    var v1 := if topic == [] then v else v.(messageId := Msg.FreshId(v.messageId));
    PutDropping(v1, SubscribePacket(topic, v1.messageId), cfg)
  }

  // ----- the receive loop

  function Overlaid(buffer: seq<byte>, segment: seq<byte>): (r: seq<byte>)
    requires |segment| <= |buffer|
    ensures |r| == |buffer|
  {
    segment + buffer[|segment|..]
  }

  function AckPacket(kind: int, qos: int, id: uint16): seq<byte> {
    Msg.Finished(Flags(kind, 0, qos, 0), Word(id))
  }

  /** Builds and queues a response that carries `id`, or a fresh identifier for 0. */
  function Respond(v: View, kind: int, qos: int, id: uint16, cfg: Config): View
    requires |v.ring| <= cfg.ringSize
  {
    var v1 := if id == 0 then v.(messageId := Msg.FreshId(v.messageId)) else v;
    Put(v1, AckPacket(kind, qos, if id == 0 then v1.messageId else id), cfg)
  }

  function Delivery(s: seq<byte>, limit: nat): Output
    requires limit <= |s|
  {
    Data(if PublishTopic(s, limit).Some? then Some(TopicRead(s, limit)) else None, PayloadRead(s, limit))
  }

  /** Handling of the packet at the start of the input buffer, of which `limit` bytes are new. */
  function Handled(v: View, limit: nat, cfg: Config): View
    requires |v.ring| <= cfg.ringSize && 0 < limit <= |v.inBuffer|
  {
    var s := v.inBuffer;
    var id := MsgId(s, |s|);
    var kind := GetType(s[0]);
    if kind == PUBLISH then
      var v1 := if GetQos(s[0]) == 1 then Respond(v, PUBACK, 0, id, cfg)
                else if GetQos(s[0]) == 2 then Respond(v, PUBREC, 0, id, cfg) else v;
      Logged(v1, Delivery(s, limit))
    else if kind == PUBREC then Respond(v, PUBREL, 1, id, cfg)
    else if kind == PUBREL then Respond(v, PUBCOMP, 0, id, cfg)
    else if kind == PINGREQ then Put(v, Msg.Finished(Flags(PINGRESP, 0, 0, 0), []), cfg)
    else v
  }

  /** The loop goes on behind a PUBLISH that does not fill the segment. `message_length` has
      16 bits. */
  function Next(buffer: seq<byte>, segment: seq<byte>): Option<nat>
    requires |buffer| == BUF
  {
    if !(0 < |segment| < BUF) then None else
      var s := Overlaid(buffer, segment);
      var total := TotalLength(s, |segment|) % 0x1_0000;
      if GetType(s[0]) == PUBLISH && total < |segment| then Some(total) else None
  }

  /** The receive loop comes to an end on this segment. */
  predicate Settles(buffer: seq<byte>, segment: seq<byte>)
    requires |buffer| == BUF
    decreases |segment|
  {
    match Next(buffer, segment)
    case None => true
    case Some(total) => total > 0 && Settles(Overlaid(buffer, segment), segment[total..])
  }

  function Receiving(v: View, segment: seq<byte>, cfg: Config): View
    requires Legal(v, cfg) && Settles(v.inBuffer, segment)
    decreases |segment|
  {
    if !(0 < |segment| < BUF) then v else
      var v1 := Handled(v.(inBuffer := Overlaid(v.inBuffer, segment)), |segment|, cfg);
      HandledLegal(v.(inBuffer := Overlaid(v.inBuffer, segment)), |segment|, cfg);
      match Next(v.inBuffer, segment)
      case None => v1
      case Some(total) => Receiving(v1, segment[total..], cfg)
  }

  function Greeted(v: View, segment: seq<byte>): View
    requires |v.inBuffer| == BUF
  {
    if !(0 < |segment| < BUF) then v else
      var s := Overlaid(v.inBuffer, segment);
      var v1 := v.(inBuffer := s);
      if GetType(s[0]) != CONNACK then v1
      else if v.pendingType != CONNECT then Logged(v1, Dropped)
      else Logged(v1.(connState := MQTT_DATA), Accepted)
  }

  // ----- the steps

  /** `ok` says whether `espconn_sent`, where the step calls it, accepts the bytes. */
  datatype Event =
    | Connect
    | Disconnect
    | DnsFound(found: bool, connects: bool)
    | ConnectCb(stale: byte, ok: bool) // the byte at the start of the build buffer
    | DisconCb
    | ReconCb
    | Recv(segment: seq<byte>)
    | SentCb
    | Tick(ok: bool)
    | Task(stale: byte, ok: bool)      // the byte at the start of an unfilled packet buffer
    | Publish(topic: seq<byte>, payload: seq<byte>, qos: int, retain: int)
    | Subscribe(topic: seq<byte>)

  /** Callbacks need a connection object, ticks an armed timer, and a segment that the
      receive loop can finish. */
  ghost predicate Enabled(v: View, e: Event)
    requires |v.inBuffer| == BUF
  {
    match e
    case DnsFound(_, _) => v.hasConn
    case ConnectCb(_, _) => v.hasConn
    case DisconCb => v.hasConn
    case ReconCb => v.hasConn
    case Recv(segment) => v.hasConn && (v.connState == MQTT_DATA ==> Settles(v.inBuffer, segment))
    case SentCb => v.hasConn
    case Tick(_) => v.armed
    case _ => true
  }

  function ConnectPacket(cfg: Config): seq<byte> {
    if ConnectFits(cfg.info, BUF) then Msg.Finished(Flags(CONNECT, 0, 0, 0), ConnectBody(cfg.info)) else []
  }

  const PING: seq<byte> := [0xC0, 0]

  function Connecting(v: View): View {
    v.(hasConn := true, armed := true, keepAliveTick := 0, reconnectTick := 0, connState := TCP_CONNECTING)
  }

  function Ticked(v: View, ok: bool, cfg: Config): View {
    var v1 :=
      if v.connState == MQTT_DATA then
        var tick := (v.keepAliveTick + 1) % TICK_WRAP;
        if tick > cfg.info.keepalive then
          Logged(v.(keepAliveTick := 0, pendingType := PINGREQ, sendTimeout := MQTT_SEND_TIMEOUT),
                 Sent(PING, Ping, v.hasConn && ok))
        else v.(keepAliveTick := tick)
      else if v.connState == TCP_RECONNECT_REQ then
        var tick := (v.reconnectTick + 1) % TICK_WRAP;
        if tick > MQTT_RECONNECT_TIMEOUT then v.(reconnectTick := 0, connState := TCP_RECONNECT)
        else v.(reconnectTick := tick)
      else v;
    if v1.sendTimeout > 0 then v1.(sendTimeout := v1.sendTimeout - 1) else v1
  }

  /** MQTT_Task in MQTT_DATA: takes and sends the oldest packet when nothing is awaited. A
      ring without a complete packet is emptied. */
  function Transmitting(v: View, stale: byte, ok: bool): View {
    if v.ring == [] || v.sendTimeout != 0 then v
    else
      var v1 := v.(ring := Framing.AfterFirstEnd(v.ring));
      if Framing.END !in v.ring then v1 else
        var packet := Framing.FirstPacket(v.ring);
        var data := Proto.Truncated(packet, BUF);
        var out := if v.hasConn && ok then Transmitted(packet) else Lost(packet);
        Logged(v1.(taken := v.taken + [out], sendTimeout := MQTT_SEND_TIMEOUT,
                   pendingType := GetType(if data == [] then stale else data[0])),
               Sent(data, FromQueue, v.hasConn && ok))
  }

  function Step(v: View, e: Event, cfg: Config): View
    requires Legal(v, cfg) && Enabled(v, e)
  {
    match e
    case Connect => Connecting(v)
    case Disconnect => v.(hasConn := false, armed := false)
    case DnsFound(found, connects) =>
      if !found then v.(connState := TCP_RECONNECT_REQ)
      else if connects then v.(connState := TCP_CONNECTING) else v
    case ConnectCb(stale, ok) =>
      var packet := ConnectPacket(cfg);
      v.(connState := MQTT_CONNECT_SENDING, sendTimeout := MQTT_SEND_TIMEOUT,
         pendingType := GetType(if packet == [] then stale else packet[0]),
         log := v.log + [Opened, Sent(packet, Greeting, v.hasConn && ok)])
    case DisconCb => v.(connState := TCP_RECONNECT_REQ)
    case ReconCb => v.(connState := TCP_RECONNECT_REQ)
    case Recv(segment) =>
      if v.connState == MQTT_CONNECT_SENDING then Greeted(v, segment)
      else if v.connState == MQTT_DATA then Receiving(v, segment, cfg)
      else if 0 < |segment| < BUF then v.(inBuffer := Overlaid(v.inBuffer, segment))
      else v
    case SentCb => v.(sendTimeout := 0)
    case Tick(ok) => Ticked(v, ok, cfg)
    case Task(stale, ok) =>
      if v.connState == TCP_RECONNECT then Connecting(v)
      else if v.connState == MQTT_DATA then Transmitting(v, stale, ok)
      else v
    case Publish(topic, payload, qos, retain) => Publishing(v, topic, payload, qos, retain, cfg)
    case Subscribe(topic) => Subscribing(v, topic, cfg)
  }

  // ----- what the steps post

  predicate PingDue(v: View, cfg: Config) {
    v.connState == MQTT_DATA && (v.keepAliveTick + 1) % TICK_WRAP > cfg.info.keepalive
  }

  predicate ReconnectDue(v: View) {
    v.connState == TCP_RECONNECT_REQ && (v.reconnectTick + 1) % TICK_WRAP > MQTT_RECONNECT_TIMEOUT
  }

  /** The step posts MQTT_Task. */
  predicate Posts(v: View, e: Event, cfg: Config)
    requires Legal(v, cfg) && Enabled(v, e)
  {
    match e
    case Connect => false
    case Disconnect => false
    case DnsFound(found, _) => found
    case Tick(_) => PingDue(v, cfg) || ReconnectDue(v)
    case Task(_, _) => false
    case Publish(_, _, _, _) => |Step(v, e, cfg).accepted| > |v.accepted|
    case Subscribe(_) => |Step(v, e, cfg).accepted| > |v.accepted|
    case _ => true
  }

  // ----- steps keep the state legal

  lemma PutLegal(v: View, packet: seq<byte>, cfg: Config)
    requires Legal(v, cfg)
    ensures Legal(Put(v, packet, cfg), cfg)
  {
    PacketQueue.WrittenDecodes(v.ring, packet, cfg.ringSize);
  }

  lemma HandledLegal(v: View, limit: nat, cfg: Config)
    requires Legal(v, cfg) && 0 < limit <= |v.inBuffer|
    ensures Legal(Handled(v, limit, cfg), cfg) && Handled(v, limit, cfg).inBuffer == v.inBuffer
  {
    hide Framing.WellFormed, MsgId, Delivery, AckPacket, Msg.Finished, Flags, Proto.Written;
    forall packet, id
      ensures Legal(Put(v, packet, cfg), cfg) && Legal(Put(v.(messageId := id), packet, cfg), cfg)
    {
      PutLegal(v, packet, cfg);
      PutLegal(v.(messageId := id), packet, cfg);
    }
  }

  lemma HandledFrame(v: View, limit: nat, cfg: Config)
    requires |v.ring| <= cfg.ringSize && 0 < limit <= |v.inBuffer|
    ensures var r := Handled(v, limit, cfg);
            && r.connState == v.connState && r.sendTimeout == v.sendTimeout && r.pendingType == v.pendingType
            && r.keepAliveTick == v.keepAliveTick && r.reconnectTick == v.reconnectTick
            && r.hasConn == v.hasConn && r.armed == v.armed && r.taken == v.taken
            && (r.log == v.log || r.log == v.log + [Delivery(v.inBuffer, limit)])
  {
    hide Delivery, AckPacket, Msg.Finished, Flags, MsgId, Proto.Written, Framing.Encode;
  }

  lemma ReceivingLegal(v: View, segment: seq<byte>, cfg: Config)
    requires Legal(v, cfg) && Settles(v.inBuffer, segment)
    ensures Legal(Receiving(v, segment, cfg), cfg)
    decreases |segment|
  {
    if 0 < |segment| < BUF {
      var v0 := v.(inBuffer := Overlaid(v.inBuffer, segment));
      HandledLegal(v0, |segment|, cfg);
      match Next(v.inBuffer, segment) {
        case None =>
        case Some(total) => ReceivingLegal(Handled(v0, |segment|, cfg), segment[total..], cfg);
      }
    }
  }

  lemma StepLegal(v: View, e: Event, cfg: Config)
    requires Legal(v, cfg) && Enabled(v, e)
    ensures Legal(Step(v, e, cfg), cfg)
  {
    hide Framing.FirstEnd, Framing.FirstPacket, PublishPacket, SubscribePacket, ConnectPacket, Receiving;
    hide PacketQueue.Dropping, PacketQueue.Dropped, Discard, Framing.Decode, MqttWire.GetType, Framing.WellFormed;
    match e {
      case Recv(segment) =>
        if v.connState == MQTT_DATA {
          ReceivingLegal(v, segment, cfg);
        }
      case Task(_, _) =>
        Framing.WellFormedAfterFirstEnd(v.ring);
      case Publish(topic, payload, qos, retain) =>
        var v1 := if qos > 0 && 0 < |topic| <= BUF - 5 then v.(messageId := Msg.FreshId(v.messageId)) else v;
        PacketQueue.DroppingOutcome(v.ring, PublishPacket(topic, payload, qos, retain, v1.messageId), cfg.ringSize);
      case Subscribe(topic) =>
        var v1 := if topic == [] then v else v.(messageId := Msg.FreshId(v.messageId));
        PacketQueue.DroppingOutcome(v.ring, SubscribePacket(topic, v1.messageId), cfg.ringSize);
      case _ =>
    }
  }
}
