/** What the packets say that the MQTT client queues and sends: byte for byte, and as a
    reader of the other side takes them. */
module ClientPackets {
  import opened Octets
  import opened MqttWire
  import opened MqttConnect
  import opened ClientSpec
  import Msg = MqttMsg
  import Framing
  import PacketQueue

  // ----- bytes

  /** First byte and Remaining Length (section 2.2 of MQTT 3.1.1). */
  function FixedHeader(first: byte, n: nat): (r: seq<byte>)
    requires n < 0x4000
    ensures 2 <= |r| <= 3
  {
    if n < 128 then [first, n] else [first, 128 + n % 128, n / 128]
  }

  function LengthPrefixed(s: seq<byte>): seq<byte> {
    [|s| / 256 % 256, |s| % 256] + s
  }

  lemma HeaderOf(first: byte, body: seq<byte>, bufferLength: nat)
    requires 3 + |body| <= bufferLength <= 0x4000
    ensures Msg.Built(first, body, bufferLength) == Msg.Finished(first, body) == FixedHeader(first, |body|) + body
    ensures Msg.Finished(first, body) == Wire(first, body)
  {
    Msg.FinishedIsStandard(first, body);
  }

  // ----- the queue

  /** The packet is queued last, and `k` packets were discarded for it: none if its frame fits
      the free space, otherwise up to the first segment of the ring that is as long. */
  ghost predicate DropsFor(v: View, r: View, packet: seq<byte>, k: nat, size: nat) {
    var (need, queue, lengths) := (|Framing.Encode(packet)|, Framing.Decode(v.ring), Framing.SegmentLengths(v.ring));
    && k <= |queue|
    && (|v.ring| + need <= size <==> k == 0)
    && (k > 0 ==> lengths[k - 1] >= need && forall i :: 0 <= i < k - 1 ==> lengths[i] < need)
    && Framing.Decode(r.ring) == queue[k..] + [packet]
    && r == v.(ring := r.ring, accepted := v.accepted + [packet], taken := v.taken + Discard(queue[..k]))
  }

  /** The packet does not fit and no segment of the ring is as long: all are discarded. */
  ghost predicate Refused(v: View, r: View, packet: seq<byte>, size: nat) {
    var need := |Framing.Encode(packet)|;
    && |v.ring| + need > size
    && (forall n :: n in Framing.SegmentLengths(v.ring) ==> n < need)
    && r == v.(ring := [], taken := v.taken + Discard(Framing.Decode(v.ring)))
  }

  ghost predicate QueuedDropping(v: View, r: View, packet: seq<byte>, size: nat) {
    (exists k :: DropsFor(v, r, packet, k, size)) || Refused(v, r, packet, size)
  }

  lemma DroppingQueues(v: View, packet: seq<byte>, cfg: Config)
    requires |v.ring| <= cfg.ringSize
    ensures QueuedDropping(v, PutDropping(v, packet, cfg), packet, cfg.ringSize)
    ensures PutDropping(v, packet, cfg).messageId == v.messageId
  {
    hide Framing.Decode, Framing.Encode, Framing.SegmentLengths, PacketQueue.Dropping, PacketQueue.FirstAtLeast;
    hide Discard;
    PacketQueue.DroppingOutcome(v.ring, packet, cfg.ringSize);
    var k := PacketQueue.Dropped(v.ring, packet, cfg.ringSize);
    var (queue, r) := (Framing.Decode(v.ring), PutDropping(v, packet, cfg));
    if k <= |queue| {
      assert DropsFor(v, r, packet, k, cfg.ringSize);
    } else {
      assert queue[..|queue|] == queue;
      assert Refused(v, r, packet, cfg.ringSize);
    }
  }

  // ----- PUBLISH

  /** The packet for these arguments fits the build buffer of 1024 bytes. */
  predicate Publishable(topic: seq<byte>, payload: seq<byte>, qos: int) {
    topic != [] && |topic| + |payload| <= if qos > 0 then 1017 else 1019
  }

  /** Section 3.3. */
  function PublishBytes(topic: seq<byte>, payload: seq<byte>, qos: nat, retain: nat, id: uint16): seq<byte>
    requires qos <= 2 && retain <= 1 && Publishable(topic, payload, qos)
  {
    var body := LengthPrefixed(topic) + (if qos > 0 then [id / 256, id % 256] else []) + payload;
    FixedHeader(0x30 + 2 * qos + retain, |body|) + body
  }

  /** What the getters and decoders read off the packet when a byte follows it. */
  ghost predicate CarriesPublish(w: seq<byte>, topic: seq<byte>, payload: seq<byte>, qos: nat, retain: nat,
                                 id: uint16) {
    var (s, n) := (w + [0], |w| + 1);
    && w != []
    && GetType(w[0]) == PUBLISH && GetDup(w[0]) == 0 && GetQos(w[0]) == qos && GetRetain(w[0]) == retain
    && TotalLength(s, n) == |w|
    && PublishTopic(s, n).Some? && TopicRead(s, n) == topic
    && PayloadRead(s, n) == Some(payload)
    && MsgId(s, n) == if qos > 0 then id else 0
  }

  lemma PublishFlags(qos: nat, retain: nat)
    requires qos <= 2 && retain <= 1
    ensures Flags(PUBLISH, 0, qos, retain) == 0x30 + 2 * qos + retain
  {
  }

  lemma PublishPartsAre(topic: seq<byte>, payload: seq<byte>, qos: nat, id: uint16)
    ensures Msg.PublishParts(topic, qos, id, payload)
         == LengthPrefixed(topic) + (if qos > 0 then [id / 256, id % 256] else []) + payload
    ensures |Msg.PublishParts(topic, qos, id, payload)| == 2 + |topic| + (if qos > 0 then 2 else 0) + |payload|
  {
  }

  lemma NotBuilt(first: byte, body: seq<byte>)
    ensures 3 + |body| > BUF ==> Msg.Built(first, body, BUF) == []
  {
  }

  lemma PublishPacketIs(topic: seq<byte>, payload: seq<byte>, qos: nat, retain: nat, id: uint16)
    requires qos <= 2 && retain <= 1
    ensures PublishPacket(topic, payload, qos, retain, id)
         == if Publishable(topic, payload, qos) then PublishBytes(topic, payload, qos, retain, id) else []
    ensures Publishable(topic, payload, qos) ==>
              CarriesPublish(PublishBytes(topic, payload, qos, retain, id), topic, payload, qos, retain, id)
  {
    hide Msg.PublishParts, Msg.Finished, Msg.Built, Flags, LengthPrefixed, FixedHeader, CarriesPublish;
    var (first, parts) := (Flags(PUBLISH, 0, qos, retain), Msg.PublishParts(topic, qos, id, payload));
    PublishPartsAre(topic, payload, qos, id);
    PublishFlags(qos, retain);
    NotBuilt(first, parts);
    if Publishable(topic, payload, qos) {
      HeaderOf(first, parts, BUF);
      PublishCarries(topic, payload, qos, retain, id);
    }
  }

  lemma PublishCarries(topic: seq<byte>, payload: seq<byte>, qos: nat, retain: nat, id: uint16)
    requires qos <= 2 && retain <= 1 && Publishable(topic, payload, qos)
    ensures CarriesPublish(Msg.Built(Flags(PUBLISH, 0, qos, retain), Msg.PublishParts(topic, qos, id, payload), BUF),
                           topic, payload, qos, retain, id)
  {
    hide GetType, GetDup, GetQos, GetRetain, TotalLength, PublishTopic, TopicRead, PayloadRead, MsgId;
    hide Msg.PublishParts, Msg.Finished, Flags;
    var parts := Msg.PublishParts(topic, qos, id, payload);
    PublishPartsAre(topic, payload, qos, id);
    var w := Msg.Built(Flags(PUBLISH, 0, qos, retain), parts, BUF);
    FinishedSomething(Flags(PUBLISH, 0, qos, retain), parts);
    Msg.PublishBuiltAndRead(topic, payload, qos, retain, id, BUF, w, [0], |w| + 1);
    assert (w + [0])[0] == w[0];
  }

  /** What MQTT_Publish does to the queue, for every argument: nothing exactly if the topic is
      empty or the packet does not fit; otherwise the drop-oldest loop queues, unless it
      refuses it, a packet with the topic, the payload and a fresh identifier. */
  lemma PublishQueues(v: View, topic: seq<byte>, payload: seq<byte>, qos: nat, retain: nat, cfg: Config)
    requires Legal(v, cfg) && qos <= 2 && retain <= 1
    ensures var (r, id) := (Publishing(v, topic, payload, qos, retain, cfg), Msg.FreshId(v.messageId));
            && r.messageId == (if qos > 0 && 0 < |topic| <= 1019 then id else v.messageId)
            && if !Publishable(topic, payload, qos) then r == v.(messageId := r.messageId)
               else QueuedDropping(v.(messageId := r.messageId), r, PublishBytes(topic, payload, qos, retain, id),
                                   cfg.ringSize)
    ensures Publishable(topic, payload, qos) ==>
              var id := Msg.FreshId(v.messageId);
              CarriesPublish(PublishBytes(topic, payload, qos, retain, id), topic, payload, qos, retain, id)
  {
    hide PublishPacket, PublishBytes, CarriesPublish, PutDropping, Framing.WellFormed, QueuedDropping;

    var id := Msg.FreshId(v.messageId);
    PublishPacketIs(topic, payload, qos, retain, id);
    PublishPacketIs(topic, payload, qos, retain, v.messageId);
    if Publishable(topic, payload, qos) {
      NoIdBytes(topic, payload, qos, retain, id, v.messageId);
      var v1 := if qos > 0 then v.(messageId := id) else v;
      DroppingQueues(v1, PublishBytes(topic, payload, qos, retain, id), cfg);
    }
  }

  /** A packet of QoS 0 carries no identifier. */
  lemma CarriesAnyId(topic: seq<byte>, payload: seq<byte>, qos: nat, retain: nat, id: uint16, id': uint16)
    requires qos <= 2 && retain <= 1
    ensures Publishable(topic, payload, qos) && qos == 0 ==>
              PublishBytes(topic, payload, qos, retain, id) == PublishBytes(topic, payload, qos, retain, id')
  {
  }

  lemma NoIdBytes(topic: seq<byte>, payload: seq<byte>, qos: nat, retain: nat, id: uint16, id': uint16)
    requires qos <= 2 && retain <= 1 && Publishable(topic, payload, qos)
    ensures PublishBytes(topic, payload, qos, retain, id) != []
    ensures qos == 0 ==> PublishBytes(topic, payload, qos, retain, id) == PublishBytes(topic, payload, qos, retain, id')
  {
  }

  // ----- SUBSCRIBE

  /** Section 3.8, for one topic and QoS 0. */
  function SubscribeBytes(topic: seq<byte>, id: uint16): seq<byte>
    requires Subscribable(topic)
  {
    var body := [id / 256, id % 256] + LengthPrefixed(topic) + [0];
    FixedHeader(0x82, |body|) + body
  }

  /** What a server reads: identifier, topic, and the QoS asked for. */
  function ReadSubscribe(w: seq<byte>): Option<(uint16, seq<byte>, byte)> {
    if w == [] || w[0] != 0x82 || TotalLength(w, |w|) != |w| then None else
      var h := ScanEnd(w, 1, |w|);
      if h + 4 > |w| || h + 4 + WordAt(w, h + 2) + 1 != |w| then None
      else Some((WordAt(w, h), w[h + 4..|w| - 1], w[|w| - 1]))
  }

  lemma SubscribePartsAre(topic: seq<byte>, id: uint16)
    ensures Msg.SubscribeParts(id, topic, 0) == [id / 256, id % 256] + LengthPrefixed(topic) + [0]
    ensures |Msg.SubscribeParts(id, topic, 0)| == |topic| + 5
  {
  }

  lemma SubscribeRead(topic: seq<byte>, id: uint16)
    requires Subscribable(topic)
    ensures ReadSubscribe(SubscribeBytes(topic, id)) == Some((id, topic, 0))
  {
    hide TotalLength, ScanEnd, FixedHeader, EncodedLength;
    var body := [id / 256, id % 256] + LengthPrefixed(topic) + [0];
    var (w, head) := (SubscribeBytes(topic, id), FixedHeader(0x82, |body|));
    var h := |head|;
    HeaderOf(0x82, body, BUF);
    assert w + [] == w;
    TotalLengthOfWire(0x82, body, [], |w|);
    assert w[h] == id / 256 && w[h + 1] == id % 256 && w[h + 2] == |topic| / 256 && w[h + 3] == |topic| % 256;
    assert w[h + 4..|w| - 1] == topic;
  }

  lemma SubscribePacketIs(topic: seq<byte>, id: uint16)
    ensures SubscribePacket(topic, id) == if Subscribable(topic) then SubscribeBytes(topic, id) else []
    ensures Subscribable(topic) ==> ReadSubscribe(SubscribeBytes(topic, id)) == Some((id, topic, 0))
  {
    hide Msg.SubscribeParts, Msg.Finished, Msg.Built, Flags, LengthPrefixed, FixedHeader, ReadSubscribe;
    var parts := Msg.SubscribeParts(id, topic, 0);
    SubscribePartsAre(topic, id);
    SubscribeFlags();
    NotBuilt(0x82, parts);
    if Subscribable(topic) {
      HeaderOf(0x82, parts, BUF);
      SubscribeRead(topic, id);
    }
  }

  lemma SubscribeFlags()
    ensures Flags(SUBSCRIBE, 0, 1, 0) == 0x82
  {
  }

  /** What MQTT_Subscribe does to the queue, for every topic: the drop-oldest loop queues a
      SUBSCRIBE for it at QoS 0 with a fresh identifier, or, if the topic is empty or does not
      fit, a packet without any byte. */
  lemma SubscribeQueues(v: View, topic: seq<byte>, cfg: Config)
    requires Legal(v, cfg)
    ensures var (r, id) := (Subscribing(v, topic, cfg), if topic == [] then v.messageId else Msg.FreshId(v.messageId));
            && r.messageId == id
            && QueuedDropping(v.(messageId := id), r, if Subscribable(topic) then SubscribeBytes(topic, id) else [],
                              cfg.ringSize)
    ensures Subscribable(topic) ==>
              var id := Msg.FreshId(v.messageId);
              ReadSubscribe(SubscribeBytes(topic, id)) == Some((id, topic, 0))
  {
    hide SubscribePacket, SubscribeBytes, ReadSubscribe, PutDropping, Framing.WellFormed, QueuedDropping;
    var id := if topic == [] then v.messageId else Msg.FreshId(v.messageId);
    SubscribePacketIs(topic, id);
    DroppingQueues(v.(messageId := id), SubscribePacket(topic, id), cfg);
  }

  // ----- CONNECT

  function ConnectFlagBits(info: ConnectInfo): byte {
    var will: nat := if info.willTopic == [] then 0 else 4 + info.willQos % 4 * 8 + if info.willRetain then 32 else 0;
    (if info.username == [] then 0 else 128) + (if info.password == [] then 0 else 64) + will
    + if info.cleanSession then 2 else 0
  }

  function WillBytes(info: ConnectInfo): seq<byte> {
    if info.willTopic == [] then [] else LengthPrefixed(info.willTopic) + LengthPrefixed(info.willMessage)
  }

  function OptionalBytes(s: seq<byte>): seq<byte> {
    if s == [] then [] else LengthPrefixed(s)
  }

  /** Variable header and payload (section 3.1), with the protocol name and level of MQTT 3.1. */
  function ConnectBodyBytes(info: ConnectInfo): seq<byte> {
    [0, 6, 0x4D, 0x51, 0x49, 0x73, 0x64, 0x70, 3, ConnectFlagBits(info)]
    + [info.keepalive / 256 % 256, info.keepalive % 256]
    + LengthPrefixed(info.clientId) + WillBytes(info) + OptionalBytes(info.username) + OptionalBytes(info.password)
  }

  /** The CONNECT fits the build buffer of 1024 bytes. */
  predicate Connectable(info: ConnectInfo) {
    info.clientId != [] && 3 + |ConnectBodyBytes(info)| <= 1024
  }

  function ConnectBytes(info: ConnectInfo): seq<byte>
    requires Connectable(info)
  {
    FixedHeader(0x10, |ConnectBodyBytes(info)|) + ConnectBodyBytes(info)
  }

  /** What a server reads. */
  function ReadConnectPacket(w: seq<byte>): Option<ConnectInfo> {
    if w == [] || w[0] != 0x10 || TotalLength(w, |w|) != |w| then None
    else ReadConnect(w[ScanEnd(w, 1, |w|)..])
  }

  lemma ConnectBodyIs(info: ConnectInfo)
    ensures ConnectBody(info) == ConnectBodyBytes(info)
    ensures Connectable(info) <==> ConnectFits(info, BUF)
  {
    assert ConnectFlags(info) == ConnectFlagBits(info);
    hide ConnectFlags, ConnectFlagBits;
    var client, will := Str(info.clientId), WillFields(info);
    assert client == LengthPrefixed(info.clientId) && will == WillBytes(info);
    var username, password := OptionalStr(info.username), OptionalStr(info.password);
    assert username == OptionalBytes(info.username) && password == OptionalBytes(info.password);
    hide Str, LengthPrefixed, WillFields, WillBytes, OptionalStr, OptionalBytes;
    var head := ConnectHeader(ConnectFlags(info), info.keepalive);
    assert head == [0, 6, 0x4D, 0x51, 0x49, 0x73, 0x64, 0x70, 3, ConnectFlagBits(info)]
                   + [info.keepalive / 256 % 256, info.keepalive % 256];
    assert head + (client + (will + (username + password))) == head + client + will + username + password;
  }

  lemma ConnectPacketBytes(cfg: Config)
    ensures ConnectPacket(cfg) == if Connectable(cfg.info) then ConnectBytes(cfg.info) else []
    ensures Connectable(cfg.info) ==> ReadConnectPacket(ConnectBytes(cfg.info)) == Some(Carried(cfg.info))
  {
    ConnectBodyIs(cfg.info);
    if Connectable(cfg.info) {
      var body := ConnectBodyBytes(cfg.info);
      ConnectFieldsFit(cfg.info);
      hide ConnectBodyBytes, ConnectBody, ReadConnect, Msg.Finished, TotalLength, ScanEnd, EncodedLength;
      assert Flags(CONNECT, 0, 0, 0) == 0x10;
      HeaderOf(0x10, body, BUF);
      var w := ConnectBytes(cfg.info);
      assert w + [] == w;
      TotalLengthOfWire(0x10, body, [], |w|);
      assert w[|w| - |body|..] == body;
      ConnectRoundTrip(cfg.info);
    }
  }

  lemma ConnectFieldsFit(info: ConnectInfo)
    requires Connectable(info)
    ensures |info.clientId| < 1024 && |info.username| < 1024 && |info.password| < 1024
    ensures info.willTopic != [] ==> |info.willTopic| < 1024 && |info.willMessage| < 1024
  {
  }

  /** What goes out when a TCP connection is established: the CONNECT, from which a server reads
      the client's settings, or no byte if it does not fit. */
  lemma ConnectCbSends(v: View, stale: byte, ok: bool, cfg: Config)
    requires Legal(v, cfg) && Enabled(v, ConnectCb(stale, ok))
    ensures var w := (if Connectable(cfg.info) then ConnectBytes(cfg.info) else []);
            Step(v, ConnectCb(stale, ok), cfg)
            == v.(connState := MQTT_CONNECT_SENDING, sendTimeout := 5,
                  pendingType := (if w == [] then stale else w[0]) / 16,
                  log := v.log + [Opened, Sent(w, Source.Greeting, v.hasConn && ok)])
    ensures Connectable(cfg.info) ==> ReadConnectPacket(ConnectBytes(cfg.info)) == Some(Carried(cfg.info))
  {
    hide ConnectPacket, ConnectBytes, ReadConnectPacket, Framing.WellFormed, ConnectFits, Connectable;
    ConnectPacketBytes(cfg);
  }
}
