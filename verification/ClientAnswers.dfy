/** What the MQTT client does with each TCP segment, in every connection state, with its
    answers byte for byte. */
module ClientAnswers {
  import opened Octets
  import opened MqttWire
  import opened ClientSpec
  import Msg = MqttMsg
  import Framing
  import PacketQueue

  /** The packet is the last one queued, exactly if its frame fits the free space. */
  ghost predicate Queues(v: View, r: View, packet: seq<byte>, size: nat) {
    var fits := |v.ring| + |Framing.Encode(packet)| <= size;
    && r.(ring := v.ring, accepted := v.accepted) == v
    && r.accepted == (if fits then v.accepted + [packet] else v.accepted)
    && Framing.Decode(r.ring) == if fits then Framing.Decode(v.ring) + [packet] else Framing.Decode(v.ring)
  }

  lemma PutQueues(v: View, packet: seq<byte>, cfg: Config)
    requires |v.ring| <= cfg.ringSize
    ensures Queues(v, Put(v, packet, cfg), packet, cfg.ringSize) && Put(v, packet, cfg).log == v.log
  {
    hide Framing.Encode, Framing.Decode, Framing.WellFormed;
    PacketQueue.WrittenDecodes(v.ring, packet, cfg.ringSize);
  }

  lemma FlagsAre()
    ensures Flags(PUBACK, 0, 0, 0) == 0x40 && Flags(PUBREC, 0, 0, 0) == 0x50
    ensures Flags(PUBREL, 0, 1, 0) == 0x62 && Flags(PUBCOMP, 0, 0, 0) == 0x70 && Flags(PINGRESP, 0, 0, 0) == 0xD0
  {
  }

  lemma FinishedWord(first: byte, id: uint16)
    ensures Msg.Finished(first, Word(id)) == [first, 2, id / 256, id % 256]
    ensures Msg.Finished(first, []) == [first, 0]
  {
  }

  lemma AckBytes(id: uint16)
    ensures AckPacket(PUBACK, 0, id) == [0x40, 2, id / 256, id % 256]
    ensures AckPacket(PUBREC, 0, id) == [0x50, 2, id / 256, id % 256]
    ensures AckPacket(PUBREL, 1, id) == [0x62, 2, id / 256, id % 256]
    ensures AckPacket(PUBCOMP, 0, id) == [0x70, 2, id / 256, id % 256]
    ensures Msg.Finished(Flags(PINGRESP, 0, 0, 0), []) == [0xD0, 0]
  {
    hide Flags, Msg.Finished, Word;
    FlagsAre();
    FinishedWord(0x40, id);
    FinishedWord(0x50, id);
    FinishedWord(0x62, id);
    FinishedWord(0x70, id);
    FinishedWord(0xD0, id);
  }

  /** What the buffer holds once the segment is copied to its start. */
  function Copied(v: View, segment: seq<byte>): (s: seq<byte>)
    requires |segment| < 1024 == |v.inBuffer|
    ensures |s| == 1024
  {
    segment + v.inBuffer[|segment|..]
  }

  /** The identifier behind a Remaining Length of one byte. The whole buffer is read, also
      where it holds older bytes; 0 stands for none. */
  function IdAt2(s: seq<byte>): uint16
    requires |s| == 1024
  {
    if s[1] < 128 then WordAt(s, 2) else 0
  }

  /** Every segment that does not start with a PUBLISH, on a connection that is up: PUBREC is
      answered with PUBREL, PUBREL with PUBCOMP, PINGREQ with PINGRESP, each under the
      identifier received, or a fresh one for 0; nothing else is answered, nothing is delivered,
      and further packets in the segment are ignored. */
  lemma Answered(v: View, segment: seq<byte>, cfg: Config)
    requires Legal(v, cfg) && v.connState == MQTT_DATA && v.hasConn
    requires 0 < |segment| < 1024 && segment[0] / 16 != 3
    ensures Enabled(v, Recv(segment))
    ensures var (s, kind) := (Copied(v, segment), segment[0] / 16);
            var fresh' := IdAt2(s) == 0 && (kind == 5 || kind == 6);
            var id := if IdAt2(s) == 0 then Msg.FreshId(v.messageId) else IdAt2(s);
            var v0 := v.(inBuffer := s, messageId := if fresh' then id else v.messageId);
            var r := Step(v, Recv(segment), cfg);
            if kind == 5 then Queues(v0, r, [0x62, 2, id / 256, id % 256], cfg.ringSize)
            else if kind == 6 then Queues(v0, r, [0x70, 2, id / 256, id % 256], cfg.ringSize)
            else if kind == 12 then Queues(v0, r, [0xD0, 0], cfg.ringSize)
            else r == v0
  {
    hide Framing.WellFormed, Queues, Put, AckPacket, Msg.Finished, Flags;
    var s := Copied(v, segment);
    assert s == Overlaid(v.inBuffer, segment);
    var id := if IdAt2(s) == 0 then Msg.FreshId(v.messageId) else IdAt2(s);
    var v0 := v.(inBuffer := s);
    AckBytes(id);
    PutQueues(v0, [0xD0, 0], cfg);
    PutQueues(v0, [0x62, 2, id / 256, id % 256], cfg);
    PutQueues(v0, [0x70, 2, id / 256, id % 256], cfg);
    PutQueues(v0.(messageId := id), [0x62, 2, id / 256, id % 256], cfg);
    PutQueues(v0.(messageId := id), [0x70, 2, id / 256, id % 256], cfg);
    ReadOnce(v, segment, cfg);
  }

  lemma ReadOnce(v: View, segment: seq<byte>, cfg: Config)
    requires Legal(v, cfg) && 0 < |segment| < 1024 && segment[0] / 16 != 3
    ensures Settles(v.inBuffer, segment)
    ensures Receiving(v, segment, cfg) == Handled(v.(inBuffer := Overlaid(v.inBuffer, segment)), |segment|, cfg)
  {
    hide Framing.WellFormed, Handled;
  }

  /** The first round on a segment that starts with a PUBLISH, whatever follows: QoS 1 is
      answered with PUBACK, QoS 2 with PUBREC, under the identifier received or a fresh one for
      0, and no other QoS; and one message is delivered. */
  lemma PublishAnswered(v: View, limit: nat, cfg: Config)
    requires Legal(v, cfg) && 0 < limit <= 1024 && v.inBuffer[0] / 16 == 3
    ensures var (s, r) := (v.inBuffer, Handled(v, limit, cfg));
            var qos := s[0] / 2 % 4;
            var received := MsgId(s, |s|);
            var id := if received == 0 then Msg.FreshId(v.messageId) else received;
            var v0 := v.(messageId := if received == 0 && (qos == 1 || qos == 2) then id else v.messageId);
            && r.log == v.log + [Delivery(s, limit)]
            && if qos == 1 then Queues(v0, r.(log := v.log), [0x40, 2, id / 256, id % 256], cfg.ringSize)
               else if qos == 2 then Queues(v0, r.(log := v.log), [0x50, 2, id / 256, id % 256], cfg.ringSize)
               else r.(log := v.log) == v0
  {
    hide Framing.WellFormed, Queues, Put, AckPacket, Msg.Finished, Flags, MsgId, Delivery;
    var received := MsgId(v.inBuffer, |v.inBuffer|);
    var id := if received == 0 then Msg.FreshId(v.messageId) else received;
    AckBytes(id);
    forall v0: View | v0.ring == v.ring
      ensures Queues(v0, Put(v0, [0x40, 2, id / 256, id % 256], cfg), [0x40, 2, id / 256, id % 256], cfg.ringSize)
      ensures Queues(v0, Put(v0, [0x50, 2, id / 256, id % 256], cfg), [0x50, 2, id / 256, id % 256], cfg.ringSize)
      ensures Put(v0, [0x40, 2, id / 256, id % 256], cfg).log == v0.log
      ensures Put(v0, [0x50, 2, id / 256, id % 256], cfg).log == v0.log
    {
      PutQueues(v0, [0x40, 2, id / 256, id % 256], cfg);
      PutQueues(v0, [0x50, 2, id / 256, id % 256], cfg);
    }
  }

  /** While the CONNACK is awaited, and the CONNECT was the last packet sent, exactly a segment
      that starts with a CONNACK brings the connection up. */
  lemma Greets(v: View, segment: seq<byte>, cfg: Config)
    requires Legal(v, cfg) && v.connState == MQTT_CONNECT_SENDING && v.hasConn && v.pendingType == 1
    requires 0 < |segment| < 1024
    ensures Enabled(v, Recv(segment))
    ensures var (v0, r) := (v.(inBuffer := Copied(v, segment)), Step(v, Recv(segment), cfg));
            r == if segment[0] / 16 == 2 then v0.(connState := MQTT_DATA, log := v.log + [Accepted]) else v0
  {
    hide Framing.WellFormed;
  }

  /** In the other states a segment is only copied; one that is empty or does not fit the input
      buffer is ignored in every state. */
  lemma Ignored(v: View, segment: seq<byte>, cfg: Config)
    requires Legal(v, cfg) && v.hasConn
    ensures |segment| == 0 || |segment| >= 1024 ==>
              Enabled(v, Recv(segment)) && Step(v, Recv(segment), cfg) == v
    ensures 0 < |segment| < 1024 && v.connState != MQTT_DATA && v.connState != MQTT_CONNECT_SENDING ==>
              Enabled(v, Recv(segment)) && Step(v, Recv(segment), cfg) == v.(inBuffer := Copied(v, segment))
  {
    hide Framing.WellFormed;
  }
}
