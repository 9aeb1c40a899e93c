/** What the receive loop of mqtt_tcpclient_recv makes of a TCP segment. */
module ReceiveLoop {
  import opened Octets
  import opened MqttWire
  import opened ClientSpec
  import opened ClientAnswers
  import Framing
  import PacketQueue

  // ----- when the loop ends

  /** The loop ends within `n` rounds. */
  ghost predicate EndsWithin(buffer: seq<byte>, segment: seq<byte>, n: nat)
    requires |buffer| == BUF
    decreases n
  {
    match Next(buffer, segment)
    case None => true
    case Some(total) => n > 0 && EndsWithin(Overlaid(buffer, segment), segment[total..], n - 1)
  }

  lemma OverlaidTwice(buffer: seq<byte>, segment: seq<byte>)
    requires |segment| <= |buffer|
    ensures Overlaid(Overlaid(buffer, segment), segment) == Overlaid(buffer, segment)
  {
  }

  /** A packet whose total length is a multiple of 65536 is read again and again. */
  lemma {:induction false} ZeroLengthHangs(buffer: seq<byte>, segment: seq<byte>, n: nat)
    requires |buffer| == BUF && Next(buffer, segment) == Some(0)
    ensures !EndsWithin(buffer, segment, n)
    decreases n
  {
    OverlaidTwice(buffer, segment);
    if n > 0 {
      assert segment[0..] == segment;
      ZeroLengthHangs(Overlaid(buffer, segment), segment, n - 1);
    }
  }

  lemma {:induction false} EndsSettles(buffer: seq<byte>, segment: seq<byte>, n: nat)
    requires |buffer| == BUF && EndsWithin(buffer, segment, n)
    ensures Settles(buffer, segment)
    decreases n
  {
    match Next(buffer, segment) {
      case None =>
      case Some(total) =>
        if total == 0 {
          ZeroLengthHangs(buffer, segment, n);
        }
        EndsSettles(Overlaid(buffer, segment), segment[total..], n - 1);
    }
  }

  lemma {:induction false} SettlesEnds(buffer: seq<byte>, segment: seq<byte>)
    requires |buffer| == BUF && Settles(buffer, segment)
    ensures EndsWithin(buffer, segment, |segment|)
    decreases |segment|
  {
    match Next(buffer, segment) {
      case None =>
      case Some(total) =>
        SettlesEnds(Overlaid(buffer, segment), segment[total..]);
        EndsLater(Overlaid(buffer, segment), segment[total..], |segment| - total, |segment| - 1);
    }
  }

  lemma {:induction false} EndsLater(buffer: seq<byte>, segment: seq<byte>, m: nat, n: nat)
    requires |buffer| == BUF && m <= n && EndsWithin(buffer, segment, m)
    ensures EndsWithin(buffer, segment, n)
    decreases n
  {
    match Next(buffer, segment) {
      case None =>
      case Some(total) => EndsLater(Overlaid(buffer, segment), segment[total..], m - 1, n - 1);
    }
  }

  /** What the packet at the start of a segment announces as its total length. */
  function Announced(segment: seq<byte>): (total: nat)
    ensures segment != [] ==> total > 0
  {
    TotalLength(segment, |segment|)
  }

  /** Read off the segment alone: no PUBLISH that the loop reaches has a total length that
      is 0 in 16 bits. */
  predicate NoneAnnouncesZero(segment: seq<byte>)
    decreases |segment|
  {
    if !(0 < |segment| < BUF) || GetType(segment[0]) != PUBLISH then true else
      var total := Announced(segment) % 0x1_0000;
      total > 0 && (total < |segment| ==> NoneAnnouncesZero(segment[total..]))
  }

  lemma {:induction false} ScanOfPrefix(s: seq<byte>, segment: seq<byte>, i: nat)
    requires segment <= s
    ensures ScanValue(s, i, |segment|) == ScanValue(segment, i, |segment|)
    ensures ScanEnd(s, i, |segment|) == ScanEnd(segment, i, |segment|)
    decreases |segment| - i
  {
    if i < |segment| {
      ScanOfPrefix(s, segment, i + 1);
    }
  }

  /** What an earlier segment left in the buffer does not matter. */
  lemma {:induction false} SettlesIff(buffer: seq<byte>, segment: seq<byte>)
    requires |buffer| == BUF
    ensures Settles(buffer, segment) <==> NoneAnnouncesZero(segment)
    decreases |segment|
  {
    if 0 < |segment| < BUF {
      var s := Overlaid(buffer, segment);
      assert segment <= s && s[0] == segment[0];
      ScanOfPrefix(s, segment, 1);
      hide Overlaid, ScanValue, ScanEnd;
      var total := Announced(segment) % 0x1_0000;
      if GetType(segment[0]) == PUBLISH && 0 < total < |segment| {
        SettlesIff(s, segment[total..]);
      }
    }
  }

  /** Announced totals below 65536 suffice. */
  predicate TotalsBelow65536(segment: seq<byte>)
    decreases |segment|
  {
    if !(0 < |segment| < BUF) || GetType(segment[0]) != PUBLISH then true else
      Announced(segment) < 0x1_0000
      && (Announced(segment) < |segment| ==> TotalsBelow65536(segment[Announced(segment)..]))
  }

  lemma {:induction false} ShortTotalsEnd(segment: seq<byte>)
    requires TotalsBelow65536(segment)
    ensures NoneAnnouncesZero(segment)
    decreases |segment|
  {
    hide Announced;
    if 0 < |segment| < BUF && GetType(segment[0]) == PUBLISH && Announced(segment) < |segment| {
      ShortTotalsEnd(segment[Announced(segment)..]);
    }
  }

  /** The loop ends, and then within one round a byte, on exactly the segments on which no
      PUBLISH reached has a total length that is 0 in 16 bits. */
  lemma LoopEndsIff(buffer: seq<byte>, segment: seq<byte>)
    requires |buffer| == BUF
    ensures Settles(buffer, segment) <==> NoneAnnouncesZero(segment)
    ensures NoneAnnouncesZero(segment) ==> EndsWithin(buffer, segment, |segment|)
    ensures forall n: nat :: EndsWithin(buffer, segment, n) ==> NoneAnnouncesZero(segment)
  {
    hide EndsWithin, Settles, NoneAnnouncesZero;
    SettlesIff(buffer, segment);
    if Settles(buffer, segment) {
      SettlesEnds(buffer, segment);
    }
    forall n: nat | EndsWithin(buffer, segment, n)
      ensures NoneAnnouncesZero(segment)
    {
      EndsSettles(buffer, segment, n);
    }
  }

  lemma ScanOf65532(segment: seq<byte>)
    requires segment == [0x30, 0xFC, 0xFF, 3]
    ensures ScanValue(segment, 1, 4) == 65532 && ScanEnd(segment, 1, 4) == 4
  {
    assert ScanValue(segment, 3, 4) == 3 && ScanEnd(segment, 3, 4) == 4;
    assert ScanValue(segment, 2, 4) == 127 + 128 * 3 && ScanEnd(segment, 2, 4) == 4;
  }

  /** Such a segment exists: a PUBLISH header announcing 65532 bytes. */
  lemma HangingSegment(buffer: seq<byte>)
    requires |buffer| == BUF
    ensures !Settles(buffer, [0x30, 0xFC, 0xFF, 3])
  {
    var segment: seq<byte> := [0x30, 0xFC, 0xFF, 3];
    ScanOf65532(segment);
    hide Settles, ScanValue, ScanEnd;
    assert Announced(segment) == 0x1_0000;
    SettlesIff(buffer, segment);
  }

  // ----- segments of several PUBLISH packets

  function Concat(ms: seq<Publish>): seq<byte> {
    if ms == [] then [] else PublishWire(ms[0]) + Concat(ms[1..])
  }

  ghost predicate WellFormedPublish(m: Publish) {
    ValidPublish(m) && Qos(m) <= 2 && (Qos(m) > 0 ==> m.id != 0)
  }

  /** The payload of a last packet with QoS above 0 and nothing behind its id is missed. */
  function Delivered(m: Publish, isLast: bool): Output {
    Data(Some(m.topic), if isLast && Qos(m) > 0 && m.payload == [] then None else Some(m.payload))
  }

  function Deliveries(ms: seq<Publish>): (r: seq<Output>)
    ensures |r| == |ms|
    ensures forall i :: 0 <= i < |ms| ==> r[i] == Delivered(ms[i], i == |ms| - 1)
  {
    if ms == [] then [] else [Delivered(ms[0], |ms| == 1)] + Deliveries(ms[1..])
  }

  /** The acknowledgement owed for a packet of QoS 1 or 2: PUBACK or PUBREC (sections 3.4 and
      3.5 of MQTT 3.1.1). */
  function Ack(m: Publish): seq<seq<byte>> {
    if Qos(m) == 1 then [[0x40, 2, m.id / 256, m.id % 256]]
    else if Qos(m) == 2 then [[0x50, 2, m.id / 256, m.id % 256]] else []
  }

  /** Those owed for several, in order. */
  function Acks(ms: seq<Publish>): seq<seq<byte>> {
    if ms == [] then [] else Ack(ms[0]) + Acks(ms[1..])
  }

  function PutAll(v: View, packets: seq<seq<byte>>, cfg: Config): View
    requires |v.ring| <= cfg.ringSize
    decreases |packets|
  {
    if packets == [] then v else
      PacketQueue.WrittenDecodes(v.ring, packets[0], cfg.ringSize);
      PutAll(Put(v, packets[0], cfg), packets[1..], cfg)
  }

  lemma {:induction false} PutAllFrame(v: View, packets: seq<seq<byte>>, log: seq<Output>,
                                        buffer: seq<byte>, cfg: Config)
    requires |v.ring| <= cfg.ringSize
    ensures PutAll(v.(log := log, inBuffer := buffer), packets, cfg)
         == PutAll(v, packets, cfg).(log := log, inBuffer := buffer)
    ensures PutAll(v, packets, cfg).log == v.log && PutAll(v, packets, cfg).inBuffer == v.inBuffer
    decreases |packets|
  {
    if packets != [] {
      PacketQueue.WrittenDecodes(v.ring, packets[0], cfg.ringSize);
      PutAllFrame(Put(v, packets[0], cfg), packets[1..], log, buffer, cfg);
    }
  }

  lemma {:induction false} PutAllConcat(v: View, p: seq<seq<byte>>, q: seq<seq<byte>>, cfg: Config)
    requires Legal(v, cfg)
    ensures Legal(PutAll(v, p, cfg), cfg)
    ensures PutAll(v, p + q, cfg) == PutAll(PutAll(v, p, cfg), q, cfg)
    decreases |p|
  {
    if p == [] {
      assert p + q == q;
    } else {
      assert (p + q)[1..] == p[1..] + q;
      PutLegal(v, p[0], cfg);
      PutAllConcat(Put(v, p[0], cfg), p[1..], q, cfg);
    }
  }

  /** What the decoders make of a segment that starts with a PUBLISH. */
  lemma PublishAtFront(v: View, m: Publish, rest: seq<byte>, segment: seq<byte>)
    requires |v.inBuffer| == BUF && WellFormedPublish(m) && segment == PublishWire(m) + rest && |segment| < BUF
    ensures var s := Overlaid(v.inBuffer, segment);
            && s[0] == m.first && MsgId(s, |s|) == (if Qos(m) > 0 then m.id else 0)
            && Delivery(s, |segment|) == Delivered(m, rest == [])
    ensures |PublishWire(m)| > 0 && |Overlaid(v.inBuffer, segment)| == BUF
    ensures Next(v.inBuffer, segment) == if rest == [] then None else Some(|PublishWire(m)|)
  {
    hide Holds, Str, Word, PublishBody, EncodedLength, ScanEnd, ScanValue, TotalLength;
    hide PublishTopic, PublishData, MsgId, PayloadRead, TopicRead;
    var s := Overlaid(v.inBuffer, segment);
    var after := rest + v.inBuffer[|segment|..];
    assert s == PublishWire(m) + after;
    PublishRoundTrip(m, s, after, |segment|);
    PublishRoundTrip(m, s, after, |s|);
  }

  lemma HandledPublish(v: View, m: Publish, segment: seq<byte>, isLast: bool, cfg: Config)
    requires Legal(v, cfg) && WellFormedPublish(m) && 0 < |segment| < BUF
    requires var s := Overlaid(v.inBuffer, segment);
             && s[0] == m.first && MsgId(s, |s|) == (if Qos(m) > 0 then m.id else 0)
             && Delivery(s, |segment|) == Delivered(m, isLast)
    ensures var v0 := v.(inBuffer := Overlaid(v.inBuffer, segment));
            Handled(v0, |segment|, cfg) == Logged(PutAll(v0, Acks([m]), cfg), Delivered(m, isLast))
  {
    hide MsgId, Delivery, Delivered, Put, AckPacket;
    AckBytes(m.id);
    assert [m][1..] == [];
  }

  lemma ReceivingOnce(v: View, segment: seq<byte>, cfg: Config)
    requires Legal(v, cfg) && 0 < |segment| < BUF && Settles(v.inBuffer, segment)
    ensures var v1 := Handled(v.(inBuffer := Overlaid(v.inBuffer, segment)), |segment|, cfg);
            && Legal(v1, cfg) && v1.inBuffer == Overlaid(v.inBuffer, segment)
            && Receiving(v, segment, cfg) ==
               match Next(v.inBuffer, segment) case None => v1 case Some(total) => Receiving(v1, segment[total..], cfg)
  {
    HandledLegal(v.(inBuffer := Overlaid(v.inBuffer, segment)), |segment|, cfg);
  }

  /** The state after a segment made of `ms`, up to the input buffer. */
  function Split(v: View, ms: seq<Publish>, cfg: Config): View
    requires |v.ring| <= cfg.ringSize
  {
    PutAll(v, Acks(ms), cfg).(log := v.log + Deliveries(ms))
  }

  lemma Assoc<T>(a: seq<T>, b: seq<T>, c: seq<T>)
    ensures a + (b + c) == a + b + c
  {
  }

  lemma AcksFirst(ms: seq<Publish>)
    requires ms != []
    ensures Acks(ms) == Acks([ms[0]]) + Acks(ms[1..])
  {
    hide Ack;
    assert [ms[0]][1..] == [] && Acks([]) == [];
  }

  lemma SplitFirst(v: View, ms: seq<Publish>, buffer: seq<byte>, cfg: Config) returns (v1: View)
    requires Legal(v, cfg) && ms != []
    ensures v1 == Logged(PutAll(v.(inBuffer := buffer), Acks([ms[0]]), cfg), Delivered(ms[0], |ms| == 1))
    ensures |v1.ring| <= cfg.ringSize && v1.inBuffer == buffer
    ensures Split(v1, ms[1..], cfg).(inBuffer := v.inBuffer) == Split(v, ms, cfg)
  {
    hide Delivered, Put, AckPacket, Acks, PutAll;
    var first, rest := Acks([ms[0]]), Acks(ms[1..]);
    var d := Delivered(ms[0], |ms| == 1);
    AcksFirst(ms);
    PutAllConcat(v, first, rest, cfg);
    PutAllFrame(v, first, v.log, buffer, cfg);
    v1 := Logged(PutAll(v.(inBuffer := buffer), first, cfg), d);
    PutAllFrame(PutAll(v, first, cfg), rest, v.log + [d], buffer, cfg);
    assert Deliveries(ms) == [d] + Deliveries(ms[1..]);
    Assoc(v.log, [d], Deliveries(ms[1..]));
  }

  lemma ConcatEmpty(ms: seq<Publish>)
    ensures Concat(ms) == [] <==> ms == []
  {
  }

  /** Every PUBLISH of a segment is delivered with its own topic and payload, in order, and
      for each packet of QoS 1 or 2 one PUBACK or PUBREC with its identifier is queued. */
  lemma {:induction false} SegmentIsSplit(v: View, ms: seq<Publish>, cfg: Config)
    requires Legal(v, cfg) && ms != [] && |Concat(ms)| < BUF
    requires forall m :: m in ms ==> WellFormedPublish(m)
    ensures Settles(v.inBuffer, Concat(ms))
    ensures Receiving(v, Concat(ms), cfg).(inBuffer := v.inBuffer) == Split(v, ms, cfg)
    decreases |ms|
  {
    hide Handled, Delivered, Put, AckPacket, Qos, PublishWire, WellFormedPublish;
    hide Next, Split, Overlaid, Acks, Deliveries;
    var segment, rest := Concat(ms), Concat(ms[1..]);
    ConcatEmpty(ms);
    ConcatEmpty(ms[1..]);
    var buffer := Overlaid(v.inBuffer, segment);
    PublishAtFront(v, ms[0], rest, segment);
    HandledPublish(v, ms[0], segment, rest == [], cfg);
    var v1 := SplitFirst(v, ms, buffer, cfg);
    HandledLegal(v.(inBuffer := buffer), |segment|, cfg);
    if |ms| == 1 {
      ReceivingOnce(v, segment, cfg);
      SplitNone(v1, cfg);
    } else {
      assert segment[|PublishWire(ms[0])|..] == rest;
      SegmentIsSplit(v1, ms[1..], cfg);
      ReceivingOnce(v, segment, cfg);
    }
  }

  lemma CutAtFront(buffer: seq<byte>, m: Publish, segment: seq<byte>)
    requires |buffer| == BUF && ValidPublish(m) && |PublishWire(m)| < 0x1_0000
    requires PayloadStart(m) < |segment| < BUF && segment < PublishWire(m)
    ensures |segment| - PayloadStart(m) <= |m.payload| && Overlaid(buffer, segment)[0] / 16 == 3
    ensures Delivery(Overlaid(buffer, segment), |segment|)
         == Data(Some(m.topic), Some(m.payload[..|segment| - PayloadStart(m)]))
    ensures Next(buffer, segment) == None
  {
    WireLength(m);
    hide TotalLength, PublishTopic, TopicRead, PayloadRead, PublishWire, EncodedLength;
    var (s, n) := (Overlaid(buffer, segment), |segment|);
    assert s[..n] == segment == PublishWire(m)[..n];
    PublishCut(m, s, n);
  }

  /** Of a PUBLISH whose segment ends in its payload, the topic and what there is of the payload
      are delivered as one message. */
  lemma CutIsDelivered(v: View, m: Publish, segment: seq<byte>, cfg: Config)
    requires Legal(v, cfg) && ValidPublish(m) && |PublishWire(m)| < 0x1_0000
    requires PayloadStart(m) < |segment| < BUF && segment < PublishWire(m)
    ensures Settles(v.inBuffer, segment) && |segment| - PayloadStart(m) <= |m.payload|
    ensures Receiving(v, segment, cfg).log
         == v.log + [Data(Some(m.topic), Some(m.payload[..|segment| - PayloadStart(m)]))]
  {
    CutAtFront(v.inBuffer, m, segment);
    hide Handled, Delivery, Next, Overlaid, Framing.WellFormed, PayloadStart, PublishWire;
    ReceivingOnce(v, segment, cfg);
    PublishAnswered(v.(inBuffer := Overlaid(v.inBuffer, segment)), |segment|, cfg);
  }

  lemma WireLength(m: Publish)
    ensures |PublishWire(m)| == PayloadStart(m) + |m.payload|
  {
    hide EncodedLength;
  }

  lemma SplitNone(v: View, cfg: Config)
    requires |v.ring| <= cfg.ringSize
    ensures Split(v, [], cfg) == v
  {
    assert v.log + [] == v.log;
  }
}
