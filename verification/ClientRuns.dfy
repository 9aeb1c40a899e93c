/** Properties of the MQTT client over whole runs. */
module ClientRuns {
  import opened Octets
  import opened MqttWire
  import opened MqttConnect
  import opened ClientSpec
  import Msg = MqttMsg
  import Framing
  import Proto
  import PacketQueue

  /** `vs[i]` is the state before event `es[i]`. */
  ghost predicate IsRun(vs: seq<View>, es: seq<Event>, cfg: Config) {
    && |vs| == |es| + 1
    && Legal(vs[0], cfg)
    && forall i :: 0 <= i < |es| ==> StepsTo(vs[i], es[i], vs[i + 1], cfg)
  }

  ghost predicate StepsTo(v: View, e: Event, v': View, cfg: Config) {
    Legal(v, cfg) && Enabled(v, e) && v' == Step(v, e, cfg)
  }

  ghost predicate Initial(v: View, cfg: Config) {
    && Legal(v, cfg)
    && v.connState == WIFI_INIT && !v.hasConn && !v.armed
    && v.sendTimeout == v.keepAliveTick == v.reconnectTick == v.pendingType == 0
    && v.ring == [] && v.log == [] && v.accepted == [] && v.taken == []
  }

  lemma RunStep(vs: seq<View>, es: seq<Event>, cfg: Config, i: nat)
    requires IsRun(vs, es, cfg) && i + 1 < |vs|
    ensures |vs| == |es| + 1 && Legal(vs[i], cfg) && Enabled(vs[i], es[i]) && vs[i + 1] == Step(vs[i], es[i], cfg)
  {
    hide Step, Legal, Enabled;
    assert StepsTo(vs[i], es[i], vs[i + 1], cfg);
  }

  lemma RunShape(vs: seq<View>, es: seq<Event>, cfg: Config)
    requires IsRun(vs, es, cfg)
    ensures |vs| == |es| + 1
  {
    hide StepsTo, Legal;
  }

  function Ticks(es: seq<Event>): nat {
    if es == [] then 0 else Ticks(es[..|es| - 1]) + if es[|es| - 1].Tick? then 1 else 0
  }

  /** The receive loop changes nothing but the queue, the identifiers and the deliveries. */
  lemma {:induction false} ReceivingFrame(v: View, segment: seq<byte>, cfg: Config)
    requires Legal(v, cfg) && Settles(v.inBuffer, segment)
    ensures var r := Receiving(v, segment, cfg);
            && r.connState == v.connState && r.sendTimeout == v.sendTimeout && r.pendingType == v.pendingType
            && r.keepAliveTick == v.keepAliveTick && r.reconnectTick == v.reconnectTick
            && r.hasConn == v.hasConn && r.armed == v.armed && r.taken == v.taken
    decreases |segment|
  {
    hide Put, Delivery, AckPacket, Msg.Finished, Flags, MsgId, Overlaid, Framing.WellFormed;
    if 0 < |segment| < BUF {
      var v0 := v.(inBuffer := Overlaid(v.inBuffer, segment));
      HandledLegal(v0, |segment|, cfg);
      HandledFrame(v0, |segment|, cfg);
      match Next(v.inBuffer, segment) {
        case None =>
        case Some(total) => ReceivingFrame(Handled(v0, |segment|, cfg), segment[total..], cfg);
      }
    }
  }

  // ----- the first packet of a connection

  predicate EverOpened(log: seq<Output>) {
    log != [] && (log[|log| - 1].Opened? || EverOpened(log[..|log| - 1]))
  }

  /** Packets sent since the last connection was opened. */
  function SentSince(log: seq<Output>): nat {
    if log == [] || log[|log| - 1].Opened? then 0
    else SentSince(log[..|log| - 1]) + if log[|log| - 1].Sent? then 1 else 0
  }

  /** CONNACK came since the last connection was opened. */
  predicate AcceptedSince(log: seq<Output>) {
    log != [] && !log[|log| - 1].Opened? && (log[|log| - 1].Accepted? || AcceptedSince(log[..|log| - 1]))
  }

  /** Section 3.1 of MQTT 3.1.1: the first packet on each TCP connection is the CONNECT, and
      everything after it on that connection waits for the CONNACK. */
  ghost predicate ConnectFirst(log: seq<Output>, connect: seq<byte>) {
    forall i :: 0 <= i < |log| && log[i].Sent? ==>
      && EverOpened(log[..i])
      && if SentSince(log[..i]) == 0 then log[i].packet == connect else AcceptedSince(log[..i])
  }

  ghost predicate Greeting(v: View, cfg: Config) {
    && ConnectFirst(v.log, ConnectPacket(cfg))
    && (v.connState == MQTT_CONNECT_SENDING ==>
          EverOpened(v.log) && SentSince(v.log) == 1 && v.pendingType == CONNECT)
    && (v.connState == MQTT_DATA ==> EverOpened(v.log) && SentSince(v.log) >= 1 && AcceptedSince(v.log))
    && Dropped !in v.log
  }

  lemma Appended(log: seq<Output>, o: Output, connect: seq<byte>)
    requires ConnectFirst(log, connect)
    requires o.Sent? ==>
               EverOpened(log) && if SentSince(log) == 0 then o.packet == connect else AcceptedSince(log)
    ensures ConnectFirst(log + [o], connect)
    ensures EverOpened(log + [o]) <==> o.Opened? || EverOpened(log)
    ensures SentSince(log + [o]) == if o.Opened? then 0 else SentSince(log) + if o.Sent? then 1 else 0
    ensures AcceptedSince(log + [o]) <==> !o.Opened? && (o.Accepted? || AcceptedSince(log))
  {
    var l := log + [o];
    assert l[..|log|] == log;
    forall i | 0 <= i < |l| && l[i].Sent?
      ensures EverOpened(l[..i])
      ensures if SentSince(l[..i]) == 0 then l[i].packet == connect else AcceptedSince(l[..i])
    {
      assert l[..i] == log[..i];
      assert i < |log| ==> log[i].Sent?;
    }
  }

  lemma {:induction false} ReceivingGreeting(v: View, segment: seq<byte>, cfg: Config)
    requires Legal(v, cfg) && Settles(v.inBuffer, segment) && Greeting(v, cfg)
    ensures Greeting(Receiving(v, segment, cfg), cfg)
    decreases |segment|
  {
    hide ConnectFirst, EverOpened, SentSince, AcceptedSince, Framing.WellFormed, Handled, Overlaid, ConnectPacket;
    if 0 < |segment| < BUF {
      var v0 := v.(inBuffer := Overlaid(v.inBuffer, segment));
      HandledLegal(v0, |segment|, cfg);
      HandledFrame(v0, |segment|, cfg);
      Appended(v.log, Delivery(v0.inBuffer, |segment|), ConnectPacket(cfg));
      match Next(v.inBuffer, segment) {
        case None =>
        case Some(total) => ReceivingGreeting(Handled(v0, |segment|, cfg), segment[total..], cfg);
      }
    }
  }

  lemma ConnectPacketType(cfg: Config)
    requires ConnectFits(cfg.info, BUF)
    ensures ConnectPacket(cfg) != [] && GetType(ConnectPacket(cfg)[0]) == CONNECT
  {
    hide ConnectBody, ConnectFits, Flags, GetType;
    FlagsRead(CONNECT, 0, 0, 0);
    FinishedFirst(Flags(CONNECT, 0, 0, 0), ConnectBody(cfg.info));
  }

  lemma FinishedFirst(first: byte, body: seq<byte>)
    ensures Msg.Finished(first, body) != [] && Msg.Finished(first, body)[0] == first
  {
  }

  lemma StepGreeting(v: View, e: Event, cfg: Config)
    requires Legal(v, cfg) && Enabled(v, e) && ConnectFits(cfg.info, BUF) && Greeting(v, cfg)
    ensures Greeting(Step(v, e, cfg), cfg)
  {
    hide ConnectFirst, EverOpened, SentSince, AcceptedSince, Framing.WellFormed, ConnectPacket, Receiving;
    hide Publishing, Subscribing, Overlaid, GetType, Settles, ConnectFits, Proto.Truncated, Framing.FirstPacket;
    var connect := ConnectPacket(cfg);
    match e {
      case ConnectCb(_, ok) =>
        ConnectPacketType(cfg);
        Appended(v.log, Opened, connect);
        Appended(v.log + [Opened], Sent(connect, Source.Greeting, v.hasConn && ok), connect);
        assert v.log + [Opened, Sent(connect, Source.Greeting, v.hasConn && ok)]
            == v.log + [Opened] + [Sent(connect, Source.Greeting, v.hasConn && ok)];
      case Recv(segment) =>
        if v.connState == MQTT_DATA {
          ReceivingGreeting(v, segment, cfg);
        } else if v.connState == MQTT_CONNECT_SENDING {
          Appended(v.log, Accepted, connect);
        }
      case Tick(ok) =>
        if v.connState == MQTT_DATA {
          Appended(v.log, Sent(PING, Ping, v.hasConn && ok), connect);
        }
      case Task(_, ok) =>
        if v.connState == MQTT_DATA && Framing.END in v.ring {
          var data := Proto.Truncated(Framing.FirstPacket(v.ring), BUF);
          Appended(v.log, Sent(data, FromQueue, v.hasConn && ok), connect);
        }
      case Publish(topic, payload, qos, retain) =>
        QueueingKeeps(v, topic, payload, qos, retain, cfg);
      case Subscribe(topic) =>
        QueueingKeeps(v, topic, [], 0, 0, cfg);
      case _ =>
    }
  }

  /** Publishing and subscribing touch only the queue and the identifiers. */
  lemma QueueingKeeps(v: View, topic: seq<byte>, payload: seq<byte>, qos: int, retain: int, cfg: Config)
    requires |v.ring| <= cfg.ringSize
    ensures var p := Publishing(v, topic, payload, qos, retain, cfg);
            p.(messageId := v.messageId, ring := v.ring, accepted := v.accepted, taken := v.taken) == v
    ensures var s := Subscribing(v, topic, cfg);
            s.(messageId := v.messageId, ring := v.ring, accepted := v.accepted, taken := v.taken) == v
  {
    hide PublishPacket, SubscribePacket, PacketQueue.Dropping, PacketQueue.Dropped, Discard;
  }

  lemma NothingLogged(connect: seq<byte>)
    ensures ConnectFirst([], connect)
  {
  }

  /** Over every run with a CONNECT that fits the build buffer, the first packet sent on each
      TCP connection is the CONNECT, nothing follows it before the CONNACK, and the branch
      for an invalid CONNACK is never taken. */
  lemma {:induction false} ConnectComesFirst(vs: seq<View>, es: seq<Event>, cfg: Config, n: nat)
    requires IsRun(vs, es, cfg) && Initial(vs[0], cfg) && ConnectFits(cfg.info, BUF) && n < |vs|
    ensures ConnectFirst(vs[n].log, ConnectPacket(cfg)) && Dropped !in vs[n].log
    ensures vs[n].connState == MQTT_CONNECT_SENDING ==> vs[n].pendingType == CONNECT
    ensures Greeting(vs[n], cfg)
  {
    hide Step, Legal, Enabled, IsRun, ConnectFits, ConnectFirst, ConnectPacket;
    if n == 0 {
      NothingLogged(ConnectPacket(cfg));
    } else {
      ConnectComesFirst(vs, es, cfg, n - 1);
      RunStep(vs, es, cfg, n - 1);
      StepGreeting(vs[n - 1], es[n - 1], cfg);
    }
  }

  /** Packets that the connection accepted since it was opened. */
  function ReachedSince(log: seq<Output>): nat {
    if log == [] || log[|log| - 1].Opened? then 0
    else ReachedSince(log[..|log| - 1]) + if log[|log| - 1].Sent? && log[|log| - 1].reached then 1 else 0
  }

  lemma {:induction false} ReachedBeforeAccepted(log: seq<Output>, n: nat)
    requires n <= |log| && AcceptedSince(log[..n])
    requires forall j :: 0 <= j < |log| && log[j].Accepted? ==> ReachedSince(log[..j]) > 0
    ensures ReachedSince(log[..n]) > 0
  {
    assert log[..n][..n - 1] == log[..n - 1];
    if !log[n - 1].Accepted? {
      ReachedBeforeAccepted(log, n - 1);
    }
  }

  /** If the server sends a CONNACK only after it was sent something, then also the first packet
      that each connection accepts is the CONNECT. */
  lemma FirstAcceptedIsConnect(log: seq<Output>, connect: seq<byte>, i: nat)
    requires ConnectFirst(log, connect) && i < |log| && log[i].Sent? && log[i].reached
    requires forall j :: 0 <= j < |log| && log[j].Accepted? ==> ReachedSince(log[..j]) > 0
    requires ReachedSince(log[..i]) == 0
    ensures log[i].packet == connect
  {
    if AcceptedSince(log[..i]) {
      ReachedBeforeAccepted(log, i);
    }
  }

  /** Without room for the CONNECT the first send on the first connection has no bytes. */
  lemma UnfitConnectIsNotSent(v: View, cfg: Config, stale: byte, ok: bool)
    requires Initial(v, cfg) && !ConnectFits(cfg.info, BUF)
    ensures var v1 := Step(v, Connect, cfg);
            && Legal(v1, cfg) && Enabled(v1, ConnectCb(stale, ok))
            && forall connect :: connect != [] ==> !ConnectFirst(Step(v1, ConnectCb(stale, ok), cfg).log, connect)
  {
    var v1 := Step(v, Connect, cfg);
    var log := Step(v1, ConnectCb(stale, ok), cfg).log;
    assert log[1] == Sent([], Source.Greeting, ok);
    assert SentSince(log[..1]) == 0;
  }

  // ----- conservation of queued packets

  function PacketsOf(taken: seq<Taken>): (r: seq<seq<byte>>)
    ensures |r| == |taken| && forall i :: 0 <= i < |taken| ==> r[i] == taken[i].packet
  {
    seq(|taken|, i requires 0 <= i < |taken| => taken[i].packet)
  }

  /** The packets that MQTT_Task took, by whether a connection accepted them. */
  function TakenBy(taken: seq<Taken>, reached: bool): seq<seq<byte>> {
    if taken == [] then [] else
      var (front, t) := (TakenBy(taken[..|taken| - 1], reached), taken[|taken| - 1]);
      if (if reached then t.Transmitted? else t.Lost?) then front + [t.packet] else front
  }

  /** The packets that MQTT_Task sent, likewise. */
  function QueueSends(log: seq<Output>, reached: bool): seq<seq<byte>> {
    if log == [] then [] else
      var (front, o) := (QueueSends(log[..|log| - 1], reached), log[|log| - 1]);
      if o.Sent? && o.source == FromQueue && o.reached == reached then front + [o.packet] else front
  }

  /** Every accepted packet has left the queue once, in order, or is still in it; and what a
      connection accepts of MQTT_Task is, unshortened, what is booked as transmitted, and what
      it refuses, or what is sent on none, what is booked as lost. */
  ghost predicate QueueConserved(v: View) {
    && PacketsOf(v.taken) + Framing.Decode(v.ring) == v.accepted
    && QueueSends(v.log, true) == TakenBy(v.taken, true)
    && QueueSends(v.log, false) == TakenBy(v.taken, false)
    && forall p :: p in v.accepted ==> |p| <= BUF
  }

  lemma PutConserves(v: View, packet: seq<byte>, cfg: Config)
    requires |v.ring| <= cfg.ringSize && |packet| <= BUF && QueueConserved(v)
    ensures QueueConserved(Put(v, packet, cfg))
  {
    hide Framing.Decode, PacketsOf, Framing.Encode, Framing.WellFormed, QueueSends, TakenBy;
    PacketQueue.WrittenDecodes(v.ring, packet, cfg.ringSize);
    if |v.ring| + |Framing.Encode(packet)| <= cfg.ringSize {
      assert PacketsOf(v.taken) + (Framing.Decode(v.ring) + [packet]) == v.accepted + [packet];
    }
  }

  lemma DiscardSplit(taken: seq<Taken>, ps: seq<seq<byte>>, k: nat)
    requires k <= |ps|
    ensures PacketsOf(taken + Discard(ps[..k])) + ps[k..] == PacketsOf(taken) + ps
  {
  }

  lemma {:induction false} DiscardedAreNotSent(taken: seq<Taken>, ps: seq<seq<byte>>)
    ensures TakenBy(taken + Discard(ps), true) == TakenBy(taken, true)
    ensures TakenBy(taken + Discard(ps), false) == TakenBy(taken, false)
    decreases |ps|
  {
    var all := taken + Discard(ps);
    if ps == [] {
      assert all == taken;
    } else {
      var n := |ps| - 1;
      assert all[..|all| - 1] == taken + Discard(ps[..n]);
      assert all[|all| - 1] == Discarded(ps[n]);
      DiscardedAreNotSent(taken, ps[..n]);
    }
  }

  lemma PutDroppingConserves(v: View, packet: seq<byte>, cfg: Config)
    requires |v.ring| <= cfg.ringSize && |packet| <= BUF && QueueConserved(v)
    ensures QueueConserved(PutDropping(v, packet, cfg))
  {
    hide Framing.Decode, PacketsOf, Framing.WellFormed, QueueSends, TakenBy, Discard;
    hide PacketQueue.Dropping, PacketQueue.Dropped;
    PacketQueue.DroppingOutcome(v.ring, packet, cfg.ringSize);
    var (ring, ok) := PacketQueue.Dropping(v.ring, packet, cfg.ringSize);
    var before := Framing.Decode(v.ring);
    var k := if ok then PacketQueue.Dropped(v.ring, packet, cfg.ringSize) else |before|;
    DiscardSplit(v.taken, before, k);
    DiscardedAreNotSent(v.taken, before[..k]);
    var left := PacketsOf(v.taken + Discard(before[..k]));
    if ok {
      assert left + (before[k..] + [packet]) == left + before[k..] + [packet];
    } else {
      NothingDecoded();
      assert before[k..] == [] && left + [] == left;
    }
  }

  lemma NothingDecoded()
    ensures Framing.Decode([]) == []
  {
  }

  lemma BuiltFits(first: byte, body: seq<byte>)
    ensures |Msg.Built(first, body, BUF)| <= BUF
  {
  }

  lemma AckFits(kind: int, qos: int, id: uint16)
    ensures |AckPacket(kind, qos, id)| == 4
  {
  }

  lemma RespondConserves(v: View, kind: int, qos: int, id: uint16, cfg: Config)
    requires |v.ring| <= cfg.ringSize && QueueConserved(v)
    ensures QueueConserved(Respond(v, kind, qos, id, cfg))
  {
    hide QueueConserved, Put, AckPacket;
    var v1 := if id == 0 then v.(messageId := Msg.FreshId(v.messageId)) else v;
    SameQueue(v, v1);
    var packet := AckPacket(kind, qos, if id == 0 then v1.messageId else id);
    AckFits(kind, qos, if id == 0 then v1.messageId else id);
    PutConserves(v1, packet, cfg);
  }

  lemma DeliveredConserves(v: View, s: seq<byte>, limit: nat)
    requires limit <= |s| && QueueConserved(v)
    ensures QueueConserved(Logged(v, Delivery(s, limit)))
  {
    hide QueueConserved, Delivery;
    DeliveryIsData(s, limit);
    OtherOutput(v, Delivery(s, limit));
  }

  lemma HandledConserves(v: View, limit: nat, cfg: Config)
    requires Legal(v, cfg) && 0 < limit <= |v.inBuffer| && QueueConserved(v)
    ensures QueueConserved(Handled(v, limit, cfg))
  {
    hide QueueConserved, Framing.WellFormed, Respond, Put, Logged, Delivery;
    hide Msg.Finished, Flags, MsgId, GetType, GetQos;
    var s, id := v.inBuffer, MsgId(v.inBuffer, |v.inBuffer|);
    RespondConserves(v, PUBACK, 0, id, cfg);
    RespondConserves(v, PUBREC, 0, id, cfg);
    RespondConserves(v, PUBREL, 1, id, cfg);
    RespondConserves(v, PUBCOMP, 0, id, cfg);
    PingRespFits();
    PutConserves(v, Msg.Finished(Flags(PINGRESP, 0, 0, 0), []), cfg);
    DeliveredConserves(v, s, limit);
    DeliveredConserves(Respond(v, PUBACK, 0, id, cfg), s, limit);
    DeliveredConserves(Respond(v, PUBREC, 0, id, cfg), s, limit);
  }

  lemma DeliveryIsData(s: seq<byte>, limit: nat)
    requires limit <= |s|
    ensures Delivery(s, limit).Data?
  {
  }

  lemma PingRespFits()
    ensures |Msg.Finished(Flags(PINGRESP, 0, 0, 0), [])| == 2
  {
  }

  lemma {:induction false} ReceivingConserves(v: View, segment: seq<byte>, cfg: Config)
    requires Legal(v, cfg) && Settles(v.inBuffer, segment) && QueueConserved(v)
    ensures QueueConserved(Receiving(v, segment, cfg))
    decreases |segment|
  {
    hide QueueConserved, Framing.WellFormed, Handled, Overlaid;
    if 0 < |segment| < BUF {
      var v0 := v.(inBuffer := Overlaid(v.inBuffer, segment));
      SameQueue(v, v0);
      HandledLegal(v0, |segment|, cfg);
      HandledConserves(v0, |segment|, cfg);
      match Next(v.inBuffer, segment) {
        case None =>
        case Some(total) => ReceivingConserves(Handled(v0, |segment|, cfg), segment[total..], cfg);
      }
    }
  }

  lemma SameQueue(v: View, w: View)
    requires w.ring == v.ring && w.log == v.log && w.accepted == v.accepted && w.taken == v.taken
    ensures QueueConserved(v) ==> QueueConserved(w)
  {
  }

  lemma SameQueueAsOneOf(v1: View, v2: View, v3: View, w: View)
    requires QueueConserved(v1) && QueueConserved(v2) && QueueConserved(v3)
    requires w.ring == v1.ring == v2.ring == v3.ring && (w.log == v1.log || w.log == v2.log || w.log == v3.log)
    requires w.accepted == v1.accepted == v2.accepted == v3.accepted
    requires w.taken == v1.taken == v2.taken == v3.taken
    ensures QueueConserved(w)
  {
  }

  lemma OtherOutput(v: View, o: Output)
    requires QueueConserved(v) && (o.Sent? ==> o.source != FromQueue)
    ensures QueueConserved(Logged(v, o))
  {
    hide Framing.Decode, PacketsOf, TakenBy, QueueSends;
    OtherLogged(v.log, o);
  }

  lemma OtherLogged(log: seq<Output>, o: Output)
    requires o.Sent? ==> o.source != FromQueue
    ensures QueueSends(log + [o], true) == QueueSends(log, true)
    ensures QueueSends(log + [o], false) == QueueSends(log, false)
  {
    assert (log + [o])[..|log|] == log;
  }

  lemma SendLogged(log: seq<Output>, taken: seq<Taken>, packet: seq<byte>, reached: bool)
    ensures var log' := log + [Sent(packet, FromQueue, reached)];
            var taken' := taken + [if reached then Transmitted(packet) else Lost(packet)];
            && QueueSends(log', reached) == QueueSends(log, reached) + [packet]
            && QueueSends(log', !reached) == QueueSends(log, !reached)
            && TakenBy(taken', reached) == TakenBy(taken, reached) + [packet]
            && TakenBy(taken', !reached) == TakenBy(taken, !reached)
            && PacketsOf(taken') == PacketsOf(taken) + [packet]
  {
    var o, t := Sent(packet, FromQueue, reached), if reached then Transmitted(packet) else Lost(packet);
    assert (log + [o])[..|log|] == log && (taken + [t])[..|taken|] == taken;
  }

  lemma TransmittingConserves(v: View, stale: byte, ok: bool)
    requires QueueConserved(v)
    ensures QueueConserved(Transmitting(v, stale, ok))
  {
    hide Framing.FirstPacket, Framing.AfterFirstEnd, Framing.WellFormed, GetType, PacketsOf, QueueSends, TakenBy;
    if Framing.END in v.ring {
      var packet, rest := Framing.FirstPacket(v.ring), Framing.Decode(Framing.AfterFirstEnd(v.ring));
      assert Framing.Decode(v.ring) == [packet] + rest;
      assert packet in v.accepted by {
        assert (PacketsOf(v.taken) + ([packet] + rest))[|v.taken|] == packet;
      }
      hide Framing.Decode;
      SendLogged(v.log, v.taken, packet, v.hasConn && ok);
      assert PacketsOf(v.taken) + [packet] + rest == PacketsOf(v.taken) + ([packet] + rest);
    } else {
      NothingDecoded();
      Proto.NothingRead(v.ring);
      assert Framing.Decode(v.ring) == [];
    }
  }

  lemma QueueingConserves(v: View, packet: seq<byte>, id: uint16, cfg: Config)
    requires |v.ring| <= cfg.ringSize && |packet| <= BUF && QueueConserved(v)
    ensures QueueConserved(v.(messageId := id)) && QueueConserved(PutDropping(v.(messageId := id), packet, cfg))
  {
    SameQueue(v, v.(messageId := id));
    PutDroppingConserves(v.(messageId := id), packet, cfg);
  }

  lemma PublishingConserves(v: View, topic: seq<byte>, payload: seq<byte>, qos: int, retain: int, cfg: Config)
    requires |v.ring| <= cfg.ringSize && QueueConserved(v)
    ensures QueueConserved(Publishing(v, topic, payload, qos, retain, cfg))
    ensures QueueConserved(Subscribing(v, topic, cfg))
  {
    hide QueueConserved, PublishPacket, SubscribePacket, PutDropping;
    forall id
      ensures QueueConserved(v.(messageId := id))
      ensures QueueConserved(PutDropping(v.(messageId := id), PublishPacket(topic, payload, qos, retain, id), cfg))
      ensures QueueConserved(PutDropping(v.(messageId := id), SubscribePacket(topic, id), cfg))
    {
      PublishFits(topic, payload, qos, retain, id);
      SubscribeFits(topic, id);
      QueueingConserves(v, PublishPacket(topic, payload, qos, retain, id), id, cfg);
      QueueingConserves(v, SubscribePacket(topic, id), id, cfg);
    }
    assert v.(messageId := v.messageId) == v;
  }

  lemma TickedConserves(v: View, ok: bool, cfg: Config)
    requires QueueConserved(v)
    ensures QueueConserved(Ticked(v, ok, cfg))
  {
    hide QueueConserved;
    var pinged := Logged(v, Sent(PING, Ping, v.hasConn && ok));
    OtherOutput(v, Sent(PING, Ping, v.hasConn && ok));
    SameQueueAsOneOf(v, pinged, pinged, Ticked(v, ok, cfg));
  }

  lemma GreetedConserves(v: View, segment: seq<byte>)
    requires |v.inBuffer| == BUF && QueueConserved(v)
    ensures QueueConserved(Greeted(v, segment))
  {
    hide QueueConserved, Overlaid, GetType;
    OtherOutput(v, Accepted);
    OtherOutput(v, Dropped);
    SameQueueAsOneOf(v, Logged(v, Accepted), Logged(v, Dropped), Greeted(v, segment));
  }

  lemma ConnectedConserves(v: View, e: Event, cfg: Config)
    requires Legal(v, cfg) && Enabled(v, e) && e.ConnectCb? && QueueConserved(v)
    ensures QueueConserved(Step(v, e, cfg))
  {
    hide QueueConserved, ConnectPacket, GetType, Legal;
    var sent := Sent(ConnectPacket(cfg), Source.Greeting, v.hasConn && e.ok);
    OtherOutput(v, Opened);
    OtherOutput(Logged(v, Opened), sent);
    assert v.log + [Opened, sent] == v.log + [Opened] + [sent];
    SameQueue(Logged(Logged(v, Opened), sent), Step(v, e, cfg));
  }

  lemma StepConserves(v: View, e: Event, cfg: Config)
    requires Legal(v, cfg) && Enabled(v, e) && QueueConserved(v)
    ensures QueueConserved(Step(v, e, cfg))
  {
    hide QueueConserved, Framing.WellFormed, Receiving, Publishing, Subscribing, Transmitting, Ticked, Greeted;
    hide ConnectPacket, Overlaid, Settles, GetType;
    match e {
      case ConnectCb(_, _) => ConnectedConserves(v, e, cfg);
      case Recv(segment) =>
        if v.connState == MQTT_DATA {
          ReceivingConserves(v, segment, cfg);
        } else {
          GreetedConserves(v, segment);
          if v.connState != MQTT_CONNECT_SENDING {
            SameQueue(v, Step(v, e, cfg));
          }
        }
      case Tick(ok) => TickedConserves(v, ok, cfg);
      case Task(stale, ok) =>
        TransmittingConserves(v, stale, ok);
        SameQueue(v, Connecting(v));
      case Publish(topic, payload, qos, retain) => PublishingConserves(v, topic, payload, qos, retain, cfg);
      case Subscribe(topic) => PublishingConserves(v, topic, [], 0, 0, cfg);
      case _ => SameQueue(v, Step(v, e, cfg));
    }
  }

  lemma PublishFits(topic: seq<byte>, payload: seq<byte>, qos: int, retain: int, id: uint16)
    ensures |PublishPacket(topic, payload, qos, retain, id)| <= BUF
  {
    BuiltFits(Flags(PUBLISH, 0, qos, retain), Msg.PublishParts(topic, qos, id, payload));
  }

  lemma SubscribeFits(topic: seq<byte>, id: uint16)
    ensures |SubscribePacket(topic, id)| <= BUF
  {
    BuiltFits(Flags(SUBSCRIBE, 0, 1, 0), Msg.SubscribeParts(id, topic, 0));
  }

  /** For a topic that has no SUBSCRIBE, or none that fits, MQTT_Subscribe queues an empty
      packet, and returns TRUE where even that fits. */
  lemma UnfitSubscribeQueuesNothing(v: View, topic: seq<byte>, cfg: Config)
    requires |v.ring| <= cfg.ringSize && !Subscribable(topic)
    ensures Subscribing(v, topic, cfg).accepted
         == if PacketQueue.Dropping(v.ring, [], cfg.ringSize).1 then v.accepted + [[]] else v.accepted
    ensures cfg.ringSize >= 2 && v.ring == [] ==> PacketQueue.Dropping(v.ring, [], cfg.ringSize).1
  {
    hide PacketQueue.Dropping, SubscribePacket, Discard, PacketQueue.Dropped, Framing.Decode;
    var v1 := if topic == [] then v else v.(messageId := Msg.FreshId(v.messageId));
    SubscribableIff(topic, v1.messageId);
    PacketQueue.LastRound(v.ring, [], cfg.ringSize);
    assert Framing.Stuffed([]) == [];
  }

  lemma NothingQueued(v: View)
    requires v.ring == [] && v.log == [] && v.accepted == [] && v.taken == []
    ensures QueueConserved(v)
  {
    NothingDecoded();
  }

  /** Over every run, each accepted packet is transmitted, lost or discarded at most once, in
      order, and otherwise still queued; the first two are what the log shows. */
  lemma {:induction false} PacketsAreConserved(vs: seq<View>, es: seq<Event>, cfg: Config, n: nat)
    requires IsRun(vs, es, cfg) && Initial(vs[0], cfg) && n < |vs|
    ensures QueueConserved(vs[n])
  {
    hide Step, Legal, Enabled, IsRun, QueueConserved;
    if n == 0 {
      NothingQueued(vs[0]);
    } else {
      PacketsAreConserved(vs, es, cfg, n - 1);
      RunStep(vs, es, cfg, n - 1);
      StepConserves(vs[n - 1], es[n - 1], cfg);
    }
  }

  // ----- pacing

  /** MQTT_Task takes a packet from the queue and sends it. */
  predicate Transmits(v: View, e: Event) {
    e.Task? && v.connState == MQTT_DATA && v.sendTimeout == 0 && Framing.END in v.ring
  }

  ghost predicate TimersSane(v: View, cfg: Config) {
    && v.sendTimeout <= MQTT_SEND_TIMEOUT
    && v.keepAliveTick <= cfg.info.keepalive
    && v.reconnectTick <= MQTT_RECONNECT_TIMEOUT
  }

  /** How one step moves the timers. */
  lemma StepTimers(v: View, e: Event, cfg: Config)
    requires Legal(v, cfg) && Enabled(v, e) && TimersSane(v, cfg)
    ensures TimersSane(Step(v, e, cfg), cfg)
    ensures !e.SentCb? ==> Step(v, e, cfg).sendTimeout >= v.sendTimeout - (if e.Tick? then 1 else 0)
    ensures Transmits(v, e) ==> Step(v, e, cfg).sendTimeout == MQTT_SEND_TIMEOUT
  {
    hide Framing.WellFormed, Receiving, Publishing, Subscribing, ConnectPacket, Overlaid, Settles, GetType;
    hide Proto.Truncated, Framing.FirstPacket, Framing.AfterFirstEnd;
    match e {
      case Recv(segment) =>
        if v.connState == MQTT_DATA {
          ReceivingFrame(v, segment, cfg);
        }
      case Publish(topic, payload, qos, retain) =>
        QueueingKeeps(v, topic, payload, qos, retain, cfg);
      case Subscribe(topic) =>
        QueueingKeeps(v, topic, [], 0, 0, cfg);
      case _ =>
    }
  }

  lemma {:induction false} TimersStaySane(vs: seq<View>, es: seq<Event>, cfg: Config, n: nat)
    requires IsRun(vs, es, cfg) && Initial(vs[0], cfg) && n < |vs|
    ensures TimersSane(vs[n], cfg)
  {
    if n > 0 {
      hide *;
      TimersStaySane(vs, es, cfg, n - 1);
      RunStep(vs, es, cfg, n - 1);
      StepTimers(vs[n - 1], es[n - 1], cfg);
    }
  }

  lemma {:induction false} TimeoutRunsDown(vs: seq<View>, es: seq<Event>, cfg: Config, i: nat, n: nat)
    requires IsRun(vs, es, cfg) && Initial(vs[0], cfg) && i < n < |vs| && Transmits(vs[i], es[i])
    requires forall k :: i < k < n ==> !es[k].SentCb?
    ensures vs[n].sendTimeout + Ticks(es[i + 1..n]) >= MQTT_SEND_TIMEOUT
    decreases n
  {
    hide Step, Legal, Enabled, IsRun, Initial, Transmits;
    TimersStaySane(vs, es, cfg, n - 1);
    RunStep(vs, es, cfg, n - 1);
    StepTimers(vs[n - 1], es[n - 1], cfg);
    if n > i + 1 {
      TimeoutRunsDown(vs, es, cfg, i, n - 1);
      assert es[i + 1..n][..n - i - 2] == es[i + 1..n - 1];
    }
  }

  /** Between two transmissions from the queue the sent callback ran or five ticks passed. */
  lemma QueueSendsArePaced(vs: seq<View>, es: seq<Event>, cfg: Config, i: nat, j: nat)
    requires IsRun(vs, es, cfg) && Initial(vs[0], cfg) && i < j < |es|
    requires Transmits(vs[i], es[i]) && Transmits(vs[j], es[j])
    ensures (exists k :: i < k < j && es[k].SentCb?) || Ticks(es[i + 1..j]) >= 5
  {
    if forall k :: i < k < j ==> !es[k].SentCb? {
      TimeoutRunsDown(vs, es, cfg, i, j);
    }
  }

  function Pings(log: seq<Output>): nat {
    if log == [] then 0
    else Pings(log[..|log| - 1]) + if log[|log| - 1].Sent? && log[|log| - 1].source == Ping then 1 else 0
  }

  lemma PingsAppended(log: seq<Output>, o: Output)
    ensures Pings(log + [o]) == Pings(log) + if o.Sent? && o.source == Ping then 1 else 0
  {
    assert (log + [o])[..|log|] == log;
  }

  lemma {:induction false} ReceivingPings(v: View, segment: seq<byte>, cfg: Config)
    requires Legal(v, cfg) && Settles(v.inBuffer, segment)
    ensures Pings(Receiving(v, segment, cfg).log) == Pings(v.log)
    decreases |segment|
  {
    hide Pings, Framing.WellFormed, Handled, Overlaid;
    if 0 < |segment| < BUF {
      var v0 := v.(inBuffer := Overlaid(v.inBuffer, segment));
      HandledLegal(v0, |segment|, cfg);
      HandledFrame(v0, |segment|, cfg);
      PingsAppended(v.log, Delivery(v0.inBuffer, |segment|));
      match Next(v.inBuffer, segment) {
        case None =>
        case Some(total) => ReceivingPings(Handled(v0, |segment|, cfg), segment[total..], cfg);
      }
    }
  }

  /** A step that stays in MQTT_DATA advances the keep-alive count exactly on a tick, and
      pings exactly when the count passes the limit. */
  lemma StepPings(v: View, e: Event, cfg: Config)
    requires Legal(v, cfg) && Enabled(v, e)
    requires v.keepAliveTick <= cfg.info.keepalive < TICK_WRAP - 1
    requires v.connState == MQTT_DATA && Step(v, e, cfg).connState == MQTT_DATA
    ensures var (v', t) := (Step(v, e, cfg), if e.Tick? then 1 else 0);
            v'.keepAliveTick + (cfg.info.keepalive + 1) * (Pings(v'.log) - Pings(v.log)) == v.keepAliveTick + t
            && v'.keepAliveTick <= cfg.info.keepalive
  {
    hide Pings, Framing.WellFormed, Receiving, Publishing, Subscribing, ConnectPacket, Overlaid, Settles, GetType;
    hide Proto.Truncated, Framing.FirstPacket, Framing.AfterFirstEnd;
    match e {
      case Recv(segment) =>
        ReceivingFrame(v, segment, cfg);
        ReceivingPings(v, segment, cfg);
      case Publish(topic, payload, qos, retain) =>
        QueueingKeeps(v, topic, payload, qos, retain, cfg);
      case Subscribe(topic) =>
        QueueingKeeps(v, topic, [], 0, 0, cfg);
      case Tick(ok) =>
        PingsAppended(v.log, Sent(PING, Ping, v.hasConn && ok));
      case Task(_, ok) =>
        if Framing.END in v.ring {
          PingsAppended(v.log, Sent(Proto.Truncated(Framing.FirstPacket(v.ring), BUF), FromQueue, v.hasConn && ok));
        }
      case _ =>
    }
  }

  /** While the client stays in MQTT_DATA, the pings sent and the count reached are the
      quotient and remainder of the ticks by keepalive + 1. */
  lemma {:induction false} PingsArePeriodic(vs: seq<View>, es: seq<Event>, cfg: Config, n: nat)
    requires IsRun(vs, es, cfg) && n < |vs|
    requires vs[0].keepAliveTick <= cfg.info.keepalive < TICK_WRAP - 1
    requires forall k :: 0 <= k <= n ==> vs[k].connState == MQTT_DATA
    ensures Pings(vs[n].log) - Pings(vs[0].log) == (vs[0].keepAliveTick + Ticks(es[..n])) / (cfg.info.keepalive + 1)
    ensures vs[n].keepAliveTick == (vs[0].keepAliveTick + Ticks(es[..n])) % (cfg.info.keepalive + 1)
  {
    hide *;
    RunShape(vs, es, cfg);
    PingBalance(vs, es, cfg, n);
    QuotientAndRemainder(vs[0].keepAliveTick + Ticks(es[..n]), cfg.info.keepalive + 1,
                         Pings(vs[n].log) - Pings(vs[0].log), vs[n].keepAliveTick);
  }

  /** A tick is a second. The keep-alive that a server reads off the CONNECT is always shorter
      than the time between pings, though 0 asks for none (section 3.1.2.10 of MQTT 3.1.1). The
      pings come within one and a half times that keep-alive, after which the server closes the
      connection, exactly for keep-alives from 2 to 65535. */
  lemma PingsComeLate(info: ConnectInfo)
    requires |info.clientId| < 0x1_0000 && |info.willTopic| < 0x1_0000
    requires info.willTopic != [] ==> |info.willMessage| < 0x1_0000
    requires |info.username| < 0x1_0000 && |info.password| < 0x1_0000
    ensures ReadConnect(ConnectBody(info)).Some?
    ensures var (announced, period) := (ReadConnect(ConnectBody(info)).value.keepalive, info.keepalive + 1);
            && announced < period
            && (announced == 0 <==> info.keepalive % 0x1_0000 == 0)
            && (2 * period <= 3 * announced <==> 2 <= info.keepalive < 0x1_0000)
  {
    hide ReadConnect, ConnectBody;
    ConnectRoundTrip(info);
  }

  lemma QuotientAndRemainder(total: nat, d: nat, q: int, r: nat)
    requires d > 0 && r < d && r + d * q == total
    ensures q == total / d && r == total % d
  {
    var k := total / d - q;
    assert d * (total / d) - d * q == d * k;
    if k >= 1 {
      AtLeast(d, k);
    } else if k <= -1 {
      AtLeast(d, -k);
    }
  }

  lemma AtLeast(d: nat, k: int)
    requires k >= 1
    ensures d * k >= d
  {
  }

  lemma {:induction false} PingBalance(vs: seq<View>, es: seq<Event>, cfg: Config, n: nat)
    requires IsRun(vs, es, cfg) && n < |vs|
    requires vs[0].keepAliveTick <= cfg.info.keepalive < TICK_WRAP - 1
    requires forall k :: 0 <= k <= n ==> vs[k].connState == MQTT_DATA
    ensures vs[n].keepAliveTick + (cfg.info.keepalive + 1) * (Pings(vs[n].log) - Pings(vs[0].log))
         == vs[0].keepAliveTick + Ticks(es[..n])
    ensures vs[n].keepAliveTick <= cfg.info.keepalive
  {
    hide Step, Legal, Enabled, IsRun, StepsTo, Pings;
    RunShape(vs, es, cfg);
    if n > 0 {
      PingBalance(vs, es, cfg, n - 1);
      RunStep(vs, es, cfg, n - 1);
      StepPings(vs[n - 1], es[n - 1], cfg);
      assert es[..n][..n - 1] == es[..n - 1];
      var before := Pings(vs[n - 1].log);
      Distribute(cfg.info.keepalive + 1, Pings(vs[n].log) - before, before - Pings(vs[0].log));
    }
  }

  lemma Distribute(d: int, a: int, b: int)
    ensures d * (a + b) == d * a + d * b
  {
  }

  /** A reconnect request is over by its sixth tick: no run stays in it that long. */
  lemma {:induction false} ReconnectIsPrompt(vs: seq<View>, es: seq<Event>, cfg: Config, m: nat, n: nat)
    requires IsRun(vs, es, cfg) && Initial(vs[0], cfg) && m <= n < |vs|
    requires forall k :: m <= k <= n ==> vs[k].connState == TCP_RECONNECT_REQ
    ensures vs[n].reconnectTick == vs[m].reconnectTick + Ticks(es[m..n])
    ensures Ticks(es[m..n]) <= 5
    decreases n
  {
    hide Step, Legal, Enabled, IsRun, Initial;
    RunShape(vs, es, cfg);
    TimersStaySane(vs, es, cfg, n);
    if n > m {
      ReconnectIsPrompt(vs, es, cfg, m, n - 1);
      assert es[m..n][..n - 1 - m] == es[m..n - 1];
      RunStep(vs, es, cfg, n - 1);
      TimersStaySane(vs, es, cfg, n - 1);
      StepReconnects(vs[n - 1], es[n - 1], cfg);
    }
  }

  lemma StepReconnects(v: View, e: Event, cfg: Config)
    requires Legal(v, cfg) && Enabled(v, e) && v.connState == TCP_RECONNECT_REQ && v.reconnectTick <= 5
    ensures var v' := Step(v, e, cfg);
            && (v'.connState == TCP_RECONNECT_REQ ==> v'.reconnectTick == v.reconnectTick + if e.Tick? then 1 else 0)
            && (e.Tick? && v.reconnectTick == 5 ==> v'.connState == TCP_RECONNECT)
  {
    hide Framing.WellFormed, Publishing, Subscribing, ConnectPacket, Overlaid, GetType;
    match e {
      case Publish(topic, payload, qos, retain) =>
        QueueingKeeps(v, topic, payload, qos, retain, cfg);
      case Subscribe(topic) =>
        QueueingKeeps(v, topic, [], 0, 0, cfg);
      case _ =>
    }
  }
}
