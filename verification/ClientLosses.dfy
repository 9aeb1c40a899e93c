/** When the MQTT client takes packets off its queue and sends them on no connection. */
module ClientLosses {
  import opened Octets
  import opened ClientSpec
  import opened ClientRuns
  import Framing
  import Msg = MqttMsg
  import PacketQueue

  /** MQTT_Connect runs: on a call or, for a due reconnect, from MQTT_Task. */
  predicate Connects(v: View, e: Event) {
    e.Connect? || (e.Task? && v.connState == TCP_RECONNECT)
  }

  /** MQTT_Disconnect was called before event `i` of a run, and nothing connected since. */
  ghost predicate Abandoned(vs: seq<View>, es: seq<Event>, i: nat)
    requires i <= |es| < |vs|
  {
    exists j :: 0 <= j < i && AbandonedAt(vs, es, j, i)
  }

  ghost predicate AbandonedAt(vs: seq<View>, es: seq<Event>, j: nat, i: nat)
    requires j < i <= |es| < |vs|
  {
    es[j].Disconnect? && forall k :: j < k < i ==> !Connects(vs[k], es[k])
  }

  lemma StepConnection(v: View, e: Event, cfg: Config)
    requires Legal(v, cfg) && Enabled(v, e)
    ensures Step(v, e, cfg).hasConn == if Connects(v, e) then true else if e.Disconnect? then false else v.hasConn
    ensures v.connState == WIFI_INIT && !v.hasConn && !Connects(v, e) ==> Step(v, e, cfg).connState == WIFI_INIT
  {
    hide Legal, Receiving, PublishPacket, SubscribePacket, ConnectPacket, Overlaid, MqttWire.GetType;
    if e.Recv? && v.connState == MQTT_DATA {
      ReceivingFrame(v, e.segment, cfg);
    }
  }

  /** Nothing connected before event `i` of a run. */
  ghost predicate NeverConnected(vs: seq<View>, es: seq<Event>, i: nat)
    requires i <= |es| < |vs|
  {
    forall k :: 0 <= k < i ==> !Connects(vs[k], es[k])
  }

  /** There is no connection object exactly if the client was abandoned or never connected. */
  lemma {:induction false} ConnectionIff(vs: seq<View>, es: seq<Event>, cfg: Config, i: nat)
    requires IsRun(vs, es, cfg) && Initial(vs[0], cfg) && i < |vs|
    ensures |vs| == |es| + 1
    ensures !vs[i].hasConn <==> Abandoned(vs, es, i) || NeverConnected(vs, es, i)
    ensures NeverConnected(vs, es, i) ==> vs[i].connState == WIFI_INIT
  {
    hide Step, Legal, Enabled, IsRun, Abandoned;
    RunShape(vs, es, cfg);
    if i == 0 {
      NotYetAbandoned(vs, es);
    } else {
      ConnectionIff(vs, es, cfg, i - 1);
      RunStep(vs, es, cfg, i - 1);
      StepConnection(vs[i - 1], es[i - 1], cfg);
      AbandonedStep(vs, es, i - 1);
      assert NeverConnected(vs, es, i) <==> NeverConnected(vs, es, i - 1) && !Connects(vs[i - 1], es[i - 1]);
    }
  }

  lemma NotYetAbandoned(vs: seq<View>, es: seq<Event>)
    requires |es| < |vs|
    ensures !Abandoned(vs, es, 0)
  {
  }

  lemma AbandonedStep(vs: seq<View>, es: seq<Event>, i: nat)
    requires i < |es| < |vs|
    ensures Abandoned(vs, es, i + 1) <==> es[i].Disconnect? || (Abandoned(vs, es, i) && !Connects(vs[i], es[i]))
  {
    if Abandoned(vs, es, i + 1) {
      var j :| 0 <= j < i + 1 && AbandonedAt(vs, es, j, i + 1);
      assert j < i ==> AbandonedAt(vs, es, j, i);
    }
    if es[i].Disconnect? {
      assert AbandonedAt(vs, es, i, i + 1);
    } else if Abandoned(vs, es, i) && !Connects(vs[i], es[i]) {
      var j :| 0 <= j < i && AbandonedAt(vs, es, j, i);
      assert AbandonedAt(vs, es, j, i + 1);
    }
  }

  lemma DroppingLosesNothing(v: View, packet: seq<byte>, cfg: Config)
    requires |v.ring| <= cfg.ringSize
    ensures TakenBy(PutDropping(v, packet, cfg).taken, false) == TakenBy(v.taken, false)
  {
    hide TakenBy, Discard, Framing.Decode, PacketQueue.Dropping, PacketQueue.Dropped;
    var before := Framing.Decode(v.ring);
    var (_, ok) := PacketQueue.Dropping(v.ring, packet, cfg.ringSize);
    var k := if ok then PacketQueue.Dropped(v.ring, packet, cfg.ringSize) else |before|;
    DiscardedAreNotSent(v.taken, before[..if k <= |before| then k else |before|]);
  }

  lemma QueueingLosesNothing(v: View, topic: seq<byte>, payload: seq<byte>, qos: int, retain: int, cfg: Config)
    requires |v.ring| <= cfg.ringSize
    ensures TakenBy(Publishing(v, topic, payload, qos, retain, cfg).taken, false) == TakenBy(v.taken, false)
    ensures TakenBy(Subscribing(v, topic, cfg).taken, false) == TakenBy(v.taken, false)
  {
    hide TakenBy, PutDropping, PublishPacket, SubscribePacket;
    var fresh' := v.(messageId := Msg.FreshId(v.messageId));
    var v1 := if qos > 0 && 0 < |topic| <= BUF - 5 then fresh' else v;
    var v2 := if topic == [] then v else fresh';
    DroppingLosesNothing(v1, PublishPacket(topic, payload, qos, retain, v1.messageId), cfg);
    DroppingLosesNothing(v2, SubscribePacket(topic, v2.messageId), cfg);
  }

  /** MQTT_Task loses the packet it takes exactly if there is no connection or it refuses. */
  lemma TransmittingLoses(v: View, stale: byte, ok: bool)
    ensures TakenBy(Transmitting(v, stale, ok).taken, false) == TakenBy(v.taken, false)
            + if Framing.END in v.ring && v.sendTimeout == 0 && !(v.hasConn && ok)
              then [Framing.FirstPacket(v.ring)] else []
  {
    hide TakenBy, MqttWire.GetType, Framing.FirstPacket, Framing.AfterFirstEnd;
    if Framing.END in v.ring {
      SendLogged(v.log, v.taken, Framing.FirstPacket(v.ring), v.hasConn && ok);
    }
  }

  /** One step loses a packet exactly if MQTT_Task takes one without a connection, or the
      connection refuses it. */
  lemma StepLoses(v: View, e: Event, cfg: Config)
    requires Legal(v, cfg) && Enabled(v, e)
    ensures TakenBy(Step(v, e, cfg).taken, false) == TakenBy(v.taken, false)
            + if Transmits(v, e) && !(v.hasConn && e.ok) then [Framing.FirstPacket(v.ring)] else []
  {
    hide Framing.WellFormed, Receiving, Publishing, Subscribing, Transmitting, TakenBy, ConnectPacket, Overlaid;
    hide MqttWire.GetType, Framing.FirstPacket, Framing.AfterFirstEnd;
    assert TakenBy(v.taken, false) + [] == TakenBy(v.taken, false);
    match e {
      case Recv(segment) =>
        if v.connState == MQTT_DATA {
          ReceivingFrame(v, segment, cfg);
        }
      case Task(stale, ok) => TransmittingLoses(v, stale, ok);
      case Publish(topic, payload, qos, retain) => QueueingLosesNothing(v, topic, payload, qos, retain, cfg);
      case Subscribe(topic) => QueueingLosesNothing(v, topic, [], 0, 0, cfg);
      case _ =>
    }
  }

  /** No packet that leaves the queue is lost exactly if MQTT_Task never sends one between a
      call of MQTT_Disconnect and the next connect, and the connection refuses none. */
  lemma {:induction false} NothingIsLostIff(vs: seq<View>, es: seq<Event>, cfg: Config, n: nat)
    requires IsRun(vs, es, cfg) && Initial(vs[0], cfg) && n < |vs|
    ensures |vs| == |es| + 1 && QueueSends(vs[n].log, false) == TakenBy(vs[n].taken, false)
    ensures TakenBy(vs[n].taken, false) == []
       <==> forall i :: 0 <= i < n && Transmits(vs[i], es[i]) ==> !Abandoned(vs, es, i) && es[i].ok
  {
    hide Step, Legal, Enabled, IsRun, TakenBy, QueueSends, Abandoned, NeverConnected, QueueConserved;
    RunShape(vs, es, cfg);
    SendsBooked(vs, es, cfg, n);
    if n == 0 {
      NothingTaken(vs[0], cfg);
    } else {
      var v, e := vs[n - 1], es[n - 1];
      NothingIsLostIff(vs, es, cfg, n - 1);
      RunStep(vs, es, cfg, n - 1);
      StepLoses(v, e, cfg);
      ConnectionIff(vs, es, cfg, n - 1);
    }
  }

  lemma SendsBooked(vs: seq<View>, es: seq<Event>, cfg: Config, n: nat)
    requires IsRun(vs, es, cfg) && Initial(vs[0], cfg) && n < |vs|
    ensures QueueSends(vs[n].log, false) == TakenBy(vs[n].taken, false)
  {
    hide IsRun, Initial, QueueSends, TakenBy;
    PacketsAreConserved(vs, es, cfg, n);
  }

  lemma NothingTaken(v: View, cfg: Config)
    requires Initial(v, cfg)
    ensures TakenBy(v.taken, false) == []
  {
  }

  /** It happens: with a packet queued, MQTT_Disconnect is called and MQTT_Task runs. */
  lemma PacketLost(v: View, stale: byte, ok: bool, cfg: Config)
    requires Legal(v, cfg) && v.connState == MQTT_DATA && v.sendTimeout == 0 && Framing.END in v.ring
    ensures var v1 := Step(v, Event.Disconnect, cfg);
            && Legal(v1, cfg) && Enabled(v1, Event.Task(stale, ok))
            && TakenBy(Step(v1, Event.Task(stale, ok), cfg).taken, false)
            == TakenBy(v.taken, false) + [Framing.FirstPacket(v.ring)]
  {
    hide Framing.FirstPacket, TakenBy, Framing.AfterFirstEnd, Framing.WellFormed;
    StepLoses(Step(v, Event.Disconnect, cfg), Event.Task(stale, ok), cfg);
  }

  /** Sends overlap, so that the connection has reason to refuse one: a ping is sent while the
      callback of another send is awaited. */
  lemma PingIgnoresTimeout(v: View, ok: bool, cfg: Config)
    requires Legal(v, cfg) && v.connState == MQTT_DATA && v.armed && v.hasConn
    requires v.sendTimeout > 0 && v.keepAliveTick == cfg.info.keepalive < TICK_WRAP - 1
    ensures Step(v, Tick(ok), cfg).log == v.log + [Sent(PING, Ping, ok)]
  {
  }
}
