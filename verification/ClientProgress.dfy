/** When a packet in the MQTT client's queue waits for nothing: the posts of the client to
    MQTT_Task, whose event queue has room for one, and the callbacks that are to come. */
module ClientProgress {
  import opened Octets
  import opened ClientSpec
  import opened ClientRuns
  import Framing
  import Msg = MqttMsg
  import PacketQueue

  /** `pending` is a posted run of MQTT_Task; `awaited` counts accepted sends not called back. */
  datatype Live = Live(view: View, pending: bool, awaited: nat)

  /** The connection accepts a send of this step. */
  predicate Reaches(v: View, e: Event, cfg: Config) {
    match e
    case ConnectCb(_, ok) => v.hasConn && ok
    case Tick(ok) => PingDue(v, cfg) && v.hasConn && ok
    case Task(_, ok) => Transmits(v, e) && v.hasConn && ok
    case _ => false
  }

  /** The connection of the sends that were accepted is gone. */
  predicate Forgets(v: View, e: Event) {
    e.Connect? || e.Disconnect? || e.DisconCb? || e.ReconCb? || (e.Task? && v.connState == TCP_RECONNECT)
  }

  ghost predicate LiveEnabled(l: Live, e: Event)
    requires |l.view.inBuffer| == BUF
  {
    Enabled(l.view, e) && (e.Task? ==> l.pending) && (e.SentCb? ==> l.awaited > 0)
  }

  ghost function LiveStep(l: Live, e: Event, cfg: Config): Live
    requires Legal(l.view, cfg) && LiveEnabled(l, e)
  {
    var awaited := if Forgets(l.view, e) then 0 else if e.SentCb? then l.awaited - 1 else l.awaited;
    Live(Step(l.view, e, cfg), if e.Task? then false else l.pending || Posts(l.view, e, cfg),
         if Reaches(l.view, e, cfg) then awaited + 1 else awaited)
  }

  /** While the client is connected and a packet is queued, MQTT_Task is to run or a callback
      to come, which posts it. */
  ghost predicate Awake(l: Live) {
    l.view.connState == MQTT_DATA && Framing.END in l.view.ring ==> l.pending || l.awaited > 0
  }

  /** With no callback to come, MQTT_Task runs while it still waits for one, or more packets
      are queued than the one just refused; or the client is disconnected. */
  predicate Sleeps(l: Live, e: Event) {
    var v := l.view;
    v.connState == MQTT_DATA && Framing.END in v.ring
    && match e
       case Task(_, ok) =>
         l.awaited == 0
         && (v.sendTimeout != 0 || (Framing.END in Framing.AfterFirstEnd(v.ring) && !(v.hasConn && ok)))
       case Disconnect => !l.pending
       case _ => false
  }

  // ----- what the steps do to the queue

  lemma DroppingPosts(v: View, packet: seq<byte>, cfg: Config)
    requires |v.ring| <= cfg.ringSize
    ensures var w := PutDropping(v, packet, cfg);
            if PacketQueue.Dropping(v.ring, packet, cfg.ringSize).1 then w.accepted == v.accepted + [packet]
            else w.accepted == v.accepted && w.ring == []
    ensures PutDropping(v, packet, cfg).connState == v.connState
  {
    hide PacketQueue.Dropping, PacketQueue.Dropped, Discard, Framing.Decode;
    PacketQueue.DroppingOutcome(v.ring, packet, cfg.ringSize);
  }

  /** A call that does not post leaves the queue as it was or empty. */
  lemma CallPosts(v: View, topic: seq<byte>, payload: seq<byte>, qos: int, retain: int, cfg: Config)
    requires |v.ring| <= cfg.ringSize
    ensures var p := Publishing(v, topic, payload, qos, retain, cfg);
            p.connState == v.connState && (|p.accepted| > |v.accepted| || p.ring == v.ring || p.ring == [])
    ensures var s := Subscribing(v, topic, cfg);
            s.connState == v.connState && (|s.accepted| > |v.accepted| || s.ring == v.ring || s.ring == [])
  {
    hide PutDropping, PublishPacket, SubscribePacket, PacketQueue.Dropping;
    var next := v.(messageId := Msg.FreshId(v.messageId));
    var v1 := if qos > 0 && 0 < |topic| <= BUF - 5 then next else v;
    var v2 := if topic == [] then v else next;
    DroppingPosts(v1, PublishPacket(topic, payload, qos, retain, v1.messageId), cfg);
    DroppingPosts(v2, SubscribePacket(topic, v2.messageId), cfg);
  }

  lemma TickKeepsQueue(v: View, ok: bool, cfg: Config)
    ensures Ticked(v, ok, cfg).ring == v.ring
    ensures Ticked(v, ok, cfg).connState == MQTT_DATA <==> v.connState == MQTT_DATA
  {
  }

  lemma TaskTakes(v: View, stale: byte, ok: bool)
    ensures var w := Transmitting(v, stale, ok);
            && w.connState == v.connState
            && (Framing.END in w.ring <==>
                  Framing.END in v.ring && (v.sendTimeout != 0 || Framing.END in Framing.AfterFirstEnd(v.ring)))
  {
    hide Framing.FirstPacket, Framing.FirstEnd;
  }

  // ----- falling asleep and waking up

  /** Exactly which events leave a queued packet waiting for nothing. */
  lemma FallsAsleepIff(l: Live, e: Event, cfg: Config)
    requires Legal(l.view, cfg) && LiveEnabled(l, e) && Awake(l)
    ensures Awake(LiveStep(l, e, cfg)) <==> !Sleeps(l, e)
  {
    hide Framing.WellFormed, Framing.AfterFirstEnd, Transmitting, Ticked, Publishing, Subscribing, Receiving, Greeted;
    hide ConnectPacket, Overlaid, Settles, MqttWire.GetType;
    match e {
      case Tick(ok) => TickKeepsQueue(l.view, ok, cfg);
      case Task(stale, ok) => TaskTakes(l.view, stale, ok);
      case Publish(topic, payload, qos, retain) => CallPosts(l.view, topic, payload, qos, retain, cfg);
      case Subscribe(topic) => CallPosts(l.view, topic, [], 0, 0, cfg);
      case _ =>
    }
  }

  /** Asleep, the client sends nothing off its queue until a ping is due, a segment or a callback
      comes, a call queues a packet or empties the queue, or the client connects anew. */
  lemma AsleepUntil(l: Live, e: Event, cfg: Config)
    requires Legal(l.view, cfg) && LiveEnabled(l, e) && !Awake(l)
    ensures !e.Task? && !e.SentCb?
    ensures Awake(LiveStep(l, e, cfg))
       <==> match e
            case Tick(_) => (l.view.keepAliveTick + 1) % 0x1_0000_0000 > cfg.info.keepalive
            case Publish(_, _, _, _) =>
              |Step(l.view, e, cfg).accepted| > |l.view.accepted| || Step(l.view, e, cfg).ring == []
            case Subscribe(_) => |Step(l.view, e, cfg).accepted| > |l.view.accepted| || Step(l.view, e, cfg).ring == []
            case Disconnect => false
            case _ => true
  {
    hide Framing.WellFormed, Framing.AfterFirstEnd, Transmitting, Ticked, Publishing, Subscribing, Receiving, Greeted;
    hide ConnectPacket, Overlaid, Settles, MqttWire.GetType;
    match e {
      case Tick(ok) => TickKeepsQueue(l.view, ok, cfg);
      case Publish(topic, payload, qos, retain) => CallPosts(l.view, topic, payload, qos, retain, cfg);
      case Subscribe(topic) => CallPosts(l.view, topic, [], 0, 0, cfg);
      case _ =>
    }
  }

  // ----- runs

  ghost predicate IsLiveRun(ls: seq<Live>, es: seq<Event>, cfg: Config) {
    && |ls| == |es| + 1
    && Initial(ls[0].view, cfg)
    && forall i :: 0 <= i < |es| ==> LiveStepsTo(ls[i], es[i], ls[i + 1], cfg)
  }

  ghost predicate LiveStepsTo(l: Live, e: Event, l': Live, cfg: Config) {
    Legal(l.view, cfg) && LiveEnabled(l, e) && l' == LiveStep(l, e, cfg)
  }

  /** Over every run, a queued packet always has a task run or a callback on its way exactly
      if no event puts the client to sleep. */
  lemma {:induction false} ProgressIff(ls: seq<Live>, es: seq<Event>, cfg: Config, n: nat)
    requires IsLiveRun(ls, es, cfg) && n < |ls|
    ensures |ls| == |es| + 1
    ensures (forall i :: 0 <= i <= n ==> Awake(ls[i])) <==> (forall i :: 0 <= i < n ==> !Sleeps(ls[i], es[i]))
  {
    hide LiveStep, Legal, LiveEnabled, Sleeps;
    if n > 0 {
      ProgressIff(ls, es, cfg, n - 1);
      assert LiveStepsTo(ls[n - 1], es[n - 1], ls[n], cfg);
      hide Awake;
      if Awake(ls[n - 1]) {
        FallsAsleepIff(ls[n - 1], es[n - 1], cfg);
      }
    }
  }
}
