/** When the MQTT client sends what is queued, and how it gets a lost connection back, over
    whole runs. */
module ClientTimers {
  import opened Octets
  import opened MqttWire
  import opened ClientSpec
  import opened ClientRuns
  import Framing
  import Proto
  import PacketQueue

  // ----- the next packet goes out

  /** The step hands a packet to the connection. */
  predicate Sends(v: View, e: Event, cfg: Config) {
    e.ConnectCb? || Transmits(v, e) || (e.Tick? && PingDue(v, cfg))
  }

  lemma StepTimeout(v: View, e: Event, cfg: Config)
    requires Legal(v, cfg) && Enabled(v, e)
    ensures var before := if Sends(v, e, cfg) then 5 else v.sendTimeout;
            Step(v, e, cfg).sendTimeout
            == if e.SentCb? || (e.Tick? && before == 0) then 0 else if e.Tick? then before - 1 else before
  {
    hide Framing.WellFormed, Receiving, Publishing, Subscribing, ConnectPacket, Overlaid, Settles, GetType;
    hide Proto.Truncated, Framing.FirstPacket, Framing.AfterFirstEnd;
    match e {
      case Recv(segment) =>
        if v.connState == MQTT_DATA {
          ReceivingFrame(v, segment, cfg);
        }
      case Publish(topic, payload, qos, retain) => QueueingKeeps(v, topic, payload, qos, retain, cfg);
      case Subscribe(topic) => QueueingKeeps(v, topic, [], 0, 0, cfg);
      case _ =>
    }
  }

  ghost predicate NoSendAdded(log: seq<Output>, log': seq<Output>) {
    && |log| <= |log'| && log'[..|log|] == log
    && forall i :: |log| <= i < |log'| ==> !log'[i].Sent?
  }

  lemma {:induction false} ReceivingSendsNothing(v: View, segment: seq<byte>, cfg: Config)
    requires Legal(v, cfg) && Settles(v.inBuffer, segment)
    ensures NoSendAdded(v.log, Receiving(v, segment, cfg).log)
    decreases |segment|
  {
    hide Framing.WellFormed, Handled, Overlaid;
    if 0 < |segment| < BUF {
      var v0 := v.(inBuffer := Overlaid(v.inBuffer, segment));
      HandledLegal(v0, |segment|, cfg);
      HandledFrame(v0, |segment|, cfg);
      match Next(v.inBuffer, segment) {
        case None =>
        case Some(total) => ReceivingSendsNothing(Handled(v0, |segment|, cfg), segment[total..], cfg);
      }
    }
  }

  /** A sending step sends one packet, last in the log, reports its outcome and keeps its type as
      the one pending; a ping is [0xC0, 0]. No other step sends anything. */
  lemma SendsOnce(v: View, e: Event, cfg: Config)
    requires Legal(v, cfg) && Enabled(v, e)
    ensures var (w, n) := (Step(v, e, cfg), |v.log|);
            if Sends(v, e, cfg) then
              var m := if e.ConnectCb? then n + 1 else n;
              && |w.log| == m + 1 && w.log[..n] == v.log && w.log[m].Sent?
              && w.log[m].reached == (v.hasConn && e.ok)
              && w.log[m].source == (if e.ConnectCb? then Source.Greeting else if e.Tick? then Ping else FromQueue)
              && (w.log[m].packet != [] ==> w.pendingType == w.log[m].packet[0] / 16)
              && (e.Tick? ==> w.log[m].packet == [0xC0, 0])
            else NoSendAdded(v.log, w.log)
  {
    hide Framing.WellFormed, Receiving, Publishing, Subscribing, ConnectPacket, Overlaid, Settles;
    hide Framing.FirstPacket, Framing.AfterFirstEnd;
    match e {
      case Recv(segment) =>
        if v.connState == MQTT_DATA {
          ReceivingSendsNothing(v, segment, cfg);
        }
      case Publish(topic, payload, qos, retain) => QueueingKeeps(v, topic, payload, qos, retain, cfg);
      case Subscribe(topic) => QueueingKeeps(v, topic, [], 0, 0, cfg);
      case _ =>
    }
  }

  /** Identifiers are used up by calls and received packets only, the queue is touched by these
      and MQTT_Task, and the input buffer by received segments. */
  /** A tick, a greeting and MQTT_Task leave these alone. */
  lemma FrameParts(v: View, e: Event, cfg: Config)
    requires |v.inBuffer| == BUF
    ensures e.Tick? ==>
              var w := Ticked(v, e.ok, cfg);
              w.messageId == v.messageId && w.accepted == v.accepted && w.ring == v.ring && w.taken == v.taken
              && w.inBuffer == v.inBuffer
    ensures e.Task? ==>
              var w := Transmitting(v, e.stale, e.ok);
              w.messageId == v.messageId && w.accepted == v.accepted && w.inBuffer == v.inBuffer
    ensures e.Recv? ==> Greeted(v, e.segment).taken == v.taken
  {
    hide Framing.FirstPacket, Framing.AfterFirstEnd, GetType, Overlaid;
  }

  lemma StepFrame(v: View, e: Event, cfg: Config)
    requires Legal(v, cfg) && Enabled(v, e)
    ensures var (w, calls) := (Step(v, e, cfg), e.Publish? || e.Subscribe?);
            && (!calls && !e.Recv? ==> w.messageId == v.messageId && w.accepted == v.accepted)
            && (!calls && !e.Recv? && !e.Task? ==> w.ring == v.ring && w.taken == v.taken)
            && (!e.Recv? ==> w.inBuffer == v.inBuffer)
            && (e.Recv? ==> w.taken == v.taken)
  {
    hide Framing.WellFormed, Receiving, Publishing, Subscribing, ConnectPacket, Overlaid, Settles, GetType;
    hide Framing.FirstPacket, Framing.AfterFirstEnd, Greeted, Ticked, Transmitting;
    FrameParts(v, e, cfg);
    match e {
      case Recv(segment) =>
        if v.connState == MQTT_DATA {
          ReceivingFrame(v, segment, cfg);
        }
      case Publish(topic, payload, qos, retain) => QueueingKeeps(v, topic, payload, qos, retain, cfg);
      case Subscribe(topic) => QueueingKeeps(v, topic, [], 0, 0, cfg);
      case _ =>
    }
  }

  /** The sent callback came after event `i`. */
  ghost predicate CalledBack(es: seq<Event>, i: nat, n: nat)
    requires n <= |es|
  {
    exists k :: i < k < n && es[k].SentCb?
  }

  function Left(ticks: nat): nat {
    if ticks < 5 then 5 - ticks else 0
  }

  lemma TicksLast(es: seq<Event>, i: nat, n: nat)
    requires i < n <= |es|
    ensures Ticks(es[i..n]) == Ticks(es[i..n - 1]) + if es[n - 1].Tick? then 1 else 0
  {
    assert es[i..n][..n - i - 1] == es[i..n - 1];
  }

  /** After the last send, the client waits for its callback, or for five ticks. */
  lemma {:induction false} WaitsIff(vs: seq<View>, es: seq<Event>, cfg: Config, i: nat, n: nat)
    requires IsRun(vs, es, cfg) && i < n < |vs| && Sends(vs[i], es[i], cfg)
    requires forall k :: i < k < n ==> !Sends(vs[k], es[k], cfg)
    ensures |vs| == |es| + 1
    ensures vs[n].sendTimeout == if CalledBack(es, i, n) then 0 else Left(Ticks(es[i..n]))
    decreases n
  {
    hide Step, Legal, Enabled, IsRun, Sends, Ticks;
    RunShape(vs, es, cfg);
    RunStep(vs, es, cfg, n - 1);
    StepTimeout(vs[n - 1], es[n - 1], cfg);
    TicksLast(es, i, n);
    if n == i + 1 {
      NoTicks(es, i);
      SentCbSendsNothing(vs[i], es[i], cfg);
    } else {
      WaitsIff(vs, es, cfg, i, n - 1);
    }
  }

  lemma NoTicks(es: seq<Event>, i: nat)
    requires i <= |es|
    ensures Ticks(es[i..i]) == 0
  {
  }

  lemma SentCbSendsNothing(v: View, e: Event, cfg: Config)
    ensures e.SentCb? ==> !Sends(v, e, cfg)
  {
  }

  /** What MQTT_Task does on a connection that is up: with a packet queued and nothing awaited,
      it hands exactly the oldest one over, unshortened; otherwise it sends nothing. */
  lemma TaskSends(v: View, stale: byte, ok: bool, cfg: Config)
    requires Legal(v, cfg) && v.connState == MQTT_DATA
    requires forall p :: p in Framing.Decode(v.ring) ==> |p| <= 1024
    ensures var (queue, r) := (Framing.Decode(v.ring), Step(v, Task(stale, ok), cfg));
            if queue == [] || v.sendTimeout != 0 then
              r == v.(ring := r.ring) && Framing.Decode(r.ring) == queue
            else
              var p := queue[0];
              && Framing.Decode(r.ring) == queue[1..]
              && r == v.(ring := r.ring, sendTimeout := 5, pendingType := (if p == [] then stale else p[0]) / 16,
                         taken := v.taken + [if v.hasConn && ok then Transmitted(p) else Lost(p)],
                         log := v.log + [Sent(p, FromQueue, v.hasConn && ok)])
  {
    hide Framing.WellFormed, Framing.FirstPacket, Framing.FirstEnd;
    Framing.DecodeHead(v.ring);
    NothingDecoded();
    if Framing.END in v.ring {
      assert Framing.FirstPacket(v.ring) in Framing.Decode(v.ring);
    }
  }

  /** Over every run, when MQTT_Task runs with packets queued on a connection that is up, the
      oldest one goes out exactly if the last send was called back or is five ticks ago. */
  lemma QueueMovesOn(vs: seq<View>, es: seq<Event>, cfg: Config, i: nat, n: nat)
    requires IsRun(vs, es, cfg) && Initial(vs[0], cfg) && i < n < |es| && Sends(vs[i], es[i], cfg)
    requires forall k :: i < k < n ==> !Sends(vs[k], es[k], cfg)
    requires es[n].Task? && vs[n].connState == MQTT_DATA && Framing.Decode(vs[n].ring) != []
    ensures |vs| == |es| + 1
    ensures var queue := Framing.Decode(vs[n].ring);
            if CalledBack(es, i, n) || Ticks(es[i..n]) >= 5 then
              && vs[n + 1].log == vs[n].log + [Sent(queue[0], FromQueue, vs[n].hasConn && es[n].ok)]
              && Framing.Decode(vs[n + 1].ring) == queue[1..]
            else vs[n + 1].log == vs[n].log && Framing.Decode(vs[n + 1].ring) == queue
  {
    hide Step, Legal, Enabled, IsRun, Initial, Sends, Ticks, CalledBack, Framing.Decode;
    RunShape(vs, es, cfg);
    WaitsIff(vs, es, cfg, i, n);
    RunStep(vs, es, cfg, n);
    PacketsAreConserved(vs, es, cfg, n);
    QueuedFits(vs[n]);
    TaskSends(vs[n], es[n].stale, es[n].ok, cfg);
  }

  lemma QueuedFits(v: View)
    requires QueueConserved(v)
    ensures forall p :: p in Framing.Decode(v.ring) ==> |p| <= 1024
  {
    forall p | p in Framing.Decode(v.ring)
      ensures |p| <= 1024
    {
      assert p in PacketsOf(v.taken) + Framing.Decode(v.ring);
    }
  }

  // ----- a lost connection comes back

  /** The connection is lost: the SDK says so, or finds no address for the server. */
  predicate Breaks(e: Event) {
    e.DisconCb? || e.ReconCb? || (e.DnsFound? && !e.found)
  }

  /** The events that decide about the connection, other than ticks and MQTT_Task. */
  predicate Decides(e: Event) {
    e.Connect? || e.Disconnect? || e.DnsFound? || e.ConnectCb? || e.DisconCb? || e.ReconCb?
  }

  /** The client has a connection object exactly while its timer runs, so that ticks come. */
  lemma {:induction false} TimerRuns(vs: seq<View>, es: seq<Event>, cfg: Config, n: nat)
    requires IsRun(vs, es, cfg) && Initial(vs[0], cfg) && n < |vs|
    ensures vs[n].armed == vs[n].hasConn
  {
    hide Step, Legal, Enabled, IsRun;
    if n > 0 {
      TimerRuns(vs, es, cfg, n - 1);
      RunStep(vs, es, cfg, n - 1);
      StepArms(vs[n - 1], es[n - 1], cfg);
    }
  }

  lemma StepArms(v: View, e: Event, cfg: Config)
    requires Legal(v, cfg) && Enabled(v, e) && v.armed == v.hasConn
    ensures Step(v, e, cfg).armed == Step(v, e, cfg).hasConn
    ensures Breaks(e) ==> v.hasConn && Step(v, e, cfg) == v.(connState := TCP_RECONNECT_REQ)
  {
    hide Framing.WellFormed, Receiving, Publishing, Subscribing, ConnectPacket, Overlaid, Settles, GetType;
    hide Proto.Truncated, Framing.FirstPacket, Framing.AfterFirstEnd;
    match e {
      case Recv(segment) =>
        if v.connState == MQTT_DATA {
          ReceivingFrame(v, segment, cfg);
        }
      case Publish(topic, payload, qos, retain) => QueueingKeeps(v, topic, payload, qos, retain, cfg);
      case Subscribe(topic) => QueueingKeeps(v, topic, [], 0, 0, cfg);
      case _ =>
    }
  }

  /** What the calls and the name lookup decide; the queue and what is awaited stay. A lookup
      connects exactly if it finds an address that the client did not know. */
  lemma StepDecides(v: View, e: Event, cfg: Config)
    requires Legal(v, cfg) && Enabled(v, e)
    ensures e.Connect? ==>
              Step(v, e, cfg) == v.(connState := TCP_CONNECTING, hasConn := true, armed := true, keepAliveTick := 0,
                                    reconnectTick := 0)
    ensures e.Disconnect? ==> Step(v, e, cfg) == v.(hasConn := false, armed := false)
    ensures e.DnsFound? && e.found ==>
              Step(v, e, cfg) == if e.connects then v.(connState := TCP_CONNECTING) else v
  {
    hide Framing.WellFormed;
  }

  /** Before the connection is up, and while no reconnect is requested, ticks only count down
      what is awaited. */
  lemma TickWaits(v: View, ok: bool, cfg: Config)
    requires Legal(v, cfg) && v.armed && v.connState != MQTT_DATA && v.connState != TCP_RECONNECT_REQ
    ensures Step(v, Tick(ok), cfg) == v.(sendTimeout := if v.sendTimeout == 0 then 0 else v.sendTimeout - 1)
  {
    hide Framing.WellFormed;
  }

  /** Without a connection that is up or greeted, and with nothing decided about it, only the
      sixth tick of a request and then MQTT_Task change anything but queue and input buffer. */
  lemma StepWaits(v: View, e: Event, cfg: Config)
    requires Legal(v, cfg) && Enabled(v, e) && !Decides(e) && v.reconnectTick <= 5
    requires v.connState == TCP_RECONNECT_REQ || v.connState == TCP_RECONNECT || v.connState == TCP_CONNECTING
    ensures var w := Step(v, e, cfg);
            && w.log == v.log
            && if v.connState == TCP_RECONNECT_REQ && e.Tick? then
                 w == if v.reconnectTick == 5 then
                        v.(sendTimeout := w.sendTimeout, connState := TCP_RECONNECT, reconnectTick := 0)
                      else v.(sendTimeout := w.sendTimeout, reconnectTick := v.reconnectTick + 1)
               else if v.connState == TCP_RECONNECT && e.Task? then
                 w == v.(connState := TCP_CONNECTING, hasConn := true, armed := true, keepAliveTick := 0,
                         reconnectTick := 0)
               else
                 && w.connState == v.connState && w.hasConn == v.hasConn && w.armed == v.armed
                 && w.keepAliveTick == v.keepAliveTick && w.reconnectTick == v.reconnectTick
  {
    hide Framing.WellFormed, Receiving, Publishing, Subscribing, ConnectPacket, Overlaid, Settles, GetType;
    match e {
      case Publish(topic, payload, qos, retain) => QueueingKeeps(v, topic, payload, qos, retain, cfg);
      case Subscribe(topic) => QueueingKeeps(v, topic, [], 0, 0, cfg);
      case _ =>
    }
  }

  /** MQTT_Task ran after the sixth tick of the request that event `i` made. */
  ghost predicate Retried(vs: seq<View>, es: seq<Event>, i: nat, n: nat)
    requires i < n <= |es| < |vs|
  {
    exists j :: i < j < n && es[j].Task? && vs[i].reconnectTick + Ticks(es[i..j]) > 5
  }

  /** Over every run: once the connection is lost at event `i`, and until something is decided
      about it, the client waits in a request for its sixth tick, then for MQTT_Task, and then
      connects anew; meanwhile it sends nothing, neither a ping nor a packet of the queue. */
  lemma {:induction false} ComesBack(vs: seq<View>, es: seq<Event>, cfg: Config, i: nat, n: nat)
    requires IsRun(vs, es, cfg) && Initial(vs[0], cfg) && i < n < |vs|
    requires Breaks(es[i]) && forall k :: i < k < n ==> !Decides(es[k])
    ensures |vs| == |es| + 1
    ensures var ticks := vs[i].reconnectTick + Ticks(es[i..n]);
            && vs[i].reconnectTick <= 5
            && (vs[n].connState == TCP_RECONNECT_REQ <==> ticks <= 5)
            && (vs[n].connState == TCP_RECONNECT_REQ ==> vs[n].reconnectTick == ticks)
            && (vs[n].connState == TCP_CONNECTING <==> Retried(vs, es, i, n))
            && (vs[n].connState == TCP_RECONNECT <==> ticks > 5 && !Retried(vs, es, i, n))
    ensures vs[n].connState == TCP_CONNECTING ==> vs[n].keepAliveTick == vs[n].reconnectTick == 0
    ensures vs[n].hasConn && vs[n].armed && vs[n].log == vs[i].log
    decreases n
  {
    hide Step, Legal, Enabled, IsRun, Initial, Ticks;
    RunShape(vs, es, cfg);
    TimersStaySane(vs, es, cfg, n - 1);
    TimerRuns(vs, es, cfg, n - 1);
    RunStep(vs, es, cfg, n - 1);
    TicksLast(es, i, n);
    if n == i + 1 {
      NoTicks(es, i);
      StepArms(vs[i], es[i], cfg);
    } else {
      ComesBack(vs, es, cfg, i, n - 1);
      StepWaits(vs[n - 1], es[n - 1], cfg);
      assert Retried(vs, es, i, n) <==>
             Retried(vs, es, i, n - 1) || (es[n - 1].Task? && vs[i].reconnectTick + Ticks(es[i..n - 1]) > 5);
    }
  }
}
