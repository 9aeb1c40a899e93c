/** The MQTT client (esp_mqtt/mqtt/mqtt.c): its callbacks, timer, task and calls, each proved
    to make one step of ClientSpec. */
module MqttClient {
  import opened Octets
  import opened MqttWire
  import opened MqttConnect
  import opened ClientPackets
  import opened ClientSpec
  import Msg = MqttMsg
  import Framing
  import Proto
  import PacketQueue

  class Client {
    const cfg: Config
    const queue: PacketQueue.Queue
    const conn: Msg.Connection
    const inBuffer: array<byte>
    var connState: ConnState
    var sendTimeout: nat
    var keepAliveTick: nat
    var reconnectTick: nat
    var pendingType: nat
    var hasConn: bool // pCon != NULL
    var armed: bool   // mqttTimer
    ghost var log: seq<Output>
    ghost var accepted: seq<seq<byte>>
    ghost var taken: seq<Taken>

    ghost predicate Valid()
      reads this, queue.rb, queue.rb.buf, conn
    {
      && queue.Valid() && cfg.ringSize == queue.rb.size
      && conn.Valid() && conn.bufferLength == BUF && inBuffer.Length == BUF
      && conn.buffer != queue.rb.buf && inBuffer != queue.rb.buf && inBuffer != conn.buffer
    }

    ghost function View(): (v: View)
      reads this, queue.rb, conn, inBuffer
    {
      ClientSpec.View(connState, sendTimeout, keepAliveTick, reconnectTick, pendingType, hasConn, armed,
                      conn.messageId, queue.rb.contents, inBuffer[..], log, accepted, taken)
    }

    constructor (cfg: Config)
      requires 2 <= cfg.ringSize < 0x8000
      ensures Valid() && this.cfg == cfg
      ensures View().connState == WIFI_INIT && !hasConn && !armed
      ensures sendTimeout == keepAliveTick == reconnectTick == pendingType == 0
      ensures View().ring == [] && log == [] && accepted == [] && taken == []
    {
      this.cfg := cfg;
      queue := new PacketQueue.Queue(cfg.ringSize);
      inBuffer := new byte[BUF](_ => 0);
      var outBuffer := new byte[BUF](_ => 0);
      conn := new Msg.Connection(outBuffer, BUF);
      connState, sendTimeout, keepAliveTick, reconnectTick, pendingType := WIFI_INIT, 0, 0, 0, 0;
      hasConn, armed := false, false;
      log, accepted, taken := [], [], [];
    }

    lemma IsLegal()
      requires Valid()
      ensures Legal(View(), cfg)
    {
    }

    // ----- connecting

    method Connect()
      requires Valid()
      modifies this
      ensures Valid() && View() == Step(old(View()), Event.Connect, cfg)
      ensures connState == TCP_CONNECTING && hasConn && armed && keepAliveTick == reconnectTick == 0
      ensures sendTimeout == old(sendTimeout) && queue.rb.contents == old(queue.rb.contents)
    {
      Disconnect();
      hasConn := true;
      keepAliveTick, reconnectTick := 0, 0;
      armed := true;
      connState := TCP_CONNECTING;
    }

    method Disconnect()
      requires Valid()
      modifies `hasConn, `armed
      ensures Valid() && View() == Step(old(View()), Event.Disconnect, cfg)
      ensures !hasConn && !armed
    {
      hasConn, armed := false, false;
    }

    /** `connects` says that the client knew no address yet and the one found is not 0. */
    method DnsFound(found: bool, connects: bool) returns (posted: bool)
      requires Valid() && hasConn
      modifies `connState
      ensures Valid() && View() == Step(old(View()), Event.DnsFound(found, connects), cfg)
      ensures connState
           == if !found then TCP_RECONNECT_REQ else if connects then TCP_CONNECTING else old(connState)
      ensures posted == Posts(old(View()), Event.DnsFound(found, connects), cfg)
    {
      hide Framing.WellFormed;
      if !found {
        connState := TCP_RECONNECT_REQ;
        return false;
      }
      if connects {
        connState := TCP_CONNECTING;
      }
      return true;
    }

    method ConnectCallback(ok: bool) returns (posted: bool)
      requires Valid() && hasConn
      modifies this, conn, conn.buffer
      ensures Valid() && View() == Step(old(View()), ConnectCb(conn.buffer[0], ok), cfg)
      ensures posted == Posts(old(View()), ConnectCb(conn.buffer[0], ok), cfg)
      ensures log == old(log) + [Opened, Sent(if Connectable(cfg.info) then ConnectBytes(cfg.info) else [],
                                              Greeting, hasConn && ok)]
    {
      hide Framing.WellFormed, ConnectFits, ConnectBody, Flags, Connectable, ConnectBytes, ReadConnectPacket;
      ConnectPacketBytes(cfg);
      ConnectPacketIs(cfg);
      conn.Reset(conn.buffer, BUF);
      conn.MsgConnect(cfg.info);
      var packet := conn.buffer[conn.data..conn.data + conn.length];
      pendingType := GetType(conn.buffer[conn.data]);
      sendTimeout := MQTT_SEND_TIMEOUT;
      log := log + [Opened, Sent(packet, Greeting, hasConn && ok)];
      connState := MQTT_CONNECT_SENDING;
      posted := true;
    }

    method DisconnectCallback() returns (posted: bool)
      requires Valid() && hasConn
      modifies `connState
      ensures Valid() && View() == Step(old(View()), DisconCb, cfg)
      ensures connState == TCP_RECONNECT_REQ && posted == Posts(old(View()), DisconCb, cfg)
    {
      hide Framing.WellFormed;
      connState := TCP_RECONNECT_REQ;
      posted := true;
    }

    method ReconnectCallback() returns (posted: bool)
      requires Valid() && hasConn
      modifies `connState
      ensures Valid() && View() == Step(old(View()), ReconCb, cfg)
      ensures connState == TCP_RECONNECT_REQ && posted == Posts(old(View()), ReconCb, cfg)
    {
      hide Framing.WellFormed;
      connState := TCP_RECONNECT_REQ;
      posted := true;
    }

    // ----- sending

    method SentCallback() returns (posted: bool)
      requires Valid() && hasConn
      modifies `sendTimeout
      ensures Valid() && View() == Step(old(View()), SentCb, cfg)
      ensures sendTimeout == 0 && posted == Posts(old(View()), SentCb, cfg)
    {
      hide Framing.WellFormed;
      sendTimeout := 0;
      posted := true;
    }

    method SendPing(ok: bool)
      requires Valid()
      modifies this, conn, conn.buffer
      ensures Valid()
      ensures View() == old(View()).(sendTimeout := MQTT_SEND_TIMEOUT, pendingType := PINGREQ, keepAliveTick := 0,
                                     log := old(log) + [Sent(PING, Ping, hasConn && ok)])
    {
      hide Framing.WellFormed, Flags;
      PingIs();
      conn.MsgEmpty(PINGREQ);
      assert conn.message[0] == conn.buffer[conn.data];
      pendingType := GetType(conn.buffer[conn.data]);
      sendTimeout := MQTT_SEND_TIMEOUT;
      log := log + [Sent(conn.message, Ping, hasConn && ok)];
      keepAliveTick := 0;
    }

    method Timer(ok: bool) returns (posted: bool)
      requires Valid() && armed
      modifies this, conn, conn.buffer
      ensures Valid() && View() == Step(old(View()), Tick(ok), cfg)
      ensures posted == Posts(old(View()), Tick(ok), cfg)
    {
      hide Framing.WellFormed;
      posted := false;
      if connState == MQTT_DATA {
        posted := CountKeepAlive(ok);
      } else if connState == TCP_RECONNECT_REQ {
        posted := WaitToReconnect();
      }
      CountDown();
    }

    method CountKeepAlive(ok: bool) returns (posted: bool)
      requires Valid()
      modifies this, conn, conn.buffer
      ensures Valid()
      ensures var s, tick := old(View()), (old(keepAliveTick) + 1) % TICK_WRAP;
              View() == if tick > cfg.info.keepalive then
                          Logged(s.(keepAliveTick := 0, pendingType := PINGREQ, sendTimeout := MQTT_SEND_TIMEOUT),
                                 Sent(PING, Ping, s.hasConn && ok))
                        else s.(keepAliveTick := tick)
      ensures posted <==> (old(keepAliveTick) + 1) % TICK_WRAP > cfg.info.keepalive
    {
      keepAliveTick := (keepAliveTick + 1) % TICK_WRAP;
      posted := keepAliveTick > cfg.info.keepalive;
      if posted {
        SendPing(ok);
      }
    }

    method WaitToReconnect() returns (posted: bool)
      requires Valid()
      modifies `reconnectTick, `connState
      ensures Valid()
      ensures var s, tick := old(View()), (old(reconnectTick) + 1) % TICK_WRAP;
              View() == if tick > MQTT_RECONNECT_TIMEOUT then s.(reconnectTick := 0, connState := TCP_RECONNECT)
                        else s.(reconnectTick := tick)
      ensures posted <==> (old(reconnectTick) + 1) % TICK_WRAP > MQTT_RECONNECT_TIMEOUT
    {
      reconnectTick := (reconnectTick + 1) % TICK_WRAP;
      posted := reconnectTick > MQTT_RECONNECT_TIMEOUT;
      if posted {
        reconnectTick := 0;
        connState := TCP_RECONNECT;
      }
    }

    method CountDown()
      requires Valid()
      modifies `sendTimeout
      ensures Valid()
      ensures var s := old(View()); View() == if s.sendTimeout > 0 then s.(sendTimeout := s.sendTimeout - 1) else s
    {
      if sendTimeout > 0 {
        sendTimeout := sendTimeout - 1;
      }
    }

    /** `stale` is what the packet buffer starts with where an empty packet leaves it unfilled. */
    method Task(ok: bool) returns (ghost stale: byte)
      requires Valid()
      modifies this, queue.rb, queue.rb.buf
      ensures Valid() && View() == Step(old(View()), Event.Task(stale, ok), cfg)
    {
      hide Framing.WellFormed, Transmitting;
      stale := 0;
      if connState == TCP_RECONNECT {
        Connect();
        connState := TCP_CONNECTING;
      } else if connState == MQTT_DATA {
        stale := SendNext(ok);
      }
    }

    /** Sends the oldest packet unless the last one is still awaited. */
    method SendNext(ok: bool) returns (ghost stale: byte)
      requires Valid()
      modifies this, queue.rb, queue.rb.buf
      ensures Valid() && View() == Transmitting(old(View()), stale, ok)
    {
      hide Framing.WellFormed, Framing.FirstPacket, Framing.AfterFirstEnd, GetType;
      stale := 0;
      var empty := queue.IsEmpty();
      if !empty && sendTimeout == 0 {
        stale := Transmit(ok);
      }
    }

    method Transmit(ok: bool) returns (ghost stale: byte)
      requires Valid() && queue.rb.contents != [] && sendTimeout == 0
      modifies this, queue.rb, queue.rb.buf
      ensures Valid() && View() == Transmitting(old(View()), stale, ok)
    {
      hide Framing.WellFormed, Framing.FirstPacket, Framing.AfterFirstEnd, GetType;
      var dataBuffer := new byte[BUF];
      ghost var ring := queue.rb.contents;
      Framing.DecodeHead(ring);
      var rc, dataLen := queue.Gets(dataBuffer, BUF);
      stale := dataBuffer[0];
      if rc == 0 {
        pendingType := GetType(dataBuffer[0]);
        assert dataLen > 0 ==> dataBuffer[..dataLen][0] == dataBuffer[0];
        sendTimeout := MQTT_SEND_TIMEOUT;
        log := log + [Sent(dataBuffer[..dataLen], FromQueue, hasConn && ok)];
        ghost var packet := Framing.FirstPacket(ring);
        taken := taken + [if hasConn && ok then Transmitted(packet) else Lost(packet)];
      }
    }

    // ----- publishing

    /** The loop shared by publishing and subscribing. */
    method Enqueue(packet: seq<byte>) returns (ok: bool)
      requires Valid() && |packet| < 0x1_0000
      modifies this, queue.rb, queue.rb.buf
      ensures Valid() && View() == PutDropping(old(View()), packet, cfg)
      ensures ok == PacketQueue.Dropping(old(queue.rb.contents), packet, cfg.ringSize).1
    {
      hide Framing.WellFormed, PacketQueue.Dropping, PacketQueue.Dropped, Discard;
      ghost var before := View();
      ok := queue.PutDroppingOldest(packet);
      ghost var after := PutDropping(before, packet, cfg);
      accepted, taken := after.accepted, after.taken;
    }

    /** Builds the PUBLISH, which is empty when the topic is empty or it does not fit. */
    method BuildPublish(topic: seq<byte>, payload: seq<byte>, qos: int, retain: int)
      requires Valid()
      modifies conn, conn.buffer
      ensures Valid() && conn.Ready() && conn.buffer == old(conn.buffer) && |conn.message| < 0x1_0000
      ensures conn.message == PublishPacket(topic, payload, qos, retain, conn.messageId)
      ensures conn.messageId
           == if qos > 0 && 0 < |topic| <= BUF - 5 then Msg.FreshId(old(conn.messageId)) else old(conn.messageId)
      ensures View() == old(View()).(messageId := conn.messageId)
      ensures 0 <= qos <= 2 && 0 <= retain <= 1 ==>
                && (conn.message != [] <==> Publishable(topic, payload, qos))
                && (conn.message != [] ==>
                      CarriesPublish(conn.message, topic, payload, qos, retain, Msg.FreshId(old(conn.messageId))))
    {
      hide Framing.WellFormed, Flags, Msg.PublishParts, Msg.Built, CarriesPublish;
      MessageFits(Flags(PUBLISH, 0, qos, retain));
      if 0 <= qos <= 2 && 0 <= retain <= 1 {
        PublishPacketIs(topic, payload, qos, retain, Msg.FreshId(conn.messageId));
        PublishPacketIs(topic, payload, qos, retain, conn.messageId);
        CarriesAnyId(topic, payload, qos, retain, Msg.FreshId(conn.messageId), conn.messageId);
      }
      var _ := conn.MsgPublish(topic, payload, qos, retain, 0);
    }

    /** Returns TRUE when the packet is queued. */
    method Publish(topic: seq<byte>, payload: seq<byte>, qos: int, retain: int) returns (ok: bool)
      requires Valid()
      modifies this, queue.rb, queue.rb.buf, conn, conn.buffer
      ensures Valid() && View() == Step(old(View()), Event.Publish(topic, payload, qos, retain), cfg)
      ensures ok <==> conn.message != [] && PacketQueue.Dropping(old(queue.rb.contents), conn.message, cfg.ringSize).1
      ensures accepted == if ok then old(accepted) + [conn.message] else old(accepted)
      ensures ok == Posts(old(View()), Event.Publish(topic, payload, qos, retain), cfg)
      ensures 0 <= qos <= 2 && 0 <= retain <= 1 ==>
                && (!Publishable(topic, payload, qos) ==> !ok && queue.rb.contents == old(queue.rb.contents))
                && (ok ==> CarriesPublish(accepted[|old(accepted)|], topic, payload, qos, retain,
                                          Msg.FreshId(old(conn.messageId))))
    {
      hide Framing.WellFormed, PutDropping, PacketQueue.Dropping, PublishPacket, CarriesPublish, Publishable;
      BuildPublish(topic, payload, qos, retain);
      if conn.length == 0 {
        return false;
      }
      var packet := conn.buffer[conn.data..conn.data + conn.length];
      ghost var before := View();
      ok := Enqueue(packet);
      OkAccepts(before, packet, cfg);
    }

    /** Builds the SUBSCRIBE, which is empty when the topic is empty or does not fit. */
    method BuildSubscribe(topic: seq<byte>)
      requires Valid()
      modifies conn, conn.buffer
      ensures Valid() && conn.Ready() && conn.buffer == old(conn.buffer)
      ensures conn.message == SubscribePacket(topic, conn.messageId) && |conn.message| < 0x1_0000
      ensures if Subscribable(topic) then ReadSubscribe(conn.message) == Some((conn.messageId, topic, 0))
              else conn.message == []
      ensures conn.messageId == if topic == [] then old(conn.messageId) else Msg.FreshId(old(conn.messageId))
      ensures View() == old(View()).(messageId := conn.messageId)
    {
      SubscribePacketIs(topic, if topic == [] then conn.messageId else Msg.FreshId(conn.messageId));
      hide Framing.WellFormed, Flags, Msg.SubscribeParts, Msg.Built, ReadSubscribe, SubscribeBytes;
      MessageFits(Flags(SUBSCRIBE, 0, 1, 0));
      var _ := conn.MsgSubscribe(topic, 0, 0);
    }

    method Subscribe(topic: seq<byte>) returns (ok: bool)
      requires Valid()
      modifies this, queue.rb, queue.rb.buf, conn, conn.buffer
      ensures Valid() && View() == Step(old(View()), Event.Subscribe(topic), cfg)
      ensures ok == PacketQueue.Dropping(old(queue.rb.contents), conn.message, cfg.ringSize).1
      ensures accepted == if ok then old(accepted) + [conn.message] else old(accepted)
      ensures ok == Posts(old(View()), Event.Subscribe(topic), cfg)
      ensures if !Subscribable(topic) then conn.message == []
              else ReadSubscribe(conn.message) == Some((Msg.FreshId(old(conn.messageId)), topic, 0))
    {
      hide Framing.WellFormed, PutDropping, PacketQueue.Dropping, SubscribePacket, ReadSubscribe;
      BuildSubscribe(topic);
      ghost var before := View();
      ok := Enqueue(conn.buffer[conn.data..conn.data + conn.length]);
      OkAccepts(before, conn.message, cfg);
    }

    // ----- receiving

    /** QUEUE_Puts of the packet just built; a full ring refuses it. */
    method PutBuilt()
      requires Valid() && conn.Ready() && |conn.message| < 0x1_0000
      modifies this, queue.rb, queue.rb.buf
      ensures queue.rb.buf == old(queue.rb.buf) && conn.buffer == old(conn.buffer)
      ensures Valid() && View() == Put(old(View()), conn.message, cfg)
    {
      hide Framing.WellFormed, Framing.Decode, Framing.Encode, Proto.Written;
      var packet := conn.buffer[conn.data..conn.data + conn.length];
      var rc := queue.Puts(packet);
      if rc != -1 {
        accepted := accepted + [packet];
      }
    }

    method RespondWith(kind: int, qos: int, id: uint16)
      requires Valid()
      modifies this, queue.rb, queue.rb.buf, conn, conn.buffer
      ensures queue.rb.buf == old(queue.rb.buf) && conn.buffer == old(conn.buffer)
      ensures Valid() && View() == Respond(old(View()), kind, qos, id, cfg)
    {
      hide Framing.WellFormed, Flags, Put, Word;
      AckSize(kind, qos);
      conn.MsgAck(kind, qos, id);
      PutBuilt();
    }

    /** Hands what the decoders find to the data callback: of a PUBLISH at the start of the
        buffer its topic, and its payload unless it is empty and the limit exact. */
    method DeliverPublish(limit: nat) returns (topic: Option<seq<byte>>, payload: Option<seq<byte>>)
      requires Valid() && limit <= BUF
      modifies `log
      ensures Valid() && View() == Logged(old(View()), Data(topic, payload))
      ensures Data(topic, payload) == Delivery(inBuffer[..], limit)
      ensures forall m, after ::
                ValidPublish(m) && inBuffer[..] == PublishWire(m) + after && |PublishWire(m)| <= limit ==>
                  topic == Some(m.topic) && payload == if Readable(m, limit) then Some(m.payload) else None
    {
      ghost var s := inBuffer[..];
      topic, payload := ReadMessage(limit);
      log := log + [Data(topic, payload)];
      hide Delivery, Readable, PublishWire, PublishTopic, PayloadRead, TopicRead;
      forall m, after | ValidPublish(m) && s == PublishWire(m) + after && |PublishWire(m)| <= limit
        ensures topic == Some(m.topic) && payload == if Readable(m, limit) then Some(m.payload) else None
      {
        PublishRoundTrip(m, s, after, limit);
        DeliveryOf(s, limit);
      }
    }

    /** Cuts topic and payload out of the buffer where the decoders find them. */
    method ReadMessage(limit: nat) returns (topic: Option<seq<byte>>, payload: Option<seq<byte>>)
      requires Valid() && limit <= BUF
      ensures Data(topic, payload) == Delivery(inBuffer[..], limit)
    {
      TopicWithin(inBuffer[..], limit);
      var topicAt, topicLen := Msg.GetPublishTopic(inBuffer, limit);
      var dataAt, dataLen := Msg.GetPublishData(inBuffer, limit);
      hide PublishTopic, PublishData;
      match topicAt {
        case Some(k) => topic := Some(inBuffer[k..k + topicLen]);
        case None => topic := None;
      }
      match dataAt {
        case Some(k) =>
          payload := if 0 <= dataLen && k + dataLen <= BUF then Some(inBuffer[k..k + dataLen]) else None;
        case None =>
          payload := if dataLen == 0 then Some([]) else None;
      }
      SlicesOf(inBuffer);
    }

    method Handle(limit: nat)
      requires Valid() && 0 < limit <= BUF
      modifies this, queue.rb, queue.rb.buf, conn, conn.buffer
      ensures queue.rb.buf == old(queue.rb.buf) && conn.buffer == old(conn.buffer)
      ensures Valid() && View() == Handled(old(View()), limit, cfg)
    {
      hide Framing.WellFormed, Respond, Put, Delivery, GetType, GetQos, MsgId, Flags;
      var kind := GetType(inBuffer[0]);
      var qos := GetQos(inBuffer[0]);
      var id := Msg.GetId(inBuffer, BUF);
      if kind == PUBLISH {
        if qos == 1 {
          RespondWith(PUBACK, 0, id);
        } else if qos == 2 {
          RespondWith(PUBREC, 0, id);
        }
        var _, _ := DeliverPublish(limit);
      } else if kind == PUBREC {
        RespondWith(PUBREL, 1, id);
      } else if kind == PUBREL {
        RespondWith(PUBCOMP, 0, id);
      } else if kind == PINGREQ {
        FinishedSize(Flags(PINGRESP, 0, 0, 0));
        conn.MsgEmpty(PINGRESP);
        PutBuilt();
      }
    }

    /** One round of the receive loop; `next` tells where a further packet starts. */
    method ReadPacket(data: seq<byte>) returns (next: Option<nat>)
      requires Valid() && connState == MQTT_DATA && 0 < |data| < BUF
      modifies this, queue.rb, queue.rb.buf, conn, conn.buffer, inBuffer
      ensures queue.rb.buf == old(queue.rb.buf) && conn.buffer == old(conn.buffer)
      ensures Valid() && next == Next(old(inBuffer[..]), data)
      ensures View() == Handled(old(View()).(inBuffer := Overlaid(old(inBuffer[..]), data)), |data|, cfg)
    {
      hide Framing.WellFormed, Handled, GetType, TotalLength;
      Fill(data);
      var kind := GetType(inBuffer[0]);
      var total := Msg.GetTotalLength(inBuffer, |data|);
      var messageLength := total % 0x1_0000;
      next := if kind == PUBLISH && messageLength < |data| then Some(messageLength) else None;
      Handle(|data|);
    }

    method Fill(data: seq<byte>)
      requires Valid() && |data| <= BUF
      modifies inBuffer
      ensures Valid() && inBuffer[..] == Overlaid(old(inBuffer[..]), data)
    {
      forall i | 0 <= i < |data| {
        inBuffer[i] := data[i];
      }
    }

    method ReceiveData(segment: seq<byte>)
      requires Valid() && connState == MQTT_DATA && Settles(inBuffer[..], segment)
      modifies this, queue.rb, queue.rb.buf, conn, conn.buffer, inBuffer
      ensures Valid() && Legal(old(View()), cfg) && View() == Receiving(old(View()), segment, cfg)
    {
      hide Framing.WellFormed, Handled, Overlaid;
      ghost var target := Receiving(View(), segment, cfg);
      var data, more := segment, true;
      while more && 0 < |data| < BUF
        invariant Valid() && queue.rb.buf == old(queue.rb.buf) && conn.buffer == old(conn.buffer)
        invariant more ==> connState == MQTT_DATA && Settles(inBuffer[..], data)
        invariant more ==> Receiving(View(), data, cfg) == target
        invariant !more ==> View() == target
        decreases |data|, more
      {
        IsLegal();
        HandledFrame(View().(inBuffer := Overlaid(inBuffer[..], data)), |data|, cfg);
        HandledLegal(View().(inBuffer := Overlaid(inBuffer[..], data)), |data|, cfg);
        var next := ReadPacket(data);
        if next.Some? {
          data := data[next.value..];
        } else {
          more := false;
        }
      }
    }

    method Receive(segment: seq<byte>) returns (posted: bool)
      requires Valid() && Enabled(View(), Recv(segment))
      modifies this, queue.rb, queue.rb.buf, conn, conn.buffer, inBuffer
      ensures Valid() && Legal(old(View()), cfg) && View() == Step(old(View()), Recv(segment), cfg)
      ensures posted == Posts(old(View()), Recv(segment), cfg)
    {
      hide Framing.WellFormed, Receiving, GetType;
      posted := true;
      if connState == MQTT_DATA {
        ReceiveData(segment);
      } else if 0 < |segment| < BUF {
        Fill(segment);
        if connState == MQTT_CONNECT_SENDING && GetType(inBuffer[0]) == CONNACK {
          if pendingType != CONNECT {
            log := log + [Dropped];
          } else {
            connState := MQTT_DATA;
            log := log + [Accepted];
          }
        }
      }
    }
  }

  // ----- facts about packets that the methods build

  lemma ConnectPacketIs(cfg: Config)
    ensures ConnectPacket(cfg) ==
            if ConnectFits(cfg.info, BUF) then Msg.Finished(Flags(CONNECT, 0, 0, 0), ConnectBody(cfg.info)) else []
    ensures ConnectFits(cfg.info, BUF) ==> ConnectPacket(cfg) != []
  {
  }

  lemma PingFlags()
    ensures Flags(PINGREQ, 0, 0, 0) == 0xC0 && GetType(0xC0) == PINGREQ
  {
    var kind: int := PINGREQ;
    assert kind % 16 == 12 && Flags(kind, 0, 0, 0) == 192;
  }

  lemma DeliveryOf(s: seq<byte>, limit: nat)
    requires limit <= |s|
    ensures Delivery(s, limit)
         == Data(if PublishTopic(s, limit).Some? then Some(TopicRead(s, limit)) else None, PayloadRead(s, limit))
  {
  }

  lemma TopicWithin(s: seq<byte>, limit: nat)
    requires limit <= |s|
    ensures match PublishTopic(s, limit) case Some((k, n)) => k + n <= limit case None => true
  {
  }

  lemma SlicesOf(a: array<byte>)
    ensures forall i, j :: 0 <= i <= j <= a.Length ==> a[..][i..j] == a[i..j]
  {
  }

  lemma FinishedEmpty(first: byte)
    ensures Msg.Finished(first, []) == [first, 0]
  {
  }

  lemma PingIs()
    ensures Msg.Finished(Flags(PINGREQ, 0, 0, 0), []) == PING && GetType(PING[0]) == PINGREQ
  {
    hide Flags, GetType, Msg.Finished;
    PingFlags();
    FinishedEmpty(Flags(PINGREQ, 0, 0, 0));
  }

  lemma FinishedSize(first: byte)
    ensures |Msg.Finished(first, [])| == 2
  {
  }

  lemma AckSize(kind: int, qos: int)
    ensures forall id: uint16 :: |Msg.Finished(Flags(kind, 0, qos, 0), Word(id))| == 4
  {
  }

  lemma MessageFits(first: byte)
    ensures forall body: seq<byte> :: |Msg.Built(first, body, BUF)| <= BUF
  {
  }

  lemma OkAccepts(v: View, packet: seq<byte>, cfg: Config)
    requires |v.ring| <= cfg.ringSize
    ensures PutDropping(v, packet, cfg).accepted
         == if PacketQueue.Dropping(v.ring, packet, cfg.ringSize).1 then v.accepted + [packet] else v.accepted
  {
  }
}
