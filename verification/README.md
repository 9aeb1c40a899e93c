# Verified model of the ESP8266 MQTT client, TCP server and tools

The project models the parts of the firmware in which a packet, a message or a configuration
can be lost, repeated, torn or misread, and proves that they are not, or exactly when they are.

| files | what they model |
|---|---|
| `RingBuf`, `Framing`, `Proto`, `PacketQueue` | the outbound packet queue: byte stuffing into a circular buffer, cut-off frames, resynchronisation, the drop-oldest loop |
| `MqttWire`, `MqttConnect`, `MqttMsg` | building and decoding MQTT control packets |
| `ClientSpec`, `MqttClient` | the MQTT client: its callbacks, timer, `MQTT_Task` and calls as steps of a state machine |
| `ClientPackets`, `ClientAnswers`, `ReceiveLoop` | what the client's packets say, byte for byte and as read back; what it answers to each segment; the splitting of segments |
| `ClientRuns`, `ClientTimers`, `ClientLosses`, `ClientProgress` | whole runs of the client: order, conservation and pacing of packets, pings, lost connections, lost packets, and what is waited for |
| `ServerSpec`, `MessageQueue`, `Server` | the TCP server's task, its linked queues and its heap as steps of a state machine |
| `ServerRuns`, `ServerStreams`, `ServerReceives`, `ServerRest` | whole runs of the server: memory, the byte stream sent, the segments received, wakeups, and what is done at rest |
| `SpiFlash`, `FlashConfig`, `DeviceConfig`, `DeviceCuts` | flash memory, the configuration with two slots and a selector, the device configuration and power failures during its save |
| `SoftUart` | the software UART, tick by tick |
| `Slip`, `FirmwareImage` | serial framing and firmware images of `esptool.py` |

Code that changes state is a class whose methods are proved against functions on values
(`Written`, `Dropping`, `Step`, `Saved`, `Received`, `Loaded`, ...). What the code is for is then
proved about these functions: round trips, invariants over every run, conservation, termination.
The client and the server are state machines: `View()` of the object after a method is `Step` of the
view before it, and a run is any sequence of enabled events, in any order.

How the machine is modelled:

- An octet is a number below 256. Fixed widths are written out where a value can reach them: 16-bit
  identifiers, tick counts, message lengths and cell counts wrap around; the `I16` result of a frame
  write is converted.
- A block of memory has an address that is never granted twice. Reading or freeing a block that is
  not granted is a fault, and no run has one.
- Erasing a flash sector sets all its bits, writing only clears bits. When power fails, a sector is left
  with any part of the bit changes that the step was to make; a slot of the two-slot configuration may
  even be left with anything.
- The SDK is present as events and as outcomes passed in: a name found or not, `espconn_sent`
  accepting a packet or a chunk or not, a block or a signal slot granted or not.
- The client's task queue holds one signal (`esp_mqtt/mqtt/mqtt.c:44`), so that a post while one is pending
  changes nothing.
- The uninitialised `isBegin` of the parser is an arbitrary value, and the bytes that an unfilled
  buffer starts with are arbitrary.

What does not hold, each with a proof of when it fails:

- A packet that fits an empty queue can be refused, and all packets queued before it are lost, although
  dropping one of them would have made room: a packet of 1000 bytes behind two of 998 in the client's
  ring of 2048 (`RefusedAlthoughItFitsEmptyRing`, `RefusedIff`, `DroppingOutcome`).
- The receive loop does not end on a PUBLISH whose announced total length is a multiple of 65536
  (`HangingSegment`, `LoopEndsIff`).
- With a CONNECT longer than the build buffer, the first `espconn_sent` on the connection is called with
  no bytes (`UnfitConnectIsNotSent`).
- `MQTT_Task` takes a packet off the queue before it sends it and never looks at the result of
  `espconn_sent`, so that a packet the connection refuses is lost. Pings are sent while the callback of
  another send is awaited, which gives it reason to (`PingIgnoresTimeout`). And after `MQTT_Disconnect`
  the connection state stays, so that packets are sent on no connection. No packet is lost exactly if
  neither happens (`NothingIsLostIff`).
- A queued packet may wait, until the next ping or call, for a task run that nobody posts: when no callback
  is to come and `MQTT_Task` finds the send timeout not over, or leaves more packets queued than the one
  just refused (`FallsAsleepIff`, `AsleepUntil` and `ProgressIff` of `ClientProgress`).
- For a topic that is empty or longer than 1016 bytes `MQTT_Subscribe` queues an empty packet, and
  returns TRUE unless not even that fits (`UnfitSubscribeQueuesNothing`).
- Pings always come later than the keep-alive the CONNECT announces, and within one and a half times it
  exactly for keep-alives from 2 to 65535 (`PingsComeLate`).
- Packets behind one that is not a PUBLISH in the same segment are ignored (`Answered`). A PUBLISH that
  does not fit one segment is delivered with as much of its payload as the segment holds (`CutIsDelivered`).
- The identifier and payload of a PUBLISH with QoS above 0 and an empty payload are missed when the
  length given is exact (`PublishRoundTrip`), the identifier of a SUBSCRIBE longer than 127 bytes
  always (`SubscribeIdRead`); above 16383 bytes the fixed header is wrong (`FinishedIsStandard`).
- The bytes of a chunk that the TCP stack refuses are lost (`RunsConserve`). If it was the only one on its
  way, sending stops: for good when the message was to go on or was a single chunk, until the next push
  when it was the last fragment. A signal that cannot be posted, or a connection that ends with its sends
  unanswered, has the like effect (`FallsAsleepIff` and `WakeupLostIff` of `ServerStreams`,
  `WedgedForever`, `StrandedUntil`).
- A received message whose signal cannot be posted leaves more messages than signals, until the server is
  closed (`SignalLostIff`, `UnheededUntil`).
- Received data whose message cannot be queued leaks its block (`LeakedIff`, `NoOrphansIff`).
- At bit delays of 5, 6 and 9 the UART samples one bit late, below 4 it sends nothing (`ReceivesIff`).
- When power fails during the save of a device configuration, the device can be lost or be loaded with
  other contents (`CutSaveLoadsIff`, `CutCanForgetOrAlter`).

The comment on `MQTT_Subscribe` offers a QoS argument (`esp_mqtt/mqtt/mqtt.c:415-421`); the code always
asks for QoS 0, and the model follows the code.

## Model

| member | source | states |
|---|---|---|
| RingBuf.Ring.Init | esp_mqtt/mqtt/ringbuf.c:16-25 | A buffer of at least two bytes becomes an empty ring; anything else is refused and changes nothing. |
| RingBuf.Ring.Put | esp_mqtt/mqtt/ringbuf.c:32-46 | Appends the byte behind the newest one, across the wrap-around, exactly when fewer than `size` bytes are stored. |
| RingBuf.Ring.Get | esp_mqtt/mqtt/ringbuf.c:53-67 | Removes and returns the oldest byte, or fails on an empty ring. |
| Framing.StuffedHasNoDelimiter | esp_mqtt/mqtt/proto.c:109-121 | No start or end marker occurs inside a stuffed packet. |
| Framing.UnstuffedStuffed | esp_mqtt/mqtt/proto.c:13-47 | Unstuffing inverts stuffing for every packet. |
| Framing.FrameBytes | esp_mqtt/mqtt/proto.c:106-128 | A frame stands between 126 and 127; these two and 125 are written as 125 and the byte with bit 5 flipped. |
| Framing.DecodeAppendFrame | esp_mqtt/mqtt/proto.c:56-69 | A complete frame behind any stream, whole or cut off, adds exactly its packet at the end of what is decoded. |
| Framing.DecodeAppendCut | esp_mqtt/mqtt/proto.c:109-125 | Bytes without an end marker, such as a frame that was cut off, add no packet and change no segment. |
| Framing.WellFormedAppend | esp_mqtt/mqtt/proto.c:106-128 | Appending any prefix of a frame keeps the ring invariant: wherever a reader may start, a start marker stands. |
| Framing.WellFormedAfterFirstEnd | esp_mqtt/mqtt/proto.c:56-69 | Reading up to the first end marker keeps that invariant. |
| Proto.ParserUnstuffs | esp_mqtt/mqtt/proto.c:13-47 | Inside a frame the parser collects the unstuffed bytes, up to its buffer size, from either escape state. |
| Proto.ParserResynchronises | esp_mqtt/mqtt/proto.c:20-24 | After a start marker the collected bytes depend only on what follows the last one, not on the state before it. |
| Proto.ParserReads | esp_mqtt/mqtt/proto.c:56-69 | Feeding a ring up to its first end marker yields its first packet, from every initial parser state, so also for the `isBegin` that initialisation leaves unset. |
| Proto.Parser.Init | esp_mqtt/mqtt/proto.c:3-11 | Everything is reset but `isBegin`, whose value is arbitrary. |
| Proto.Parser.ParseByte | esp_mqtt/mqtt/proto.c:13-47 | One byte moves the parser as the reference transition says; 0 is returned exactly for the end marker. |
| Proto.ParseRb | esp_mqtt/mqtt/proto.c:56-69 | Returns the first packet of the ring, cut to the buffer size, and removes everything up to its end marker; without one it fails and empties the ring. |
| Proto.AddRb | esp_mqtt/mqtt/proto.c:106-128 | Leaves the frame, or as much of it as fits, behind the old contents, and returns the frame length exactly when all of it fits. |
| PacketQueue.Queue.constructor | esp_mqtt/mqtt/queue.c:37-41 | An empty queue over a fresh buffer of the given size. |
| PacketQueue.Queue.Puts | esp_mqtt/mqtt/queue.c:42-45 | Adds the packet at the end of the decoded queue exactly when its frame fits the free space; a refused packet leaves the decoded queue unchanged. |
| PacketQueue.Queue.Gets | esp_mqtt/mqtt/queue.c:46-50 | Removes and returns the oldest packet, cut to the buffer size; it fails exactly when no complete packet is stored. |
| PacketQueue.Queue.IsEmpty | esp_mqtt/mqtt/queue.c:52-57 | True exactly when the ring holds no byte at all. |
| PacketQueue.FifoConservation | esp_mqtt/mqtt/queue.c:42-50 | Over every run of succeeding and failing puts and gets, what was delivered followed by what is still decoded equals what was accepted, in order. |
| PacketQueue.Queue.PutDroppingOldest | esp_mqtt/mqtt/mqtt.c:399-412 | The drop-oldest loop terminates; on success the queue is the old one without exactly the computed number of oldest packets, plus the new packet; on failure the ring is empty. |
| PacketQueue.DroppingOutcome | esp_mqtt/mqtt/mqtt.c:399-412 | The loop succeeds if and only if the frame fits the free space or some segment of the ring is at least as long as the frame, and says how many packets are dropped: none in the first case. |
| PacketQueue.DroppingRound | esp_mqtt/mqtt/mqtt.c:401-407 | One refused put and one get remove the oldest packet and free exactly the bytes of its segment. |
| PacketQueue.RefusedIff | esp_mqtt/mqtt/mqtt.c:399-412 | On a ring of whole frames the packet is refused, and all others are lost, if and only if its frame is longer than the free space and longer than each frame queued. |
| PacketQueue.FramesDecode | esp_mqtt/mqtt/queue.c:42-50 | Frames behind one another are decoded to their packets, one segment of the ring each. |
| PacketQueue.RefusedAlthoughItFitsEmptyRing | esp_mqtt/mqtt/mqtt.c:399-412 | A run of the client's ring on which a packet that fits it empty is refused: two packets of 998 bytes are put, then one of 1000 comes. Dropping one would have made room. |
| MqttWire.FlagsRead | esp_mqtt/mqtt/include/mqtt_msg.h:100-103 | The four bit-field getters recover type, DUP, QoS and RETAIN from the first byte. |
| MqttWire.ScanEncoded | esp_mqtt/mqtt/mqtt_msg.c:135-152 | Reading a Remaining Length field inverts the encoder of section 2.2.3 of MQTT 3.1.1 for every value and stops behind it. |
| MqttWire.TotalLengthOfWire | esp_mqtt/mqtt/mqtt_msg.c:135-152 | The total length of a standard packet is found whatever bytes follow it. |
| MqttWire.PublishRoundTrip | esp_mqtt/mqtt/mqtt_msg.c:154-288 | From any buffer that starts with a PUBLISH the topic is read back always, the identifier and payload exactly when the payload is not empty, QoS is 0 (payload) or a byte follows the packet. |
| MqttWire.PublishCut | esp_mqtt/mqtt/mqtt_msg.c:154-226 | Of a PUBLISH that is cut off behind its fixed header the topic is read if it is whole, and as much of the payload as there is; otherwise no topic, and an empty payload or none. |
| MqttWire.IdRead | esp_mqtt/mqtt/mqtt_msg.c:269-288 | Of the other packets, types 4 to 9 and 11 carry an identifier in the third and fourth byte, if the Remaining Length takes one; all others none. |
| MqttConnect.ConnectRoundTrip | esp_mqtt/mqtt/mqtt_msg.c:290-360 | Reading a CONNECT in the order its flag bits announce gives back client id, will, user name, password and keep-alive for every combination of fields (section 3.1 of MQTT 3.1.1). |
| MqttConnect.FlagsAnnounce | esp_mqtt/mqtt/mqtt_msg.c:314-356 | Each flag bit is set exactly for the field it announces, and the will QoS bits carry the will QoS. |
| MqttMsg.FinishedIsStandard | esp_mqtt/mqtt/mqtt_msg.c:105-126 | The fixed header agrees with the standard encoder if and only if the Remaining Length is at most 16383. |
| MqttMsg.PublishBuiltAndRead | esp_mqtt/mqtt/mqtt_msg.c:362-386 | What the PUBLISH builder makes is read back: type, QoS, RETAIN, total length and topic always, payload and identifier under the exact guard of the decoders. |
| MqttMsg.SubscribeIdRead | esp_mqtt/mqtt/mqtt_msg.c:269-285 | The identifier of a SUBSCRIBE is read back if and only if its Remaining Length is at most 127. |
| MqttMsg.NthIdIs | esp_mqtt/mqtt/mqtt_msg.c:76-90 | The identifier of the n-th allocation in closed form, from every counter value. |
| MqttMsg.IdsDistinct | esp_mqtt/mqtt/mqtt_msg.c:76-90 | No identifier is 0 (section 2.3.1 of MQTT 3.1.1) and any 65535 consecutive ones are pairwise distinct, across the wrap-around. |
| MqttMsg.Connection.constructor | esp_mqtt/mqtt/mqtt_msg.c:128-133 | On zeroed memory: a builder over the buffer with no packet ready and identifier counter 0. |
| MqttMsg.Connection.Reset | esp_mqtt/mqtt/mqtt_msg.c:128-133 | On a connection in use: the identifier counter goes on, since only the first pointer is cleared. |
| MqttMsg.Connection.InitMessage | esp_mqtt/mqtt/mqtt_msg.c:92-96 | Starts an empty packet behind the room for the fixed header. |
| MqttMsg.Connection.AppendString | esp_mqtt/mqtt/mqtt_msg.c:63-74 | Appends the length-prefixed string, or fails exactly when it does not fit. |
| MqttMsg.Connection.AppendMessageId | esp_mqtt/mqtt/mqtt_msg.c:76-90 | Appends the identifier given or a fresh one; the counter advances even when the two bytes do not fit. |
| MqttMsg.Connection.FailMessage | esp_mqtt/mqtt/mqtt_msg.c:98-103 | Gives out a packet of length 0. |
| MqttMsg.Connection.FiniMessage | esp_mqtt/mqtt/mqtt_msg.c:105-126 | Puts the fixed header in front of the body; the packet starts at offset 0 when the length takes two bytes and at 1 otherwise. |
| MqttMsg.Connection.MsgConnect | esp_mqtt/mqtt/mqtt_msg.c:290-360 | The complete CONNECT packet exactly when it fits the buffer, otherwise length 0. |
| MqttMsg.Connection.MsgPublish | esp_mqtt/mqtt/mqtt_msg.c:362-386 | The complete PUBLISH packet exactly when the topic is not empty and it fits; a fresh identifier exactly for QoS above 0; and in every case the identifier written out. |
| MqttMsg.Connection.MsgAck | esp_mqtt/mqtt/mqtt_msg.c:388-418 | PUBACK, PUBREC, PUBREL and PUBCOMP carry the identifier given, or a fresh one for 0. |
| MqttMsg.Connection.MsgSubscribe | esp_mqtt/mqtt/mqtt_msg.c:420-438 | The complete SUBSCRIBE packet with a fresh identifier, or length 0; and in every case the identifier written out. |
| MqttMsg.Connection.MsgEmpty | esp_mqtt/mqtt/mqtt_msg.c:456-472 | PINGREQ, PINGRESP and DISCONNECT: a fixed header with nothing behind it. |
| MqttMsg.GetTotalLength | esp_mqtt/mqtt/mqtt_msg.c:135-152 | The loop computes the reference reading of the length field. |
| MqttMsg.GetPublishTopic | esp_mqtt/mqtt/mqtt_msg.c:154-181 | Position and length of the topic, or no position and the length unchanged. |
| MqttMsg.GetPublishData | esp_mqtt/mqtt/mqtt_msg.c:183-226 | Position and length of the payload as the reference reading gives them. |
| MqttMsg.GetId | esp_mqtt/mqtt/mqtt_msg.c:228-288 | The identifier of every packet type as the reference reading gives it, 0 where there is none. |
| ReceiveLoop.SegmentIsSplit | esp_mqtt/mqtt/mqtt.c:121-246 | A segment that concatenates PUBLISH packets is split into exactly these: each is delivered with its topic and payload, in order, and each of QoS 1 or 2 has one PUBACK [0x40, 2, id] or PUBREC [0x50, 2, id] put into the queue. |
| ReceiveLoop.CutIsDelivered | esp_mqtt/mqtt/mqtt.c:98-110 | Of a PUBLISH whose segment ends in its payload, the topic and the part of the payload that is there are delivered, as one message. |
| ClientAnswers.Answered | esp_mqtt/mqtt/mqtt.c:159-222 | Every segment that does not start with a PUBLISH, on a connection that is up: PUBREC queues [0x62, 2, id], PUBREL [0x70, 2, id] and PINGREQ [0xD0, 0], if there is room; nothing else is queued, nothing delivered, and the rest of the segment ignored. |
| ClientAnswers.PublishAnswered | esp_mqtt/mqtt/mqtt.c:174-188 | The packet at the front of a segment, if a PUBLISH: one delivery, and for QoS 1 and 2, but no other, the acknowledgement with the identifier received, or a fresh one for 0. |
| ClientAnswers.Greets | esp_mqtt/mqtt/mqtt.c:138-157 | While the CONNACK is awaited, a segment brings the connection up exactly if it starts with a CONNACK. |
| ClientAnswers.Ignored | esp_mqtt/mqtt/mqtt.c:132-246 | A segment of no or of 1024 and more bytes changes nothing in any state; before the CONNECT is sent, and after the connection is lost, a segment is only copied. |
| ReceiveLoop.LoopEndsIff | esp_mqtt/mqtt/mqtt.c:222-237 | Whatever the buffer held, the receive loop ends on a segment if and only if no PUBLISH it reaches has a total length that is 0 in 16 bits, and then within one round a byte. |
| ReceiveLoop.ShortTotalsEnd | esp_mqtt/mqtt/mqtt.c:222-237 | Announced total lengths below 65536 suffice. |
| ReceiveLoop.HangingSegment | esp_mqtt/mqtt/mqtt.c:159-160 | A four-byte segment on which the loop never ends. |
| MqttClient.Client.Connect | esp_mqtt/mqtt/mqtt.c:581-616 | The old connection is dropped, counts reset, the timer armed and the state set to connecting; queue and send timeout stay. |
| MqttClient.Client.Disconnect | esp_mqtt/mqtt/mqtt.c:619-630 | One Disconnect step; the connection state stays as it was. |
| MqttClient.Client.DnsFound | esp_mqtt/mqtt/mqtt.c:59-93 | A lookup without result requests a reconnect; one that finds an address the client did not know connects; any other changes nothing. It posts `MQTT_Task` exactly if something was found. |
| MqttClient.Client.ConnectCallback | esp_mqtt/mqtt/mqtt.c:331-359 | Hands over the CONNECT, byte for byte, or nothing if it does not fit; the connection accepts it or not; the pending type is read off the buffer. |
| MqttClient.Client.DisconnectCallback | esp_mqtt/mqtt/mqtt.c:310-321 | Requests a reconnect and posts `MQTT_Task`. |
| MqttClient.Client.ReconnectCallback | esp_mqtt/mqtt/mqtt.c:367-378 | Requests a reconnect and posts `MQTT_Task`. |
| MqttClient.Client.SentCallback | esp_mqtt/mqtt/mqtt.c:254-265 | Clears the send timeout and posts `MQTT_Task`. |
| MqttClient.Client.Timer | esp_mqtt/mqtt/mqtt.c:267-307 | One tick: keep-alive and ping, accepted or not, reconnect count, send timeout; it posts `MQTT_Task` exactly with a ping or a due reconnect. |
| MqttClient.Client.Task | esp_mqtt/mqtt/mqtt.c:444-483 | One step of `MQTT_Task`: reconnects, or takes the oldest packet when none is awaited and hands it to the connection, which accepts it or not. |
| MqttClient.Client.Publish | esp_mqtt/mqtt/mqtt.c:391-413 | One publish step. TRUE exactly when the packet built is queued, last; from that packet the getters and decoders read type, QoS, RETAIN, topic, payload and a fresh identifier. FALSE, and the queue as it was, if the topic is empty or the packet does not fit. |
| MqttClient.Client.Subscribe | esp_mqtt/mqtt/mqtt.c:423-441 | One subscribe step. TRUE exactly when the packet built is queued, last; a server reads from it a fresh identifier, the topic and QoS 0; it is empty exactly for a topic that is empty or does not fit. |
| MqttClient.Client.DeliverPublish | esp_mqtt/mqtt/mqtt.c:98-110 | What the data callback gets is cut out of the buffer where the two decoders find it; of a PUBLISH at its start that is the topic, and the payload unless it is empty, QoS is above 0 and the length exact. |
| MqttClient.Client.Receive | esp_mqtt/mqtt/mqtt.c:121-246 | One step of the receive callback, in every connection state; what is delivered is what `DeliverPublish` cuts out of the buffer. |
| ClientSpec.StepLegal | esp_mqtt/mqtt/mqtt.c:121-483 | Every step keeps the ring within its size and well formed and the input buffer at its length. |
| ClientPackets.PublishQueues | esp_mqtt/mqtt/mqtt.c:391-413 | For every topic, payload, QoS 0 to 2 and RETAIN 0 or 1: nothing is queued exactly if the topic is empty or the packet does not fit; otherwise it is queued, byte for byte the PUBLISH of section 3.3 of MQTT 3.1.1 with a fresh identifier, and read back; dropped for it are no packets if there is room, or those up to the first segment as long, or all and itself. |
| ClientPackets.SubscribeQueues | esp_mqtt/mqtt/mqtt.c:423-441 | Likewise the SUBSCRIBE of section 3.8, for every topic: a fresh identifier, the topic and QoS 0. |
| ClientPackets.ConnectCbSends | esp_mqtt/mqtt/mqtt.c:331-359 | On a new TCP connection exactly one packet goes out, byte for byte the CONNECT of section 3.1, from which the settings are read back, or no byte if it does not fit. |
| ClientRuns.ConnectComesFirst | esp_mqtt/mqtt/mqtt.c:138-157 | Over every run with a CONNECT that fits, the first packet sent on each TCP connection is the CONNECT and nothing else precedes the CONNACK (section 3.1 of MQTT 3.1.1); the branch for an invalid CONNACK is never taken. |
| ClientRuns.FirstAcceptedIsConnect | esp_mqtt/mqtt/mqtt.c:331-359 | So also the first packet that a connection accepts is the CONNECT, provided no CONNACK comes before it accepted any. |
| ClientRuns.UnfitConnectIsNotSent | esp_mqtt/mqtt/mqtt.c:331-359 | With a CONNECT that does not fit the buffer, the first send on the first connection has no bytes. |
| ClientRuns.PacketsAreConserved | esp_mqtt/mqtt/mqtt.c:391-483 | Over every run, each packet accepted into the queue has been transmitted, lost by a send that no connection accepted, or discarded, once and in order, or is still queued; the first two are, unshortened, what the log of sends shows. |
| ClientRuns.UnfitSubscribeQueuesNothing | esp_mqtt/mqtt/mqtt.c:423-441 | For a topic that is empty or does not fit, subscribing puts an empty packet into the queue, and an empty ring takes it. |
| ClientLosses.NothingIsLostIff | esp_mqtt/mqtt/mqtt.c:444-483 | Over every run, no packet that leaves the queue to be sent is lost if and only if each time `MQTT_Task` takes one, `MQTT_Disconnect` was not called since the last connect and the connection accepts it. |
| ClientLosses.ConnectionIff | esp_mqtt/mqtt/mqtt.c:581-630 | A run has no connection object exactly when nothing ever connected or `MQTT_Disconnect` was called and nothing connected since. |
| ClientLosses.PacketLost | esp_mqtt/mqtt/mqtt.c:460-479 | With a packet queued, a disconnect and then a run of `MQTT_Task` lose it, whatever the outcome of the send. |
| ClientLosses.PingIgnoresTimeout | esp_mqtt/mqtt/mqtt.c:271-293 | A ping that is due is sent although the callback of another send is awaited. |
| ClientProgress.FallsAsleepIff | esp_mqtt/mqtt/mqtt.c:304-305 | Exactly which events leave a queued packet with no run of `MQTT_Task` posted and no callback to come: a run that finds the send timeout not over, or whose packet is refused while more are queued; or a disconnect with no run posted. |
| ClientProgress.AsleepUntil | esp_mqtt/mqtt/mqtt.c:271-303 | From then on neither `MQTT_Task` nor a sent callback comes until a step that posts, such as a due ping or a call that queues a packet, leaves the connection or empties the queue, and each of these ends it. |
| ClientProgress.ProgressIff | esp_mqtt/mqtt/mqtt.c:254-265 | Over every run a queued packet of the connected client always has a task run or a callback on its way if and only if none of these events occurs. |
| ClientRuns.QueueSendsArePaced | esp_mqtt/mqtt/mqtt.c:460-479 | Between two transmissions from the queue the sent callback ran or at least five ticks passed. |
| ClientTimers.WaitsIff | esp_mqtt/mqtt/mqtt.c:254-307 | Over every run, the client waits after its last send, CONNECT, ping or queued packet, exactly until the sent callback or until five ticks have passed. |
| ClientTimers.TaskSends | esp_mqtt/mqtt/mqtt.c:460-479 | With a packet queued and nothing awaited `MQTT_Task` hands exactly the oldest one over, unshortened, and books its outcome; otherwise it sends nothing. |
| ClientTimers.QueueMovesOn | esp_mqtt/mqtt/mqtt.c:254-479 | So over every run, when `MQTT_Task` runs with packets queued, the oldest goes out if and only if the last send was called back or is five ticks ago. |
| ClientTimers.SendsOnce | esp_mqtt/mqtt/mqtt.c:267-479 | The steps that send, one packet each, with outcome and pending type; a ping is [0xC0, 0]; no other step sends. |
| ClientTimers.StepFrame | esp_mqtt/mqtt/mqtt.c:98-483 | Identifiers are used up, and the queue and the input buffer changed, only by the calls, received segments and `MQTT_Task`. |
| ClientRuns.PingsArePeriodic | esp_mqtt/mqtt/mqtt.c:267-307 | While the client stays connected, pings sent and the count reached are the quotient and remainder of the ticks by one more than the keep-alive given for the CONNECT. |
| ClientRuns.PingsComeLate | esp_mqtt/mqtt/mqtt.c:271-293 | The time between pings always exceeds the keep-alive read back from the CONNECT, and is within one and a half times it (section 3.1.2.10 of MQTT 3.1.1) exactly for a keep-alive from 2 to 65535. |
| ClientRuns.ReconnectIsPrompt | esp_mqtt/mqtt/mqtt.c:296-303 | No run stays in a reconnect request for six ticks. |
| ClientRuns.StepReconnects | esp_mqtt/mqtt/mqtt.c:296-303 | The sixth tick in a reconnect request leads to the reconnect state. |
| ClientTimers.TimerRuns | esp_mqtt/mqtt/mqtt.c:581-630 | Over every run the timer is armed exactly while there is a connection object, so that the ticks of a reconnect come. |
| ClientTimers.ComesBack | esp_mqtt/mqtt/mqtt.c:296-321 | Over every run: after a disconnect or reconnect callback, or a lookup without result, and until something else decides about the connection, the client requests a reconnect until exactly the sixth tick, then waits for `MQTT_Task`, and then connects with counts reset; meanwhile it sends neither a ping nor a packet. |
| ClientTimers.StepDecides | esp_mqtt/mqtt/mqtt.c:79-90 | What the calls and a lookup decide: exactly an address that the client did not know connects. |
| Server.TcpServer.Task | user/server.c:29-145 | Each signal makes exactly one step of the server's state machine. |
| Server.TcpServer.Send | user/server.c:419-435 | Pushes any message and posts TX; -1 exactly when the push fails, and then nothing changed. |
| Server.TcpServer.RecvCallback | user/server.c:147-188 | Copies the data into a fresh block, queues it and posts RX. |
| Server.TcpServer.SentCallback | user/server.c:210-228 | One send less in flight, one TX_DONE more. |
| Server.TcpServer.ConnectionGone | user/server.c:261-284 | A connection ends: its sends in flight are no longer called back, and nothing else changes. |
| Server.TcpServer.CloseServer | user/server.c:448-481 | Clears both queues, freeing their heap blocks. |
| ServerRuns.StepSound | user/server.c:29-145 | No event, in any order, makes the server read or free a block it does not hold or free one twice. |
| ServerStreams.StepConserves | user/server.c:61-138 | Every step keeps the balance: chunks handed over, rest of the current message and queue together are what was pushed and not cleared. |
| ServerStreams.RunsConserve | user/server.c:61-138 | So every run from the start, with stray TX_DONE signals, hands over the byte stream in order and complete, in chunks of at most 1460 bytes, with fragments pending only while sending; the bytes accepted make up the balance if and only if no byte was refused. |
| ServerReceives.RunsSend | user/server.c:61-138 | That stream is, over every run, what the events push: the bytes of each `tcpserver_send` as they stood in memory, with its connection, less what a close clears. |
| ServerReceives.HandsOver | user/server.c:61-138 | The chunk of each step: of a queued message its first 1460 bytes or all, of the current one the next 1460 or the rest, at its connection. |
| ServerReceives.RunsReceive | user/server.c:45-59 | Over every run, what was handed to the parser, and what waits for it, is exactly what the events deliver: each segment copied unaltered, with its connection and a NUL behind it, in order, once. |
| ServerReceives.NothingElseArrives | user/server.c:167-177 | Every segment that could be queued was parsed, cleared or waits, once. |
| ServerReceives.ArrivesInOrder | user/server.c:45-59 | Parsed and waiting segments are all that arrived, in order, as long as the server is not closed. |
| ServerStreams.FreedExactlyOnce | user/server.c:49-127 | Each heap block pushed is owned by one message or has been freed, once, and a freed one is gone; that it is freed in the end is part of `EverythingIsSent`. |
| ServerStreams.LeakedIff | user/server.c:147-188 | Over every run, a block granted after the start stays allocated without an owner if and only if received data could not be queued in it and no caller handed it over since. |
| ServerStreams.NoOrphansIff | user/server.c:167-177 | When callers hand over only their own blocks, nothing leaks if and only if every granted block could be queued. |
| ServerStreams.FallsAsleepIff | user/server.c:61-284 | Exactly which events, in which states, leave nothing on its way that wakes `server_task`: waiting for a callback that will not come, or idle with messages queued. The end of a connection with sends in flight is one of them. |
| ServerStreams.WakeupLostIff | user/server.c:61-284 | A run always has a TX, a TX_DONE or a send callback on its way when it needs one if and only if none of these events occurs in it. |
| ServerStreams.NoLostWakeup | user/server.c:61-284 | In particular none is lost when posts succeed, sends are accepted and no connection ends with sends in flight. |
| ServerRest.EverythingIsSent | user/server.c:45-138 | Once pushes stop, the number of steps is bounded by a measure fixed beforehand. At rest every byte pushed and not cleared has been sent if and only if none was refused before, every received segment not cleared has been parsed, and every heap block handed over has been freed. |
| ServerStreams.WedgedForever | user/server.c:61-138 | While it waits for such a callback, no event but a stray TX_DONE makes it send; messages only pile up. |
| ServerStreams.StrandedUntil | user/server.c:61-138 | While it is idle with messages queued, it sends nothing until a push is posted, the queue is cleared or a stray TX_DONE comes, and each of these wakes it. |
| ServerStreams.UnheededIff | user/server.c:167-177 | A received message stays without an RX signal exactly if it was queued and its signal could not be posted. |
| ServerStreams.SignalLostIff | user/server.c:50-59 | Over every run each received message always has an RX signal if and only if no event of that kind occurs. |
| ServerStreams.UnheededUntil | user/server.c:50-59 | Once one has none, messages outnumber signals until the server is closed, whatever else happens. |
| MessageQueue.Queue.Push | user/message_queue.c:36-58 | Appends the message, or fails without a change when no cell can be allocated. |
| MessageQueue.Queue.Unshift | user/message_queue.c:60-87 | Removes and returns the first message, or returns 1 on an empty list. |
| MessageQueue.Queue.Empty | user/message_queue.c:89-100 | True exactly for the empty list. |
| MessageQueue.Queue.Clear | user/message_queue.c:11-34 | Empties the list and frees the blocks of its heap messages, one by one. |
| SpiFlash.EraseThenWrite | user/flash.c:23-47 | Erasing and then writing a sector puts the data there and changes no other sector. |
| FlashConfig.ConfigStore.Save | esp_mqtt/modules/config.c:45-68 | Issues exactly the four commands of the save program, in order. |
| FlashConfig.ConfigStore.Load | esp_mqtt/modules/config.c:70-109 | Uses the selected configuration if its holder value is right, otherwise the defaults, which it saves; what it uses is selected afterwards. |
| FlashConfig.SaveCommands | esp_mqtt/modules/config.c:45-83 | The sectors: slots 0x3C and 0x3D, selector 0x3F; the slot not selected is written, then the selector with the other value. |
| FlashConfig.SaveCommits | esp_mqtt/modules/config.c:45-68 | A completed save is what the next load selects. |
| FlashConfig.CrashIsAtomic | esp_mqtt/modules/config.c:51-66 | If power fails during any of the four steps, with anything left in the slot and any subset of the selector bits changed, the next load selects the old configuration or the new one, complete. |
| FlashConfig.NothingIsLost | esp_mqtt/modules/config.c:45-83 | Over any sequence of saves, finished or cut by power loss, the configuration selected is that of the last finished save or of a later cut one. |
| SoftUart.SamplesIff | include/software_uart.h:8 | The first sample falls into the first data bit exactly for bit delays 4, 7, 8 and 10 or more. |
| SoftUart.WorkingBauds | user/software_uart.c:143-154 | The baud rates with such a bit delay: up to 100000, 111112 to 142857 and 200001 to 250000. |
| SoftUart.SumOfBits | user/software_uart.c:46-57 | A byte is the sum of the bits that the sender shifts out. |
| SoftUart.FrameBits | user/software_uart.c:36-65 | A byte on the line: start bit 0, its bits from the lowest, stop bit 1. |
| SoftUart.ShiftedIn | user/software_uart.c:86-94 | Eight samples shifted in from the top rebuild the byte whose bits they are. |
| SoftUart.OneByte | user/software_uart.c:70-107 | The handler takes one byte and has returned before the next start edge. |
| SoftUart.ReceivesIff | user/software_uart.c:21-107 | Every byte sequence sent is received unchanged, up to the buffer size, if and only if the bit delay is one of these. |
| SoftUart.SoftwareUart.Config | user/software_uart.c:143-154 | Stores the pins, the baud rate and the bit delay computed from it; a rate of 0 changes nothing. |
| SoftUart.SoftwareUart.Send | user/software_uart.c:21-68 | Drives the line with the reference waveform of the data and leaves the receive interrupt enabled. |
| SoftUart.SoftwareUart.ReadByte | user/software_uart.c:70-107 | Stores the byte of eight samples, disables the interrupt and calls back on a full buffer, and returns at the time stated; with an empty status word it does nothing. |
| SoftUart.SoftwareUart.Listen | user/software_uart.c:70-107 | The bytes stored are those of the reference receiver. |
| Slip.ReadInvertsEscape | esp_mqtt/tools/esptool.py:63-90 | Reading inverts writing for every packet and takes no byte behind it (RFC 1055). |
| Slip.FrameBytes | esp_mqtt/tools/esptool.py:63-90 | 192 delimits a frame; 192 and 219 are written as 219 220 and 219 221, and 219 with anything else is rejected. |
| Slip.FrameReadsBack | esp_mqtt/tools/esptool.py:107-119 | A frame is read back in the pieces in which a response is parsed: delimiter, header, body, delimiter. |
| Slip.EscapedHasNoEnd | esp_mqtt/tools/esptool.py:80-90 | No delimiter occurs inside a frame. |
| Slip.Port.Write | esp_mqtt/tools/esptool.py:80-90 | Writes the escaped frame. |
| Slip.Port.ReadBytes | esp_mqtt/tools/esptool.py:63-77 | Returns as many unescaped bytes as asked for, fails on an invalid escape, and otherwise waits. |
| FirmwareImage.ChecksumSeesEveryByte | esp_mqtt/tools/esptool.py:94-97 | Changing one byte of the data changes the checksum. |
| FirmwareImage.ChecksumIsParity | esp_mqtt/tools/esptool.py:92-97 | Each bit of the checksum is the parity of that bit over all bytes and 239. |
| FirmwareImage.LoadsWhatWasSaved | esp_mqtt/tools/esptool.py:215-259 | Loading a saved image gives back segments, entry point and checksum if and only if it has at most 16 segments, all in range; otherwise it fails with the reason. The file length is a multiple of 16. |
| FirmwareImage.SavedBytes | esp_mqtt/tools/esptool.py:247-259 | The file byte for byte: 0xE9, number of segments, two zeros, entry point; behind the segments zeros and the checksum at the end of a block of 16. |
| FirmwareImage.SegmentBytes | esp_mqtt/tools/esptool.py:251-254 | Each segment stands behind the one before it: offset, size, data. |
| FirmwareImage.CutFileIsRejected | esp_mqtt/tools/esptool.py:219-238 | No proper prefix of a saved image loads. |
| FirmwareImage.ESPFirmwareImage.Load | esp_mqtt/tools/esptool.py:219-238 | Computes the reference result, error cases included. |
| FirmwareImage.ESPFirmwareImage.AddSegment | esp_mqtt/tools/esptool.py:240-245 | Appends the segment with its data padded with zeros to whole words. |
| FirmwareImage.ESPFirmwareImage.Save | esp_mqtt/tools/esptool.py:247-259 | Writes the reference file exactly when all numbers fit their fields. |
| FirmwareImage.ChecksumOf | esp_mqtt/tools/esptool.py:92-97 | The loop computes the exclusive-or of the bytes. |
| DeviceConfig.LayoutReadsBack | user/device_config.c:54-146 | A sector that starts with the saved layout is recognised and read back field by field. |
| DeviceConfig.LayoutBytes | user/device_config.c:54-87 | The bytes written: guard 0xDEADBEEF, name, room, type and length, lowest byte first, data, zeros. |
| DeviceConfig.StoredBytes | user/device_config.c:35-146 | The bytes read, and what a sector without the guard reads as. |
| DeviceConfig.DeviceStore.AlreadyExists | user/device_config.c:35-52 | True exactly when the guard stands in flash. |
| DeviceConfig.DeviceStore.SaveConfig | user/device_config.c:54-87 | Erases the sector and writes the layout; afterwards the configuration on flash is the one given, and other sectors keep their contents. |
| DeviceConfig.DeviceStore.ReadConfig | user/device_config.c:89-146 | Returns the configuration on flash. |
| DeviceConfig.DeviceStore.SetDeviceName | user/device_config.c:148-180 | The name stored is the first 31 characters of the one given, filled up with zeros; room, type, data and other sectors stay. |
| DeviceConfig.DeviceStore.SetDeviceRoom | user/device_config.c:182-214 | Likewise the room. |
| DeviceConfig.DeviceStore.SetDeviceType | user/device_config.c:238-290 | A new type replaces the type, and the data by the default of a camera or by none; the same type writes nothing; name, room and other sectors stay. |
| DeviceConfig.DeviceStore.SetDeviceData | user/device_config.c:292-319 | The data is the one given; all else stays. |
| DeviceConfig.FieldsAreIndependent | user/device_config.c:148-319 | Over any sequence of setters, name, room, and type with data are each what their own setters alone make of them. |
| DeviceCuts.FoundIff | user/device_config.c:89-146 | A device is read from a sector if and only if its fields and data stand there byte for byte. |
| DeviceCuts.CutSaveLoadsIff | user/device_config.c:54-87 | Exactly what may be read after power failed during a save, in its erase or its write, with any part of the bit changes made: nothing; any device whose bytes have all the bits of the old sector, or of the new layout; or a length that does not fit, likewise. |
| DeviceCuts.AfterCut | user/device_config.c:54-87 | Given what a cut left: the old device, the new one or none is read if and only if its bytes, or no guard, stand at the start. |
| DeviceCuts.CutCanForgetOrAlter | user/device_config.c:54-87 | So every save can lose the device, or alter any byte of its name to any value with more bits. |
| DeviceCuts.ErasedIsUnset | user/flash.c:23-47 | A save cut between erase and write leaves no configuration. |

## Left out

- PacketQueue.Queue.constructor: rings of 32768 bytes and more, on which the signed 16-bit result of a put is ambiguous; the ring of the client has 2048 bytes.
- MqttMsg.Connection.FiniMessage: a Remaining Length above 16383 is written in two bytes as the code does; no larger packet fits the 1024-byte buffers.
- MqttMsg.GetTotalLength: a length field of more than four continuation bytes shifts past the width of `int` in C, which is undefined there; the model goes on counting in unbounded numbers.
- MqttMsg.Connection.MsgEmpty: the code does not check the buffer length here; the model asks for a buffer of at least three bytes when a connection object is made.
- MqttMsg.Connection.MsgPublish: string lengths are those of the arguments; a topic of 65536 bytes or more, which no buffer of the client holds, is outside the round trip.
- MqttClient.Client.Task: whether a packet that the connection accepts reaches the server is up to TCP; `pending_msg_id` is left out, since the client only prints by it.
- MqttClient.Client.Receive: a segment on which the loop does not end is no event of a run; a data callback that calls back into the client while a segment is being read is not modelled; neither are the connection, published and timeout callbacks.
- MqttClient.Client.DnsFound: whether the client already knows an address is a parameter.
- MqttClient.Client.Connect: allocation failures and the choice between an address and a name to look up are left out.
- DeviceConfig.DeviceStore.SaveConfig: data longer than 4020 bytes, which would reach into the next, unerased sector, and errors of the flash and of allocation are left out.
- DeviceConfig.DeviceStore.SetDeviceData: likewise.
- DeviceCuts.CutSaveLoadsIff: what is done with a length that does not fit the sector depends on the heap and on the sectors behind, and is left open.
- DeviceConfig.DeviceStore.SetDeviceType: the default data of a camera is a parameter; the start of the new device behind the save is left out.
- FlashConfig.ConfigStore.Save: errors that the SDK returns from `spi_flash_*` are not checked by the code and not modelled.
- FlashConfig.ConfigStore.Load: the default configuration, which contains the chip's number, is a parameter.
- SoftUart.SoftwareUart.ReadByte: the clock is ideal, and the interrupt status register tells whether there was an edge; an edge while the handler runs is lost.
- Slip.Port.ReadBytes: a port that delivers nothing makes the tool wait; time-outs are left out.
- Server.TcpServer.Task: messages that the parser sends while it handles an RX signal count as events of their own.
- The order in which the SDK's task queue delivers posted signals is arbitrary in the server's model.
- Preemption inside one ring operation, which the code only asks its callers to prevent.
- `PROTO_Add` and `PROTO_Parse`, unused here, and the UNSUBSCRIBE builder, which repeats the SUBSCRIBE builder.
- Retransmission and exactly-once delivery for QoS 2, for which the client keeps no state.
- The UDP side of the server, which repeats the TCP side, and the commands of the camera, heater and lights.
- `user/temperature.c`, `user/parser.c`, `user/wifi.c`, `user/network_cmds.c`, Wi-Fi and GPIO set-up: I/O and string dispatch.
- Reading and printing dotted addresses (`UTILS_StrToIP`, `inet_ntoa`), `UTILS_IsIPV4` and `UTILS_Atoh`: easy members.
- The serial commands and the ELF reader of `esptool.py`.
- TLS, DNS and debug output.
