/** The packet builders and decoders over buffers (esp_mqtt/mqtt/mqtt_msg.c). */
module MqttMsg {
  import opened Octets
  import opened MqttWire
  import opened MqttConnect

  const MAX_FIXED_HEADER_SIZE: nat := 3

  /** What the builders leave as the packet: the fixed header in at most three bytes. */
  function Finished(first: byte, body: seq<byte>): seq<byte> {
    (if |body| > 127 then [first, 128 + |body| % 128, |body| / 128 % 256] else [first, |body|]) + body
  }

  /** A packet as the builders give it out: nothing if it does not fit the buffer. */
  function Built(first: byte, body: seq<byte>, bufferLength: nat): seq<byte> {
    if MAX_FIXED_HEADER_SIZE + |body| > bufferLength then [] else Finished(first, body)
  }

  function PublishParts(topic: seq<byte>, qos: int, id: uint16, payload: seq<byte>): seq<byte> {
    Str(topic) + (if qos > 0 then Word(id) else []) + payload
  }

  function SubscribeParts(id: uint16, topic: seq<byte>, qos: byte): seq<byte> {
    Word(id) + Str(topic) + [qos]
  }

  /** The header agrees with the standard exactly up to a Remaining Length of 16383. */
  lemma FinishedIsStandard(first: byte, body: seq<byte>)
    ensures Finished(first, body) == Wire(first, body) <==> |body| <= 16383
  {
    var n := |body|;
    if n <= 127 {
      assert Wire(first, body) == [first] + [n] + body;
    } else if n <= 16383 {
      assert EncodedLength(n) == [128 + n % 128, n / 128];
      assert Finished(first, body) == Wire(first, body);
    } else {
      assert EncodedLength(n / 128) == [128 + n / 128 % 128] + EncodedLength(n / 128 / 128);
      assert |Wire(first, body)| > n + 3;
    }
  }

  /** For every topic, payload, QoS and retain flag whose packet fits the buffer and has a
      Remaining Length of at most 16383, what the builder makes is read back: by the
      getters of the first byte, and by the decoders from any buffer starting with it. */
  lemma PublishBuiltAndRead(topic: seq<byte>, payload: seq<byte>, qos: nat, retain: nat, id: uint16,
                            bufferLength: nat, w: seq<byte>, after: seq<byte>, limit: nat)
    requires topic != [] && qos <= 2 && retain <= 1
    requires |PublishParts(topic, qos, id, payload)| <= 16383
    requires 3 + |PublishParts(topic, qos, id, payload)| <= bufferLength
    requires w == Built(Flags(PUBLISH, 0, qos, retain), PublishParts(topic, qos, id, payload), bufferLength)
    requires |w| <= limit <= |w + after|
    ensures var s := w + after;
            && GetType(s[0]) == PUBLISH && GetDup(s[0]) == 0 && GetQos(s[0]) == qos && GetRetain(s[0]) == retain
            && TotalLength(s, limit) == |w|
            && PublishTopic(s, limit).Some? && TopicRead(s, limit) == topic
            && (PayloadRead(s, limit) == Some(payload) <==> qos == 0 || payload != [] || |w| < limit)
            && MsgId(s, limit) == (if qos > 0 && (payload != [] || |w| < limit) then id else 0)
  {
    var m := PublishFor(topic, payload, qos, retain, id);
    PublishForIs(topic, payload, qos, retain, id);
    FinishedIsStandard(m.first, PublishBody(m));
    PublishRoundTrip(m, PublishWire(m) + after, after, limit);
  }

  function PublishFor(topic: seq<byte>, payload: seq<byte>, qos: nat, retain: nat, id: uint16): Publish {
    Publish(Flags(PUBLISH, 0, qos, retain), topic, id, payload)
  }

  lemma PublishForIs(topic: seq<byte>, payload: seq<byte>, qos: nat, retain: nat, id: uint16)
    requires topic != [] && |topic| < 0x1_0000 && qos <= 2 && retain <= 1
    ensures var m := PublishFor(topic, payload, qos, retain, id);
            && ValidPublish(m) && Qos(m) == qos && GetDup(m.first) == 0 && GetRetain(m.first) == retain
            && PublishBody(m) == PublishParts(topic, qos, id, payload)
  {
    hide Flags, GetType, GetDup, GetQos, GetRetain, Word;
    FlagsRead(PUBLISH, 0, qos, retain);
  }

  /** The identifier of a SUBSCRIBE is read back exactly when its Remaining Length takes one byte. */
  lemma SubscribeIdRead(first: byte, id: uint16, topic: seq<byte>, qos: byte, w: seq<byte>)
    requires GetType(first) == SUBSCRIBE && id != 0 && w == Finished(first, SubscribeParts(id, topic, qos))
    ensures MsgId(w, |w|) == id <==> |SubscribeParts(id, topic, qos)| <= 127
  {
    var body := SubscribeParts(id, topic, qos);
    if |body| <= 127 {
      assert w[2..4] == Word(id);
      WordRead(w, 2, id);
    }
  }

  /** The identifier after `c`: the counter wraps past 0. */
  function FreshId(c: uint16): uint16 {
    if c == 0xFFFF then 1 else c + 1
  }

  /** The identifier that allocation number `n` (from 0) yields when the counter starts at `c`. */
  function NthId(c: uint16, n: nat): uint16 {
    if n == 0 then FreshId(c) else FreshId(NthId(c, n - 1))
  }

  lemma {:induction false} NthIdIs(c: uint16, n: nat)
    ensures NthId(c, n) == (FreshId(c) - 1 + n) % 0xFFFF + 1
  {
    if n > 0 {
      NthIdIs(c, n - 1);
    }
  }

  /** No identifier is 0, and within any 65535 consecutive allocations none repeats. */
  lemma IdsDistinct(c: uint16, i: nat, j: nat)
    requires i < j < i + 0xFFFF
    ensures NthId(c, i) != 0 && NthId(c, i) != NthId(c, j)
  {
    NthIdIs(c, i);
    NthIdIs(c, j);
  }

  class Connection {
    var buffer: array<byte>
    var bufferLength: nat
    var length: nat // message.length
    var data: nat   // message.data - buffer
    var messageId: uint16
    ghost var body: seq<byte>    // what a packet under construction holds so far
    ghost var message: seq<byte> // the finished packet

    ghost predicate Valid()
      reads this
    {
      3 <= bufferLength <= buffer.Length && bufferLength < 0x1_0000
    }

    /** A packet is under construction behind the room for its fixed header. */
    ghost predicate Building()
      reads this, buffer
    {
      && Valid()
      && MAX_FIXED_HEADER_SIZE <= length <= bufferLength
      && body == buffer[MAX_FIXED_HEADER_SIZE..length]
    }

    /** A packet, or a failure of length 0, is ready. */
    ghost predicate Ready()
      reads this, buffer
    {
      && Valid()
      && data <= 1 && (length == 0 ==> data == 0)
      && data + length <= bufferLength && message == buffer[data..data + length]
    }

    constructor (buffer: array<byte>, bufferLength: nat)
      requires 3 <= bufferLength <= buffer.Length && bufferLength < 0x1_0000
      ensures Valid() && this.buffer == buffer && this.bufferLength == bufferLength && messageId == 0
      ensures Ready() && message == []
    {
      this.buffer, this.bufferLength := buffer, bufferLength;
      length, data, messageId, body, message := 0, 0, 0, [], [];
    }

    /** Sets a connection up again. Only the first pointer is cleared, so the identifiers
        go on from where they were. */
    method Reset(buffer: array<byte>, bufferLength: nat)
      requires 3 <= bufferLength <= buffer.Length && bufferLength < 0x1_0000
      modifies `buffer, `bufferLength
      ensures Valid() && this.buffer == buffer && this.bufferLength == bufferLength
      ensures messageId == old(messageId) && length == old(length)
    {
      this.buffer, this.bufferLength := buffer, bufferLength;
    }

    method InitMessage()
      requires Valid()
      modifies `length, `body
      ensures Building() && body == []
    {
      length, body := MAX_FIXED_HEADER_SIZE, [];
    }

    method AppendString(s: seq<byte>) returns (rc: int)
      requires Building()
      modifies `length, `body, buffer
      ensures Building()
      ensures rc == if old(length) + |s| + 2 > bufferLength then -1 else |s| + 2
      ensures body == if rc < 0 then old(body) else old(body) + Str(s)
    {
      if length + |s| + 2 > bufferLength {
        return -1;
      }
      PutWord(|s|);
      var _ := AppendBytes(s);
      assert body == old(body) + Str(s);
      return |s| + 2;
    }

    /** Two bytes, high one first. */
    method PutWord(n: nat)
      requires Building() && length + 2 <= bufferLength
      modifies `length, `body, buffer
      ensures Building() && length == old(length) + 2 && body == old(body) + Word(n)
    {
      buffer[length] := n / 256 % 256;
      buffer[length + 1] := n % 256;
      length := length + 2;
      body := body + Word(n);
    }

    /** The identifier given, or the next one of the counter when it is 0. */
    method AssignId(id: uint16) returns (r: uint16)
      modifies `messageId
      ensures messageId == if id == 0 then FreshId(old(messageId)) else old(messageId)
      ensures r == if id == 0 then messageId else id
    {
      r := id;
      while r == 0
        invariant r == 0 ==> id == 0 && (messageId == old(messageId) || (messageId == 0 && old(messageId) == 0xFFFF))
        invariant r != 0 ==> r == (if id == 0 then FreshId(old(messageId)) else id)
        invariant r != 0 ==> messageId == (if id == 0 then r else old(messageId))
        decreases r == 0, if messageId == 0xFFFF then 2 else 1
      {
        messageId := (messageId + 1) % 0x1_0000;
        r := messageId;
      }
    }

    method AppendMessageId(id: uint16) returns (r: uint16)
      requires Building()
      modifies `length, `messageId, `body, buffer
      ensures Building()
      ensures messageId == if id == 0 then FreshId(old(messageId)) else old(messageId)
      ensures r == if old(length) + 2 > bufferLength then 0 else if id == 0 then messageId else id
      ensures body == if r == 0 then old(body) else old(body) + Word(r)
    {
      r := AssignId(id);
      if length + 2 > bufferLength {
        return 0;
      }
      PutWord(r);
    }

    method AppendBytes(bytes: seq<byte>) returns (rc: int)
      requires Building()
      modifies `length, `body, buffer
      ensures Building()
      ensures rc == if old(length) + |bytes| > bufferLength then -1 else |bytes|
      ensures body == if rc < 0 then old(body) else old(body) + bytes
    {
      if length + |bytes| > bufferLength {
        return -1;
      }
      forall i | 0 <= i < |bytes| {
        buffer[length + i] := bytes[i];
      }
      length := length + |bytes|;
      body := body + bytes;
      return |bytes|;
    }

    method FailMessage()
      requires Valid()
      modifies `length, `data, `message
      ensures Ready() && message == []
    {
      data, length, message := 0, 0, [];
    }

    method FiniMessage(kind: int, dup: int, qos: int, retain: int)
      requires Building()
      modifies `length, `data, `message, buffer
      ensures Ready() && message == Finished(Flags(kind, dup, qos, retain), old(body))
      ensures data == if |old(body)| > 127 then 0 else 1
    {
      var remaining := length - MAX_FIXED_HEADER_SIZE;
      if remaining > 127 {
        buffer[0] := Flags(kind, dup, qos, retain);
        buffer[1] := 128 + remaining % 128;
        buffer[2] := remaining / 128 % 256;
        length, data := remaining + 3, 0;
      } else {
        buffer[1] := Flags(kind, dup, qos, retain);
        buffer[2] := remaining;
        length, data := remaining + 2, 1;
      }
      message := Finished(Flags(kind, dup, qos, retain), body);
    }

    /** PUBLISH. The identifier goes to `id`; `pending` is what it held before. */
    method MsgPublish(topic: seq<byte>, payload: seq<byte>, qos: int, retain: int, pending: uint16) returns (id: uint16)
      requires Valid()
      modifies this, buffer
      ensures Ready() && buffer == old(buffer) && bufferLength == old(bufferLength)
      ensures messageId
           == if qos > 0 && 0 < |topic| <= bufferLength - 5 then FreshId(old(messageId)) else old(messageId)
      ensures message == if topic == [] then [] else
                Built(Flags(PUBLISH, 0, qos, retain), PublishParts(topic, qos, messageId, payload), bufferLength)
      ensures id == if topic == [] || |topic| + 5 > bufferLength then pending
                    else if qos > 0 && |topic| + 7 <= bufferLength then messageId else 0
      ensures message != [] ==> id == if qos > 0 then messageId else 0
    {
      hide Finished, Flags, Str, Word;
      InitMessage();
      id := pending;
      if topic != [] {
        var rc := AppendString(topic);
        assert rc >= 0 ==> body == Str(topic);
        if rc >= 0 {
          rc, id := AppendIdIf(qos > 0);
          if rc >= 0 {
            rc := AppendBytes(payload);
            if rc >= 0 {
              FiniMessage(PUBLISH, 0, qos, retain);
              return;
            }
          }
        }
      }
      FailMessage();
    }

    method AppendIdIf(wanted: bool) returns (rc: int, id: uint16)
      requires Building()
      modifies `length, `messageId, `body, buffer
      ensures Building()
      ensures messageId == if wanted then FreshId(old(messageId)) else old(messageId)
      ensures rc < 0 <==> wanted && old(length) + 2 > bufferLength
      ensures id == if wanted && rc >= 0 then messageId else 0
      ensures rc >= 0 ==> body == old(body) + if wanted then Word(messageId) else []
    {
      if wanted {
        id := AppendMessageId(0);
        return if id == 0 then -1 else 0, id;
      }
      return 0, 0;
    }

    /** PUBACK, PUBREC, PUBREL (with QoS 1 in its flags) and PUBCOMP. */
    method MsgAck(kind: int, qos: int, id: uint16)
      requires Valid()
      modifies this, buffer
      ensures Ready() && buffer == old(buffer) && bufferLength == old(bufferLength)
      ensures messageId == if id == 0 then FreshId(old(messageId)) else old(messageId)
      ensures message == if bufferLength < 5 then []
                           else Finished(Flags(kind, 0, qos, 0), Word(if id == 0 then messageId else id))
    {
      InitMessage();
      var r := AppendMessageId(id);
      if r == 0 {
        FailMessage();
        return;
      }
      FiniMessage(kind, 0, qos, 0);
    }

    method MsgSubscribe(topic: seq<byte>, qos: byte, pending: uint16) returns (id: uint16)
      requires Valid()
      modifies this, buffer
      ensures Ready() && buffer == old(buffer) && bufferLength == old(bufferLength)
      ensures messageId == if topic == [] then old(messageId) else FreshId(old(messageId))
      ensures message == if topic == [] then [] else
                Built(Flags(SUBSCRIBE, 0, 1, 0), SubscribeParts(messageId, topic, qos), bufferLength)
      ensures id == if topic == [] then pending else if bufferLength < 5 then 0 else messageId
      ensures message != [] ==> id == messageId
    {
      hide Finished, Flags;
      InitMessage();
      id := pending;
      if topic != [] {
        id := AppendMessageId(0);
        if id != 0 {
          assert body == Word(id);
          var rc := AppendString(topic);
          if rc >= 0 {
            rc := AppendBytes([qos]);
            if rc >= 0 {
              FiniMessage(SUBSCRIBE, 0, 1, 0);
              return;
            }
          }
        }
      }
      FailMessage();
    }

    /** PINGREQ, PINGRESP and DISCONNECT. */
    method MsgEmpty(kind: int)
      requires Valid()
      modifies this, buffer
      ensures Ready() && buffer == old(buffer) && bufferLength == old(bufferLength) && messageId == old(messageId)
      ensures message == Finished(Flags(kind, 0, 0, 0), [])
    {
      InitMessage();
      FiniMessage(kind, 0, 0, 0);
    }

    /** Writes the variable header of a CONNECT with only the clean-session flag set. */
    method PutConnectHeader(info: ConnectInfo) returns (rc: int)
      requires Building() && body == []
      modifies `length, `body, buffer
      ensures Building()
      ensures rc == if 15 > bufferLength then -1 else 12
      ensures rc >= 0 ==> body == ConnectHeader(if info.cleanSession then 2 else 0, info.keepalive) + []
    {
      ghost var header := ConnectHeader(if info.cleanSession then 2 else 0, info.keepalive);
      var magic := PROTOCOL;
      rc := AppendBytes(magic + [if info.cleanSession then 2 else 0]
                        + [info.keepalive / 256 % 256, info.keepalive % 256]);
      assert rc >= 0 ==> body == header + [];
    }

    /** `flags |= v` for bits not set before. */
    method OrFlags(v: byte, ghost f: byte, ghost keepalive: nat, ghost fields: seq<byte>)
      requires Building() && body == ConnectHeader(f, keepalive) + fields && f + v < 0x100
      modifies `body, buffer
      ensures Building() && body == ConnectHeader(f + v, keepalive) + fields
    {
      assert buffer[MAX_FIXED_HEADER_SIZE + 9] == body[9] == f;
      buffer[MAX_FIXED_HEADER_SIZE + 9] := buffer[MAX_FIXED_HEADER_SIZE + 9] + v;
      ghost var was := body;
      body := ConnectHeader(f + v, keepalive) + fields;
      assert body == was[9 := f + v];
    }

    /** Appends an optional string and, when it is there, its flag. */
    method AppendFlagged(s: seq<byte>, v: byte, ghost f: byte, ghost keepalive: nat, ghost fields: seq<byte>)
      returns (rc: int)
      requires Building() && body == ConnectHeader(f, keepalive) + fields && f + v < 0x100
      modifies `length, `body, buffer
      ensures Building()
      ensures rc < 0 <==> MAX_FIXED_HEADER_SIZE + 12 + |fields + OptionalStr(s)| > bufferLength
      ensures rc >= 0 ==>
                body == ConnectHeader(if s == [] then f else f + v, keepalive) + (fields + OptionalStr(s))
    {
      assert length == MAX_FIXED_HEADER_SIZE + |body|;
      hide Str, Word, ConnectHeader, Building;
      if s == [] {
        assert fields + [] == fields;
        return 0;
      }
      assert |fields + Str(s)| == |fields| + 2 + |s|;
      rc := AppendString(s);
      if rc >= 0 {
        ghost var header := ConnectHeader(f, keepalive);
        assert header + fields + Str(s) == header + (fields + Str(s));
        OrFlags(v, f, keepalive, fields + Str(s));
      }
    }

    method AppendWill(info: ConnectInfo, ghost f: byte, ghost fields: seq<byte>) returns (rc: int)
      requires Building() && body == ConnectHeader(f, info.keepalive) + fields && f + WillFlags(info) < 0x100
      modifies `length, `body, buffer
      ensures Building()
      ensures rc < 0 <==> MAX_FIXED_HEADER_SIZE + 12 + |fields + WillFields(info)| > bufferLength
      ensures rc >= 0 ==>
                body == ConnectHeader(f + WillFlags(info), info.keepalive) + (fields + WillFields(info))
    {
      hide Str, Word, ConnectHeader, ConnectFlags;
      if info.willTopic == [] {
        assert fields + [] == fields;
        return 0;
      }
      rc := AppendTwo(info.willTopic, info.willMessage);
      if rc >= 0 {
        assert body == ConnectHeader(f, info.keepalive) + (fields + WillFields(info));
        OrFlags(4 + (if info.willRetain then 32 else 0) + info.willQos % 4 * 8, f, info.keepalive,
                fields + WillFields(info));
      }
    }

    method AppendTwo(s: seq<byte>, t: seq<byte>) returns (rc: int)
      requires Building()
      modifies `length, `body, buffer
      ensures Building()
      ensures rc < 0 <==> old(length) + |Str(s) + Str(t)| > bufferLength
      ensures rc >= 0 ==> body == old(body) + (Str(s) + Str(t))
    {
      hide Str, Word;
      rc := AppendString(s);
      if rc >= 0 {
        rc := AppendString(t);
      }
    }

    method AppendCredentials(info: ConnectInfo, ghost f: byte, ghost fields: seq<byte>) returns (rc: int)
      requires Building() && body == ConnectHeader(f, info.keepalive) + fields && f < 64
      modifies `length, `body, buffer
      ensures Building()
      ensures rc < 0 <==> MAX_FIXED_HEADER_SIZE + 12 + |fields + Credentials(info)| > bufferLength
      ensures rc >= 0 ==>
        body == ConnectHeader(f + CredentialFlags(info), info.keepalive) + (fields + Credentials(info))
    {
      ghost var user := OptionalStr(info.username);
      rc := AppendFlagged(info.username, 128, f, info.keepalive, fields);
      if rc >= 0 {
        rc := AppendFlagged(info.password, 64, f + (if info.username == [] then 0 else 128),
                            info.keepalive, fields + user);
        assert fields + user + OptionalStr(info.password) == fields + Credentials(info);
      }
    }

    /** Appends client id, will and credentials, completing the flags. */
    method AppendFields(info: ConnectInfo) returns (rc: int)
      requires Building() && body == ConnectHeader(if info.cleanSession then 2 else 0, info.keepalive) + []
      modifies `length, `body, buffer
      ensures Building()
      ensures rc < 0 <==> MAX_FIXED_HEADER_SIZE + |ConnectBody(info)| > bufferLength
      ensures rc >= 0 ==> body == ConnectBody(info)
    {
      hide Str, Word, ConnectFlags, ConnectHeader, WillFlags, CredentialFlags;
      ghost var clean: byte := if info.cleanSession then 2 else 0;
      rc := AppendString(info.clientId);
      if rc >= 0 {
        assert body == ConnectHeader(clean, info.keepalive) + Str(info.clientId);
        rc := AppendOptions(info, clean);
      }
      ConnectBodyParts(info);
    }

    method AppendOptions(info: ConnectInfo, ghost clean: byte) returns (rc: int)
      requires Building() && body == ConnectHeader(clean, info.keepalive) + Str(info.clientId) && clean <= 2
      modifies `length, `body, buffer
      ensures Building()
      ensures rc < 0 <==> MAX_FIXED_HEADER_SIZE + 12 + |ConnectFields(info)| > bufferLength
      ensures rc >= 0 ==>
                body == ConnectHeader(clean + WillFlags(info) + CredentialFlags(info), info.keepalive)
                        + ConnectFields(info)
    {
      ghost var client := Str(info.clientId);
      rc := AppendWill(info, clean, client);
      if rc >= 0 {
        rc := AppendCredentials(info, clean + WillFlags(info), client + WillFields(info));
        assert client + WillFields(info) + Credentials(info) == ConnectFields(info);
      }
    }

    method MsgConnect(info: ConnectInfo)
      requires Valid()
      modifies this, buffer
      ensures Ready() && buffer == old(buffer) && bufferLength == old(bufferLength) && messageId == old(messageId)
      ensures message
           == if ConnectFits(info, bufferLength) then Finished(Flags(CONNECT, 0, 0, 0), ConnectBody(info)) else []
    {
      hide Finished, Flags;
      InitMessage();
      var rc := PutConnectHeader(info);
      if rc >= 0 && info.clientId != [] {
        rc := AppendFields(info);
        if rc >= 0 {
          FiniMessage(CONNECT, 0, 0, 0);
          return;
        }
      }
      FailMessage();
    }
  }

  // ----- the decoders

  lemma GroupAdded(total: nat, weight: nat, group: nat, rest: nat)
    ensures total + group * weight + (weight * 128) * rest == total + weight * (group + 128 * rest)
  {
  }

  /** Walks over the length field; `i` ends behind it and `value` is what it encodes. */
  method ScanLength(buffer: array<byte>, length: nat) returns (i: nat, value: nat)
    requires length <= buffer.Length
    ensures i == ScanEnd(buffer[..], 1, length) && value == ScanValue(buffer[..], 1, length)
  {
    hide GetType;
    ghost var s := buffer[..];
    var weight: nat := 1;
    i, value := 1, 0;
    while i < length
      invariant 1 <= i
      invariant value + weight * ScanValue(s, i, length) == ScanValue(s, 1, length)
      invariant ScanEnd(s, i, length) == ScanEnd(s, 1, length)
    {
      GroupAdded(value, weight, buffer[i] % 128, if buffer[i] < 128 then 0 else ScanValue(s, i + 1, length));
      value := value + buffer[i] % 128 * weight;
      if buffer[i] < 128 {
        i := i + 1;
        break;
      }
      i, weight := i + 1, weight * 128;
    }
  }

  method GetTotalLength(buffer: array<byte>, length: nat) returns (total: nat)
    requires length <= buffer.Length
    ensures total == TotalLength(buffer[..], length)
  {
    var i, value := ScanLength(buffer, length);
    total := value + i;
  }

  method GetPublishTopic(buffer: array<byte>, length: nat) returns (at: Option<nat>, n: nat)
    requires length <= buffer.Length
    ensures match PublishTopic(buffer[..], length)
            case Some((k, len)) => at == Some(k) && n == len
            case None => at == None && n == length
  {
    var i, _ := ScanLength(buffer, length);
    if i + 2 >= length {
      return None, length;
    }
    var hi: int := buffer[i];
    var topicLen := hi * 256 + buffer[i + 1];
    i := i + 2;
    if i + topicLen > length {
      return None, length;
    }
    return Some(i), topicLen;
  }

  method GetPublishData(buffer: array<byte>, length: nat) returns (at: Option<nat>, n: int)
    requires length <= buffer.Length
    ensures (at, n) == PublishData(buffer[..], length)
  {
    var i, value := ScanLength(buffer, length);
    var total := value + i;
    if i + 2 >= length {
      return None, length;
    }
    var hi: int := buffer[i];
    var topicLen := hi * 256 + buffer[i + 1];
    i := i + 2;
    if i + topicLen >= length {
      return None, 0;
    }
    i := i + topicLen;
    if GetQos(buffer[0]) > 0 {
      if i + 2 >= length {
        return None, length;
      }
      i := i + 2;
    }
    if total < i {
      return None, length;
    }
    return Some(i), if total <= length then total - i else length - i;
  }

  method GetId(buffer: array<byte>, length: nat) returns (id: uint16)
    requires length <= buffer.Length
    ensures id == MsgId(buffer[..], length)
  {
    if length < 1 {
      return 0;
    }
    var kind := GetType(buffer[0]);
    if kind == PUBLISH {
      var i, _ := ScanLength(buffer, length);
      if i + 2 >= length {
        return 0;
      }
      var hi: int := buffer[i];
      var topicLen := hi * 256 + buffer[i + 1];
      i := i + 2;
      if i + topicLen >= length {
        return 0;
      }
      i := i + topicLen;
      if GetQos(buffer[0]) == 0 || i + 2 >= length {
        return 0;
      }
      hi := buffer[i];
      return hi * 256 + buffer[i + 1];
    } else if kind in {PUBACK, PUBREC, PUBREL, PUBCOMP, SUBACK, UNSUBACK, SUBSCRIBE} {
      if length >= 4 && buffer[1] < 128 {
        var hi: int := buffer[2];
        return hi * 256 + buffer[3];
      }
      return 0;
    }
    return 0;
  }
}
