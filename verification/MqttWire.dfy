/** MQTT control packets on values: how a packet is laid out, and what the decoders of
    esp_mqtt/mqtt/mqtt_msg.c make of a buffer. */
module MqttWire {
  import opened Octets

  const CONNECT := 1
  const CONNACK := 2
  const PUBLISH := 3
  const PUBACK := 4
  const PUBREC := 5
  const PUBREL := 6
  const PUBCOMP := 7
  const SUBSCRIBE := 8
  const SUBACK := 9
  const UNSUBSCRIBE := 10
  const UNSUBACK := 11
  const PINGREQ := 12
  const PINGRESP := 13
  const DISCONNECT := 14

  // ----- layout

  /** First byte of the fixed header. The `&` masks of the C code are remainders. */
  function Flags(kind: int, dup: int, qos: int, retain: int): byte {
    kind % 16 * 16 + dup % 2 * 8 + qos % 4 * 2 + retain % 2
  }

  function GetType(b: byte): nat { b / 16 }

  function GetDup(b: byte): nat { b / 8 % 2 }

  function GetQos(b: byte): nat { b / 2 % 4 }

  function GetRetain(b: byte): nat { b % 2 }

  /** Remaining Length as section 2.2.3 of MQTT 3.1.1 encodes it. */
  function EncodedLength(n: nat): (r: seq<byte>)
    ensures r != []
  {
    if n < 128 then [n] else [128 + n % 128] + EncodedLength(n / 128)
  }

  function Word(n: nat): (r: seq<byte>)
    ensures |r| == 2
  {
    [n / 256 % 256, n % 256]
  }

  /** A length-prefixed string. */
  function Str(s: seq<byte>): (r: seq<byte>)
    ensures |r| == 2 + |s|
  {
    Word(|s|) + s
  }

  function Wire(first: byte, body: seq<byte>): seq<byte> {
    [first] + EncodedLength(|body|) + body
  }

  /** A PUBLISH packet; its type, QoS and flags are those of its first byte. */
  datatype Publish = Publish(first: byte, topic: seq<byte>, id: uint16, payload: seq<byte>)

  ghost predicate ValidPublish(m: Publish) {
    GetType(m.first) == PUBLISH && 0 < |m.topic| < 0x1_0000
  }

  function Qos(m: Publish): nat { GetQos(m.first) }

  function IdField(m: Publish): seq<byte> {
    if Qos(m) > 0 then Word(m.id) else []
  }

  function PublishBody(m: Publish): seq<byte> {
    Str(m.topic) + IdField(m) + m.payload
  }

  function PublishWire(m: Publish): seq<byte> {
    Wire(m.first, PublishBody(m))
  }

  // ----- what the decoders compute

  /** Value of the length field at `i`, low-order groups first, read up to `limit`. */
  function ScanValue(s: seq<byte>, i: nat, limit: nat): nat
    requires limit <= |s|
    decreases limit - i
  {
    if i >= limit then 0
    else if s[i] < 128 then s[i]
    else s[i] - 128 + 128 * ScanValue(s, i + 1, limit)
  }

  /** Position behind the length field at `i`. */
  function ScanEnd(s: seq<byte>, i: nat, limit: nat): (e: nat)
    requires limit <= |s|
    ensures i <= e && (i < limit ==> i < e <= limit)
    ensures i >= limit ==> e == i
    decreases limit - i
  {
    if i >= limit then i else if s[i] < 128 then i + 1 else ScanEnd(s, i + 1, limit)
  }

  function TotalLength(s: seq<byte>, limit: nat): nat
    requires limit <= |s|
  {
    ScanValue(s, 1, limit) + ScanEnd(s, 1, limit)
  }

  function WordAt(s: seq<byte>, i: nat): uint16
    requires i + 1 < |s|
  {
    var hi: int := s[i];
    hi * 256 + s[i + 1]
  }

  /** Position and length of the topic. */
  function PublishTopic(s: seq<byte>, limit: nat): Option<(nat, nat)>
    requires limit <= |s|
  {
    var i := ScanEnd(s, 1, limit);
    if i + 2 >= limit then None else
      var n := WordAt(s, i);
      if i + 2 + n > limit then None else Some((i + 2, n))
  }

  /** Position of the payload, if any, and the length reported with it. */
  function PublishData(s: seq<byte>, limit: nat): (Option<nat>, int)
    requires limit <= |s|
  {
    var i := ScanEnd(s, 1, limit);
    if i + 2 >= limit then (None, limit) else
      var j := i + 2 + WordAt(s, i);
      if j >= limit then (None, 0)
      else if GetQos(s[0]) > 0 && j + 2 >= limit then (None, limit) else
        var k := if GetQos(s[0]) > 0 then j + 2 else j;
        var total := TotalLength(s, limit);
        if total < k then (None, limit)
        else (Some(k), if total <= limit then total - k else limit - k)
  }

  function MsgId(s: seq<byte>, limit: nat): uint16
    requires limit <= |s|
  {
    if limit < 1 then 0
    else if GetType(s[0]) == PUBLISH then
      var i := ScanEnd(s, 1, limit);
      if i + 2 >= limit then 0 else
        var j := i + 2 + WordAt(s, i);
        if j >= limit || GetQos(s[0]) == 0 || j + 2 >= limit then 0 else WordAt(s, j)
    else if GetType(s[0]) in {PUBACK, PUBREC, PUBREL, PUBCOMP, SUBACK, UNSUBACK, SUBSCRIBE} then
      if limit >= 4 && s[1] < 128 then WordAt(s, 2) else 0
    else 0
  }

  /** The types that carry an identifier, behind a Remaining Length of one byte: PUBACK, PUBREC,
      PUBREL, PUBCOMP, SUBSCRIBE, SUBACK and UNSUBACK; UNSUBSCRIBE is not read. */
  lemma IdRead(s: seq<byte>, limit: nat)
    requires 0 < limit <= |s| && s[0] / 16 != 3
    ensures MsgId(s, limit)
         == if (4 <= s[0] / 16 <= 9 || s[0] / 16 == 11) && limit >= 4 && s[1] < 128
            then 256 * s[2] as nat + s[3] as nat else 0
  {
  }

  // ----- the length field

  lemma {:induction false} ScanEncoded(s: seq<byte>, i: nat, n: nat, limit: nat)
    requires i + |EncodedLength(n)| <= limit <= |s|
    requires s[i..i + |EncodedLength(n)|] == EncodedLength(n)
    ensures ScanValue(s, i, limit) == n && ScanEnd(s, i, limit) == i + |EncodedLength(n)|
    decreases n
  {
    var e := EncodedLength(n);
    assert s[i] == s[i..i + |e|][0] == e[0];
    if n >= 128 {
      assert s[i + 1..i + |e|] == s[i..i + |e|][1..] == EncodedLength(n / 128);
      ScanEncoded(s, i + 1, n / 128, limit);
    }
  }

  /** The decoder inverts the standard encoder, whatever bytes follow. */
  lemma TotalLengthOfWire(first: byte, body: seq<byte>, after: seq<byte>, limit: nat)
    requires |Wire(first, body)| - |body| <= limit <= |Wire(first, body) + after|
    ensures var s := Wire(first, body) + after;
            && s[0] == first
            && TotalLength(s, limit) == |Wire(first, body)|
            && ScanEnd(s, 1, limit) == |Wire(first, body)| - |body|
  {
    var s, e := Wire(first, body) + after, EncodedLength(|body|);
    assert s == [first] + e + (body + after);
    assert s[1..1 + |e|] == e;
    ScanEncoded(s, 1, |body|, limit);
  }

  lemma BitsRead(kind: nat, dup: nat, qos: nat, retain: nat)
    requires kind < 16 && dup < 2 && qos < 4 && retain < 2
    ensures var b := kind * 16 + dup * 8 + qos * 2 + retain;
            GetType(b) == kind && GetDup(b) == dup && GetQos(b) == qos && GetRetain(b) == retain
  {
    var b := kind * 16 + dup * 8 + qos * 2 + retain;
    assert b / 2 == (kind * 2 + dup) * 4 + qos;
    assert b / 8 == kind * 2 + dup;
  }

  /** The getters recover what the flags byte was made of. */
  lemma FlagsRead(kind: nat, dup: nat, qos: nat, retain: nat)
    requires kind < 16 && dup < 2 && qos < 4 && retain < 2
    ensures var b := Flags(kind, dup, qos, retain);
            GetType(b) == kind && GetDup(b) == dup && GetQos(b) == qos && GetRetain(b) == retain
  {
    hide GetType, GetDup, GetQos, GetRetain;
    BitsRead(kind, dup, qos, retain);
  }

  // ----- PUBLISH

  /** A buffer holds `m` behind a fixed header of `h` bytes, `total` bytes in all. */
  ghost predicate Holds(s: seq<byte>, m: Publish, h: nat, total: nat) {
    var j := h + 2 + |m.topic|;
    var k := if Qos(m) > 0 then j + 2 else j;
    && 2 <= h && k + |m.payload| == total <= |s|
    && WordAt(s, h) == |m.topic|
    && s[h + 2..j] == m.topic
    && (Qos(m) > 0 ==> WordAt(s, j) == m.id)
    && s[k..total] == m.payload
  }

  lemma Parts(head: seq<byte>, a: seq<byte>, b: seq<byte>, c: seq<byte>, d: seq<byte>, after: seq<byte>, s: seq<byte>)
    requires s == head + (a + b + c + d) + after
    ensures |s| == |head| + |a| + |b| + |c| + |d| + |after|
    ensures s[|head|..|head| + |a|] == a
    ensures s[|head| + |a|..|head| + |a| + |b|] == b
    ensures s[|head| + |a| + |b|..|head| + |a| + |b| + |c|] == c
    ensures s[|head| + |a| + |b| + |c|..|head| + |a| + |b| + |c| + |d|] == d
  {
  }

  lemma WordRead(s: seq<byte>, i: nat, n: nat)
    requires n < 0x1_0000 && i + 2 <= |s| && s[i..i + 2] == Word(n)
    ensures WordAt(s, i) == n
  {
    assert s[i] == s[i..i + 2][0] && s[i + 1] == s[i..i + 2][1];
  }

  lemma PublishLayout(m: Publish, head: seq<byte>, after: seq<byte>, s: seq<byte>)
    requires ValidPublish(m) && 2 <= |head| && s == head + PublishBody(m) + after
    ensures Holds(s, m, |head|, |head| + |PublishBody(m)|)
  {
    var n, id := Word(|m.topic|), IdField(m);
    assert PublishBody(m) == n + m.topic + id + m.payload;
    Parts(head, n, m.topic, id, m.payload, after, s);
    WordRead(s, |head|, |m.topic|);
    if Qos(m) > 0 {
      WordRead(s, |head| + 2 + |m.topic|, m.id);
    }
  }

  lemma PublishDecoded(m: Publish, s: seq<byte>, limit: nat, h: nat, total: nat)
    requires ValidPublish(m) && total <= limit <= |s| && Holds(s, m, h, total)
    requires s[0] == m.first
    requires ScanEnd(s, 1, limit) == h && TotalLength(s, limit) == total
    ensures PublishTopic(s, limit) == Some((h + 2, |m.topic|)) && TopicRead(s, limit) == m.topic
    ensures PayloadRead(s, limit) == if Qos(m) == 0 || m.payload != [] || total < limit then Some(m.payload) else None
    ensures MsgId(s, limit) == if Qos(m) > 0 && (m.payload != [] || total < limit) then m.id else 0
  {
  }

  /** Every field of a PUBLISH comes back from a buffer that starts with it. The topic
      always does; the id and the payload of a packet with QoS above 0 do exactly when
      the limit leaves a byte behind the id, that is, unless the payload is empty and the
      limit is the exact packet length. */
  lemma PublishRoundTrip(m: Publish, s: seq<byte>, after: seq<byte>, limit: nat)
    requires ValidPublish(m) && s == PublishWire(m) + after && |PublishWire(m)| <= limit <= |s|
    ensures s[0] == m.first && TotalLength(s, limit) == |PublishWire(m)|
    ensures PublishTopic(s, limit).Some? && TopicRead(s, limit) == m.topic
    ensures PayloadRead(s, limit) == if Readable(m, limit) then Some(m.payload) else None
    ensures MsgId(s, limit) == if Qos(m) > 0 && Readable(m, limit) then m.id else 0
  {
    hide Holds, Str, Word, PublishBody, EncodedLength, ScanEnd, ScanValue, TotalLength;
    hide PublishTopic, PublishData, MsgId, PayloadRead, TopicRead;
    var body := PublishBody(m);
    var head := [m.first] + EncodedLength(|body|);
    TotalLengthOfWire(m.first, body, after, limit);
    PublishLayout(m, head, after, s);
    PublishDecoded(m, s, limit, |head|, |head| + |body|);
  }

  /** Where the parts of a PUBLISH start: variable header, identifier or payload, payload. */
  function HeaderEnd(m: Publish): nat { 1 + |EncodedLength(|PublishBody(m)|)| }

  function TopicEnd(m: Publish): nat { HeaderEnd(m) + 2 + |m.topic| }

  function PayloadStart(m: Publish): nat { TopicEnd(m) + if Qos(m) > 0 then 2 else 0 }

  /** Of a PUBLISH that is cut off behind its fixed header, the topic is read if it is whole, and
      as much of the payload as there is; a cut before or in the topic reads as an empty payload. */
  lemma PublishCut(m: Publish, s: seq<byte>, limit: nat)
    requires ValidPublish(m) && HeaderEnd(m) <= limit < |PublishWire(m)| && limit <= |s|
    requires s[..limit] == PublishWire(m)[..limit]
    ensures s[0] == m.first && TotalLength(s, limit) == |PublishWire(m)|
    ensures PublishTopic(s, limit).Some? <==> TopicEnd(m) <= limit
    ensures TopicEnd(m) <= limit ==> TopicRead(s, limit) == m.topic
    ensures PayloadStart(m) < limit <= PayloadStart(m) + |m.payload| ==>
              PayloadRead(s, limit) == Some(m.payload[..limit - PayloadStart(m)])
    ensures limit <= PayloadStart(m) ==>
              PayloadRead(s, limit) == if HeaderEnd(m) + 2 < limit <= TopicEnd(m) then Some([]) else None
  {
    hide Str, Word, PublishBody, EncodedLength, ScanEnd, ScanValue;
    var (w, h, body) := (PublishWire(m), HeaderEnd(m), PublishBody(m));
    var head := [m.first] + EncodedLength(|body|);
    assert w == head + body + [];
    PublishLayout(m, head, [], w);
    assert s[1..h] == s[..limit][1..h] == w[..limit][1..h] == EncodedLength(|body|);
    ScanEncoded(s, 1, |body|, limit);
    SameFront(s, w, limit);
    hide PublishTopic, TopicRead, PayloadRead;
    CutDecoded(m, s, w, limit, h);
  }

  lemma CutDecoded(m: Publish, s: seq<byte>, w: seq<byte>, limit: nat, h: nat)
    requires ValidPublish(m) && Holds(w, m, h, |w|) && h <= limit < |w| && limit <= |s|
    requires forall i :: 0 <= i < limit ==> s[i] == w[i]
    requires s[0] == m.first && ScanEnd(s, 1, limit) == h && TotalLength(s, limit) == |w|
    ensures var (j, k) := (h + 2 + |m.topic|, h + 2 + |m.topic| + if Qos(m) > 0 then 2 else 0);
            && (PublishTopic(s, limit).Some? <==> j <= limit)
            && (j <= limit ==> TopicRead(s, limit) == m.topic)
            && (k < limit ==> PayloadRead(s, limit) == Some(m.payload[..limit - k]))
            && (limit <= k ==> PayloadRead(s, limit) == if h + 2 < limit <= j then Some([]) else None)
  {
    hide ScanEnd, TotalLength;
    var (j, k) := (h + 2 + |m.topic|, h + 2 + |m.topic| + if Qos(m) > 0 then 2 else 0);
    if h + 2 < limit {
      assert WordAt(s, h) == WordAt(w, h) == |m.topic|;
      if j <= limit {
        assert s[h + 2..j] == w[h + 2..j];
      }
      if k < limit {
        assert s[k..limit] == w[k..limit] == w[k..|w|][..limit - k];
      }
    }
  }

  lemma SameFront(s: seq<byte>, w: seq<byte>, limit: nat)
    requires limit <= |s| && limit <= |w| && s[..limit] == w[..limit]
    ensures forall i :: 0 <= i < limit ==> s[i] == w[i]
    ensures forall i, j :: 0 <= i <= j <= limit ==> s[i..j] == w[i..j]
  {
    forall i | 0 <= i < limit
      ensures s[i] == w[i]
    {
      assert s[..limit][i] == w[..limit][i];
    }
  }

  /** The guard of the decoders: a payload byte or a byte behind the packet must follow the id. */
  predicate Readable(m: Publish, limit: nat) {
    Qos(m) == 0 || m.payload != [] || |PublishWire(m)| < limit
  }

  function TopicRead(s: seq<byte>, limit: nat): seq<byte>
    requires limit <= |s| && PublishTopic(s, limit).Some?
  {
    var (at, n) := PublishTopic(s, limit).value;
    s[at..at + n]
  }

  /** The payload a reader sees: no position with length 0 stands for an empty payload, and
      no position with any other length is no payload at all. */
  function PayloadRead(s: seq<byte>, limit: nat): Option<seq<byte>>
    requires limit <= |s|
  {
    var (at, n) := PublishData(s, limit);
    match at
    case Some(k) => if 0 <= n && k + n <= |s| then Some(s[k..k + n]) else None
    case None => if n == 0 then Some([]) else None
  }
}
