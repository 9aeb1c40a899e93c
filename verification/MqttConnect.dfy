/** The CONNECT packet (section 3.1 of MQTT 3.1.1): what the builder writes and what a
    server reads back from it. */
module MqttConnect {
  import opened Octets
  import opened MqttWire

  /** Absent strings are empty, as for the builder. */
  datatype ConnectInfo = ConnectInfo(
    clientId: seq<byte>, willTopic: seq<byte>, willMessage: seq<byte>, willQos: int, willRetain: bool,
    username: seq<byte>, password: seq<byte>, keepalive: nat, cleanSession: bool)

  /** The start of the variable header: protocol name "MQIsdp" and version 3. */
  const PROTOCOL: seq<byte> := [0, 6, 0x4D, 0x51, 0x49, 0x73, 0x64, 0x70, 3]

  function WillFlags(info: ConnectInfo): (f: byte)
    ensures f <= 60
  {
    if info.willTopic == [] then 0 else 4 + (if info.willRetain then 32 else 0) + info.willQos % 4 * 8
  }

  function CredentialFlags(info: ConnectInfo): byte {
    (if info.username == [] then 0 else 128) + (if info.password == [] then 0 else 64)
  }

  function ConnectFlags(info: ConnectInfo): byte {
    (if info.cleanSession then 2 else 0) + WillFlags(info) + CredentialFlags(info)
  }

  function OptionalStr(s: seq<byte>): seq<byte> {
    if s == [] then [] else Str(s)
  }

  function WillFields(info: ConnectInfo): seq<byte> {
    if info.willTopic == [] then [] else Str(info.willTopic) + Str(info.willMessage)
  }

  function ConnectHeader(flags: byte, keepalive: nat): (r: seq<byte>)
    ensures |r| == 12
  {
    PROTOCOL + [flags] + Word(keepalive)
  }

  function Credentials(info: ConnectInfo): seq<byte> {
    OptionalStr(info.username) + OptionalStr(info.password)
  }

  function ConnectFields(info: ConnectInfo): seq<byte> {
    Str(info.clientId) + (WillFields(info) + Credentials(info))
  }

  function ConnectBody(info: ConnectInfo): seq<byte> {
    ConnectHeader(ConnectFlags(info), info.keepalive) + ConnectFields(info)
  }

  lemma ConnectBodyParts(info: ConnectInfo)
    ensures |ConnectBody(info)| == 12 + |ConnectFields(info)|
    ensures ConnectBody(info)
         == ConnectHeader((if info.cleanSession then 2 else 0) + WillFlags(info) + CredentialFlags(info),
                          info.keepalive)
            + ConnectFields(info)
  {
  }

  predicate ConnectFits(info: ConnectInfo, bufferLength: nat) {
    info.clientId != [] && 3 + |ConnectBody(info)| <= bufferLength
  }

  // ----- the reader

  /** Reads a length-prefixed string when `present`; the rest follows. */
  function ReadStr(present: bool, s: seq<byte>): Option<(seq<byte>, seq<byte>)> {
    if !present then Some(([], s))
    else if |s| < 2 || |s| < 2 + WordAt(s, 0) then None
    else Some((s[2..2 + WordAt(s, 0)], s[2 + WordAt(s, 0)..]))
  }

  /** Reads the payload strings in the order and number that the flags announce. */
  function ReadFields(flags: byte, keepalive: uint16, s: seq<byte>): Option<ConnectInfo> {
    var will := flags / 4 % 2 == 1;
    match ReadStr(true, s) case None => None case Some((clientId, s1)) =>
    match ReadStr(will, s1) case None => None case Some((willTopic, s2)) =>
    match ReadStr(will, s2) case None => None case Some((willMessage, s3)) =>
    match ReadStr(flags / 128 == 1, s3) case None => None case Some((username, s4)) =>
    match ReadStr(flags / 64 % 2 == 1, s4) case None => None case Some((password, s5)) =>
    if s5 != [] then None else
      Some(ConnectInfo(clientId, willTopic, willMessage, flags / 8 % 4, flags / 32 % 2 == 1,
                       username, password, keepalive, flags / 2 % 2 == 1))
  }

  function ReadConnect(body: seq<byte>): Option<ConnectInfo> {
    if |body| < 12 || body[..9] != PROTOCOL then None
    else ReadFields(body[9], WordAt(body, 10), body[12..])
  }

  /** What the packet can carry of `info`: no will without a topic, two bits of QoS,
      16 bits of keep-alive. */
  function Carried(info: ConnectInfo): ConnectInfo {
    var kept := info.(keepalive := info.keepalive % 0x1_0000);
    if info.willTopic == [] then kept.(willMessage := [], willQos := 0, willRetain := false)
    else kept.(willQos := info.willQos % 4)
  }

  lemma ReadStrOf(present: bool, str: seq<byte>, rest: seq<byte>, s: seq<byte>)
    requires |str| < 0x1_0000 && (!present ==> str == [])
    requires s == (if present then Str(str) else []) + rest
    ensures ReadStr(present, s) == Some((str, rest))
  {
    if present {
      assert s == Word(|str|) + (str + rest);
      assert s[0..2] == Word(|str|) && s[2..] == str + rest;
      WordRead(s, 0, |str|);
      assert s[2..2 + |str|] == str && s[2 + |str|..] == rest;
    } else {
      assert s == rest;
    }
  }

  /** Each bit group of a flags byte put together from disjoint groups. */
  lemma BitGroups(clean: nat, will: nat, qos: nat, retain: nat, password: nat, username: nat)
    requires clean <= 1 && will <= 1 && qos <= 3 && retain <= 1 && password <= 1 && username <= 1
    ensures var f := clean * 2 + (will * 4 + retain * 32 + qos * 8) + (username * 128 + password * 64);
            && f / 2 % 2 == clean && f / 4 % 2 == will && f / 8 % 4 == qos
            && f / 32 % 2 == retain && f / 64 % 2 == password && f / 128 == username
  {
    var f := clean * 2 + (will * 4 + retain * 32 + qos * 8) + (username * 128 + password * 64);
    var a := password + 2 * username;
    var b := retain + 2 * a;
    var c := qos + 4 * b;
    var d := will + 2 * c;
    assert f / 2 == clean + 2 * d;
    assert f / 4 == d;
    assert f / 8 == c;
    assert f / 32 == b;
    assert f / 64 == a;
  }

  lemma FlagsAnnounce(info: ConnectInfo)
    ensures var f := ConnectFlags(info);
            && (f / 2 % 2 == 1 <==> info.cleanSession)
            && (f / 4 % 2 == 1 <==> info.willTopic != [])
            && f / 8 % 4 == (if info.willTopic == [] then 0 else info.willQos % 4)
            && (f / 32 % 2 == 1 <==> info.willTopic != [] && info.willRetain)
            && (f / 64 % 2 == 1 <==> info.password != [])
            && (f / 128 == 1 <==> info.username != [])
  {
    var will := info.willTopic != [];
    BitGroups(if info.cleanSession then 1 else 0, if will then 1 else 0, if will then info.willQos % 4 else 0,
              if will && info.willRetain then 1 else 0, if info.password == [] then 0 else 1,
              if info.username == [] then 0 else 1);
  }

  lemma HeaderRead(flags: byte, keepalive: nat, fields: seq<byte>, body: seq<byte>)
    requires body == ConnectHeader(flags, keepalive) + fields
    ensures |body| >= 12 && body[..9] == PROTOCOL && body[9] == flags && body[12..] == fields
    ensures WordAt(body, 10) == keepalive % 0x1_0000
  {
  }

  /** A CONNECT is self-describing: for every combination of fields present, reading it as
      its flags say gives back what was put in. */
  lemma ConnectRoundTrip(info: ConnectInfo)
    requires |info.clientId| < 0x1_0000 && |info.willTopic| < 0x1_0000
    requires info.willTopic != [] ==> |info.willMessage| < 0x1_0000
    requires |info.username| < 0x1_0000 && |info.password| < 0x1_0000
    ensures ReadConnect(ConnectBody(info)) == Some(Carried(info))
  {
    var body, fields := ConnectBody(info), ConnectFields(info);
    HeaderRead(ConnectFlags(info), info.keepalive, fields, body);
    FieldsRoundTrip(info);
  }

  lemma FieldsRoundTrip(info: ConnectInfo)
    requires |info.clientId| < 0x1_0000 && |info.willTopic| < 0x1_0000
    requires info.willTopic != [] ==> |info.willMessage| < 0x1_0000
    requires |info.username| < 0x1_0000 && |info.password| < 0x1_0000
    ensures ReadFields(ConnectFlags(info), info.keepalive % 0x1_0000, ConnectFields(info)) == Some(Carried(info))
  {
    FlagsAnnounce(info);
    ReadStrOf(true, info.clientId, WillFields(info) + Credentials(info), ConnectFields(info));
    var s2 := WillRead(info);
    CredentialsRead(info);
  }

  lemma WillRead(info: ConnectInfo) returns (s2: seq<byte>)
    requires |info.willTopic| < 0x1_0000 && (info.willTopic != [] ==> |info.willMessage| < 0x1_0000)
    ensures ReadStr(info.willTopic != [], WillFields(info) + Credentials(info)) == Some((info.willTopic, s2))
    ensures ReadStr(info.willTopic != [], s2)
         == Some((if info.willTopic == [] then [] else info.willMessage, Credentials(info)))
  {
    var will := info.willTopic != [];
    var message := if will then info.willMessage else [];
    s2 := (if will then Str(message) else []) + Credentials(info);
    assert WillFields(info) + Credentials(info) == OptionalStr(info.willTopic) + s2;
    ReadStrOf(will, info.willTopic, s2, WillFields(info) + Credentials(info));
    ReadStrOf(will, message, Credentials(info), s2);
  }

  lemma CredentialsRead(info: ConnectInfo)
    requires |info.username| < 0x1_0000 && |info.password| < 0x1_0000
    ensures ReadStr(info.username != [], Credentials(info)) == Some((info.username, OptionalStr(info.password)))
    ensures ReadStr(info.password != [], OptionalStr(info.password)) == Some((info.password, []))
  {
    ReadStrOf(info.username != [], info.username, OptionalStr(info.password), Credentials(info));
    assert OptionalStr(info.password) == (if info.password != [] then Str(info.password) else []) + [];
    ReadStrOf(info.password != [], info.password, [], OptionalStr(info.password));
  }
}
