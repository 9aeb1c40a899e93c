/** SLIP framing on the serial port (esp_mqtt/tools/esptool.py), as in RFC 1055. */
module Slip {
  import opened Octets

  const END: byte := 0xC0
  const ESC: byte := 0xDB
  const ESC_END: byte := 0xDC
  const ESC_ESC: byte := 0xDD

  function Escape(b: byte): seq<byte> {
    if b == END then [ESC, ESC_END] else if b == ESC then [ESC, ESC_ESC] else [b]
  }

  function Escaped(packet: seq<byte>): seq<byte> {
    if packet == [] then [] else Escaped(packet[..|packet| - 1]) + Escape(packet[|packet| - 1])
  }

  function Written(packet: seq<byte>): seq<byte> {
    [END] + Escaped(packet) + [END]
  }

  /** The port delivers `rest` after the bytes taken; a read that finds too few bytes
      does not return. */
  datatype ReadResult =
    | Got(bytes: seq<byte>, rest: seq<byte>)
    | InvalidEscape(rest: seq<byte>)
    | Waiting

  /** One unescaped byte. */
  function ReadOne(input: seq<byte>): ReadResult {
    if input == [] then Waiting
    else if input[0] != ESC then Got([input[0]], input[1..])
    else if |input| == 1 then Waiting
    else if input[1] == ESC_END then Got([END], input[2..])
    else if input[1] == ESC_ESC then Got([ESC], input[2..])
    else InvalidEscape(input[2..])
  }

  /** `length` unescaped bytes. */
  function Read(input: seq<byte>, length: nat): ReadResult {
    if length == 0 then Got([], input) else
      match Read(input, length - 1)
      case Got(bytes, rest) => (
        match ReadOne(rest)
        case Got(b, rest') => Got(bytes + b, rest')
        case other => other
      )
      case other => other
  }

  lemma {:induction false} EscapedConcat(p: seq<byte>, q: seq<byte>)
    ensures Escaped(p + q) == Escaped(p) + Escaped(q)
    decreases |q|
  {
    if q == [] {
      assert p + q == p;
    } else {
      var n := |q| - 1;
      assert (p + q)[..|p + q| - 1] == p + q[..n];
      EscapedConcat(p, q[..n]);
      assert Escaped(p) + (Escaped(q[..n]) + Escape(q[n])) == Escaped(p) + Escaped(q[..n]) + Escape(q[n]);
    }
  }

  /** The bytes of RFC 1055: 192 delimits, and 219 220 and 219 221 stand for 192 and 219. */
  lemma FrameBytes(packet: seq<byte>, b: byte)
    ensures Written(packet) == [0xC0] + Escaped(packet) + [0xC0] && Escaped([]) == []
    ensures Escaped(packet + [b])
         == Escaped(packet) + if b == 0xC0 then [0xDB, 0xDC] else if b == 0xDB then [0xDB, 0xDD] else [b]
    ensures b != 0xDC && b != 0xDD ==> ReadOne([0xDB, b]) == InvalidEscape([])
  {
    assert (packet + [b])[..|packet|] == packet;
  }

  /** A packet is read back from its escaped form, and nothing behind it is touched. */
  lemma {:induction false} ReadInvertsEscape(packet: seq<byte>, rest: seq<byte>)
    ensures Read(Escaped(packet) + rest, |packet|) == Got(packet, rest)
    decreases |packet|
  {
    if packet == [] {
      assert Escaped(packet) + rest == rest;
    } else {
      var n := |packet| - 1;
      var more := Escape(packet[n]) + rest;
      assert Escaped(packet) + rest == Escaped(packet[..n]) + more;
      ReadInvertsEscape(packet[..n], more);
      OneByte(packet[n], rest);
      assert packet[..n] + [packet[n]] == packet;
    }
  }

  lemma OneByte(b: byte, rest: seq<byte>)
    ensures ReadOne(Escape(b) + rest) == Got([b], rest)
  {
    var s := Escape(b) + rest;
    assert s[|Escape(b)|..] == rest;
  }

  /** No delimiter appears inside a frame. */
  lemma {:induction false} EscapedHasNoEnd(packet: seq<byte>)
    ensures END !in Escaped(packet)
  {
    if packet != [] {
      EscapedHasNoEnd(packet[..|packet| - 1]);
    }
  }

  /** A frame is read back in the pieces in which a response is parsed: the delimiter,
      the header, the body, the delimiter. */
  lemma FrameReadsBack(header: seq<byte>, body: seq<byte>, rest: seq<byte>)
    ensures var input := Written(header + body) + rest;
            && input[0] == END
            && Read(input[1..], |header|) == Got(header, Escaped(body) + [END] + rest)
            && Read(Escaped(body) + [END] + rest, |body|) == Got(body, [END] + rest)
  {
    hide Read, Escaped;
    var input := Written(header + body) + rest;
    var (h, b) := (Escaped(header), Escaped(body));
    EscapedConcat(header, body);
    var tail := b + [END] + rest;
    Regroup([END] + (h + b), [END], rest);
    Regroup([END], h + b, [END] + rest);
    Regroup(h, b, [END] + rest);
    Regroup(b, [END], rest);
    assert ([END] + (h + tail))[1..] == h + tail;
    ReadInvertsEscape(header, tail);
    ReadInvertsEscape(body, [END] + rest);
  }

  lemma Regroup(a: seq<byte>, b: seq<byte>, c: seq<byte>)
    ensures a + b + c == a + (b + c)
  {
  }

  // ----- the code

  class Port {
    var input: seq<byte>
    var output: seq<byte>

    constructor (input: seq<byte>)
      ensures this.input == input && output == []
    {
      this.input, output := input, [];
    }

    method Write(packet: seq<byte>)
      modifies this`output
      ensures output == old(output) + Written(packet)
    {
      var buf := [0xC0];
      for i := 0 to |packet|
        invariant buf == [END] + Escaped(packet[..i])
      {
        assert packet[..i + 1][..i] == packet[..i];
        if packet[i] == 0xC0 {
          buf := buf + [0xDB, 0xDC];
        } else if packet[i] == 0xDB {
          buf := buf + [0xDB, 0xDD];
        } else {
          buf := buf + [packet[i]];
        }
      }
      assert packet[..|packet|] == packet;
      output := output + (buf + [0xC0]);
    }

    /** One raw byte, if there is one. */
    method Take() returns (c: Option<byte>)
      modifies this`input
      ensures old(input) == [] ==> c == None && input == []
      ensures old(input) != [] ==> c == Some(old(input)[0]) && input == old(input)[1..]
    {
      if input == [] {
        return None;
      }
      c := Some(input[0]);
      input := input[1..];
    }

    method ReadBytes(length: nat) returns (r: ReadResult)
      modifies this`input
      ensures r == Read(old(input), length)
      ensures !r.Waiting? ==> input == r.rest
    {
      var b := [];
      while |b| < length
        invariant |b| <= length && Read(old(input), |b|) == Got(b, input)
        decreases length - |b|
      {
        ghost var before := input;
        ReadStays(old(input), |b| + 1, length);
        var c := Take();
        if c == None {
          return Waiting;
        }
        if c.value == 0xDB {
          c := Take();
          if c == None {
            return Waiting;
          }
          assert input == before[2..];
          if c.value == 0xDC {
            b := b + [0xC0];
          } else if c.value == 0xDD {
            b := b + [0xDB];
          } else {
            return InvalidEscape(input);
          }
        } else {
          b := b + [c.value];
        }
      }
      r := Got(b, input);
    }
  }

  /** Once a read fails, a longer one fails in the same way. */
  lemma {:induction false} ReadStays(input: seq<byte>, n: nat, m: nat)
    requires n <= m
    ensures !Read(input, n).Got? ==> Read(input, m) == Read(input, n)
    decreases m
  {
    if n < m {
      ReadStays(input, n, m - 1);
    }
  }
}
