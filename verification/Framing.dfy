/** Byte stuffing (esp_mqtt/mqtt/proto.c) on values: the frame of a packet, and
    what a stream of whole and cut-off frames decodes to. */
module Framing {
  import opened Octets

  const ESC: byte := 0x7D
  const BEGIN: byte := 0x7E
  const END: byte := 0x7F

  predicate Special(b: byte) {
    b == ESC || b == BEGIN || b == END
  }

  /** The stuffed form of one payload byte. */
  function Stuff(b: byte): seq<byte> {
    if Special(b) then [ESC, Xor20(b)] else [b]
  }

  function Stuffed(packet: seq<byte>): seq<byte> {
    if packet == [] then [] else Stuff(packet[0]) + Stuffed(packet[1..])
  }

  function Encode(packet: seq<byte>): seq<byte> {
    [BEGIN] + Stuffed(packet) + [END]
  }

  function Unstuffed(isEsc: bool, s: seq<byte>): seq<byte>
    decreases |s|
  {
    if s == [] then []
    else if s[0] == ESC then Unstuffed(true, s[1..])
    else if isEsc then [Xor20(s[0])] + Unstuffed(false, s[1..])
    else [s[0]] + Unstuffed(false, s[1..])
  }

  /** What follows the last BEGIN of `s`. */
  function AfterLastBegin(s: seq<byte>): (r: seq<byte>)
    requires BEGIN in s
  {
    if BEGIN in s[1..] then AfterLastBegin(s[1..]) else s[1..]
  }

  /** Position of the first END, or the length when there is none. */
  function FirstEnd(s: seq<byte>): (i: nat)
    ensures i <= |s|
    ensures forall k :: 0 <= k < i ==> s[k] != END
    ensures i < |s| <==> END in s
    ensures i < |s| ==> s[i] == END
  {
    if s == [] || s[0] == END then 0 else 1 + FirstEnd(s[1..])
  }

  /** What one read leaves behind: everything after the first END. */
  function AfterFirstEnd(s: seq<byte>): seq<byte> {
    if END in s then s[FirstEnd(s) + 1..] else []
  }

  /** The packet delimited by the first END: frames cut off before it are skipped. */
  function FirstPacket(s: seq<byte>): seq<byte>
    requires END in s
  {
    var segment := s[..FirstEnd(s)];
    if BEGIN in segment then Unstuffed(false, AfterLastBegin(segment)) else []
  }

  /** All complete packets of a stream, oldest first. */
  function Decode(s: seq<byte>): seq<seq<byte>> {
    if END !in s then [] else [FirstPacket(s)] + Decode(AfterFirstEnd(s))
  }

  lemma DecodeHead(s: seq<byte>)
    ensures Decode(s) != [] <==> END in s
    ensures END in s ==> Decode(s)[0] == FirstPacket(s)
  {
  }

  /** Lengths of the END-terminated segments of a stream, oldest first. */
  function SegmentLengths(s: seq<byte>): (r: seq<nat>)
    ensures |r| == |Decode(s)|
  {
    if END !in s then [] else [FirstEnd(s) + 1] + SegmentLengths(AfterFirstEnd(s))
  }

  /** The invariant of the stream: wherever a reader may start, a frame starts. */
  ghost predicate WellFormed(s: seq<byte>) {
    forall i :: 0 <= i < |s| && FrameStart(s, i) ==> s[i] == BEGIN
  }

  ghost predicate FrameStart(s: seq<byte>, i: nat)
    requires i <= |s|
  {
    i == 0 || s[i - 1] == END
  }

  // ----- the frame of a packet

  /** Markers are 126 and 127; these and the escape 125 are sent as 125 and the byte with bit 5
      flipped. */
  lemma FrameBytes(packet: seq<byte>, b: byte)
    ensures Encode(packet) == [0x7E] + Stuffed(packet) + [0x7F] && Stuffed([]) == []
    ensures Stuffed([b] + packet)
         == (if b == 0x7D then [0x7D, 0x5D] else if b == 0x7E then [0x7D, 0x5E]
             else if b == 0x7F then [0x7D, 0x5F] else [b]) + Stuffed(packet)
  {
    assert ([b] + packet)[1..] == packet;
  }

  lemma {:induction false} StuffedHasNoDelimiter(p: seq<byte>)
    ensures BEGIN !in Stuffed(p) && END !in Stuffed(p)
  {
    if p != [] {
      StuffedHasNoDelimiter(p[1..]);
    }
  }

  /** Unstuffing takes one stuffed byte at a time. */
  lemma UnstuffedStuff(b: byte, rest: seq<byte>)
    ensures Unstuffed(false, Stuff(b) + rest) == [b] + Unstuffed(false, rest)
  {
    var s := Stuff(b) + rest;
    if Special(b) {
      assert s[1..] == [Xor20(b)] + rest;
      assert s[1..][1..] == rest;
      assert Unstuffed(false, s) == Unstuffed(true, s[1..]);
    } else {
      assert s[1..] == rest;
    }
  }

  lemma {:induction false} UnstuffedStuffed(p: seq<byte>)
    ensures Unstuffed(false, Stuffed(p)) == p
  {
    if p != [] {
      hide Stuff, Unstuffed;
      UnstuffedStuffed(p[1..]);
      UnstuffedStuff(p[0], Stuffed(p[1..]));
    }
  }

  lemma {:induction false} AfterLastBeginAppend(s: seq<byte>, t: seq<byte>)
    requires BEGIN !in t
    ensures BEGIN in s + [BEGIN] + t
    ensures AfterLastBegin(s + [BEGIN] + t) == t
  {
    var u := s + [BEGIN] + t;
    assert u[|s|] == BEGIN;
    if s == [] {
      assert u[1..] == t;
    } else {
      assert u[1..] == s[1..] + [BEGIN] + t;
      AfterLastBeginAppend(s[1..], t);
    }
  }

  // ----- decoding a stream that grows at its end

  lemma FirstEndAppend(s: seq<byte>, x: seq<byte>)
    requires END in s
    ensures FirstEnd(s + x) == FirstEnd(s) && FirstPacket(s + x) == FirstPacket(s)
    ensures AfterFirstEnd(s + x) == AfterFirstEnd(s) + x
  {
    hide FirstEnd, Unstuffed, AfterLastBegin;
    var i := FirstEnd(s);
    assert (s + x)[i] == s[i] == END;
    assert forall k :: 0 <= k < i ==> (s + x)[k] == s[k];
    assert FirstEnd(s + x) == i;
    assert (s + x)[..i] == s[..i];
  }

  /** A frame behind bytes without an END. */
  lemma FrameBehindCut(s: seq<byte>, p: seq<byte>)
    requires END !in s
    ensures var u := s + Encode(p);
            END in u && FirstPacket(u) == p && AfterFirstEnd(u) == []
  {
    hide FirstEnd, Unstuffed, AfterLastBegin, Stuffed;
    var u, segment := s + Encode(p), s + [BEGIN] + Stuffed(p);
    StuffedHasNoDelimiter(p);
    assert u == segment + [END];
    assert END !in segment && u[|segment|] == END;
    assert FirstEnd(u) == |segment| && u[..|segment|] == segment;
    AfterLastBeginAppend(s, Stuffed(p));
    UnstuffedStuffed(p);
  }

  /** A complete frame adds its packet at the end, whatever precedes it. */
  lemma {:induction false} DecodeAppendFrame(s: seq<byte>, p: seq<byte>)
    ensures Decode(s + Encode(p)) == Decode(s) + [p]
    decreases |s|
  {
    hide FirstEnd, FirstPacket, Encode;
    var x := Encode(p);
    if END in s {
      FirstEndAppend(s, x);
      ShorterAfterFirstEnd(s);
      DecodeAppendFrame(AfterFirstEnd(s), p);
    } else {
      FrameBehindCut(s, p);
    }
  }

  lemma ShorterAfterFirstEnd(s: seq<byte>)
    requires END in s
    ensures |AfterFirstEnd(s)| < |s|
  {
  }

  /** Bytes without an END add no packet. */
  lemma {:induction false} DecodeAppendCut(s: seq<byte>, x: seq<byte>)
    requires END !in x
    ensures Decode(s + x) == Decode(s) && SegmentLengths(s + x) == SegmentLengths(s)
    decreases |s|
  {
    if END in s {
      FirstEndAppend(s, x);
      DecodeAppendCut(AfterFirstEnd(s), x);
    }
  }

  /** A frame that lost its last bytes has no END. */
  lemma CutFrameHasNoEnd(p: seq<byte>, k: nat)
    requires k < |Encode(p)|
    ensures END !in Encode(p)[..k]
  {
    StuffedHasNoDelimiter(p);
    assert Encode(p)[..k] <= [BEGIN] + Stuffed(p);
    assert forall i :: 0 <= i < k ==> Encode(p)[..k][i] == ([BEGIN] + Stuffed(p))[i];
  }

  /** The invariant survives the append of a whole or cut-off frame... */
  lemma WellFormedAppend(s: seq<byte>, p: seq<byte>, k: nat)
    requires WellFormed(s) && k <= |Encode(p)|
    ensures WellFormed(s + Encode(p)[..k])
  {
    var x := Encode(p)[..k];
    var u := s + x;
    StuffedHasNoDelimiter(p);
    forall j | |s| <= j < |u| - 1
      ensures u[j] != END
    {
      assert u[j] == ([BEGIN] + Stuffed(p))[j - |s|];
    }
    forall i | 0 <= i < |u| && FrameStart(u, i)
      ensures u[i] == BEGIN
    {
      if i < |s| {
        assert i > 0 ==> s[i - 1] == u[i - 1];
        assert FrameStart(s, i);
      }
    }
  }

  /** ...and the removal of everything up to the first END. */
  lemma WellFormedAfterFirstEnd(s: seq<byte>)
    requires WellFormed(s)
    ensures WellFormed(AfterFirstEnd(s))
  {
    if END in s {
      var d := FirstEnd(s) + 1;
      var u := s[d..];
      forall i | 0 <= i < |u| && FrameStart(u, i)
        ensures u[i] == BEGIN
      {
        assert u[i] == s[d + i] && FrameStart(s, d + i);
      }
    }
  }
}
