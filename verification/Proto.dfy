/** The stuffing parser and writer over the ring (esp_mqtt/mqtt/proto.c). */
module Proto {
  import opened Octets
  import opened Framing
  import opened RingBuf

  /** The parser fields as a value; `data` is what the output buffer holds. */
  datatype ParserState = ParserState(data: seq<byte>, isEsc: bool, isBegin: bool)

  /** The longest prefix that fits a buffer of `n` bytes. */
  function Truncated(s: seq<byte>, n: nat): seq<byte> {
    if |s| <= n then s else s[..n]
  }

  /** The effect of one byte other than END. */
  function Fed(p: ParserState, v: byte, bufSize: nat): ParserState {
    if v == ESC then p.(isEsc := true)
    else if v == BEGIN then ParserState([], false, true)
    else if !p.isBegin then p
    else p.(data := Truncated(p.data + [if p.isEsc then Xor20(v) else v], bufSize), isEsc := false)
  }

  function FedAll(p: ParserState, s: seq<byte>, bufSize: nat): ParserState {
    if s == [] then p else Fed(FedAll(p, s[..|s| - 1], bufSize), s[|s| - 1], bufSize)
  }

  lemma {:induction false} FedAllConcat(p: ParserState, s: seq<byte>, t: seq<byte>, bufSize: nat)
    ensures FedAll(p, s + t, bufSize) == FedAll(FedAll(p, s, bufSize), t, bufSize)
    decreases |t|
  {
    if t == [] {
      assert s + t == s;
    } else {
      assert (s + t)[..|s + t| - 1] == s + t[..|t| - 1];
      FedAllConcat(p, s, t[..|t| - 1], bufSize);
    }
  }

  lemma TruncatedTwice(a: seq<byte>, b: seq<byte>, n: nat)
    ensures Truncated(Truncated(a, n) + b, n) == Truncated(a + b, n)
  {
  }

  lemma FedAllFirst(p: ParserState, s: seq<byte>, bufSize: nat)
    requires s != []
    ensures FedAll(p, s, bufSize) == FedAll(Fed(p, s[0], bufSize), s[1..], bufSize)
  {
    assert s == [s[0]] + s[1..];
    FedAllConcat(p, [s[0]], s[1..], bufSize);
    assert [s[0]][..0] == [];
  }

  /** Inside a frame the parser unstuffs, keeping what fits its buffer. */
  lemma {:induction false} ParserUnstuffs(p: ParserState, s: seq<byte>, bufSize: nat)
    requires p.isBegin && BEGIN !in s && END !in s && |p.data| <= bufSize
    ensures FedAll(p, s, bufSize).data == Truncated(p.data + Unstuffed(p.isEsc, s), bufSize)
    decreases |s|
  {
    hide Xor20, Truncated, FedAll, Unstuffed;
    UnstuffedStep(p.isEsc, s);
    if s == [] {
      assert p.data + [] == p.data;
      NothingFed(p, s, bufSize);
      TruncatedFits(p.data, bufSize);
    } else {
      var q := Fed(p, s[0], bufSize);
      FedAllFirst(p, s, bufSize);
      FedFits(p, s[0], bufSize);
      ParserUnstuffs(q, s[1..], bufSize);
      if s[0] != ESC {
        var c := [if p.isEsc then Xor20(s[0]) else s[0]];
        var t := Unstuffed(false, s[1..]);
        TruncatedTwice(p.data + c, t, bufSize);
        assert p.data + (c + t) == p.data + c + t;
      }
    }
  }

  lemma UnstuffedStep(isEsc: bool, s: seq<byte>)
    ensures s == [] ==> Unstuffed(isEsc, s) == []
    ensures s != [] && s[0] == ESC ==> Unstuffed(isEsc, s) == Unstuffed(true, s[1..])
    ensures s != [] && s[0] != ESC ==>
              Unstuffed(isEsc, s) == [if isEsc then Xor20(s[0]) else s[0]] + Unstuffed(false, s[1..])
  {
  }

  lemma TruncatedFits(s: seq<byte>, n: nat)
    requires |s| <= n
    ensures Truncated(s, n) == s
  {
  }

  lemma FedFits(p: ParserState, v: byte, bufSize: nat)
    requires |p.data| <= bufSize
    ensures |Fed(p, v, bufSize).data| <= bufSize
  {
  }

  /** BEGIN resynchronises: the outcome does not depend on the state before it. */
  lemma {:induction false} ParserResynchronises(p: ParserState, s: seq<byte>, bufSize: nat)
    requires BEGIN in s && END !in s
    ensures FedAll(p, s, bufSize).data == Truncated(Unstuffed(false, AfterLastBegin(s)), bufSize)
    decreases |s|
  {
    var q := Fed(p, s[0], bufSize);
    FedAllFirst(p, s, bufSize);
    if BEGIN in s[1..] {
      ParserResynchronises(q, s[1..], bufSize);
    } else {
      ParserUnstuffs(q, s[1..], bufSize);
      assert q.data + Unstuffed(false, s[1..]) == Unstuffed(false, s[1..]);
    }
  }

  class Parser {
    var buf: array<byte>
    var bufSize: nat
    var dataLen: nat
    var isEsc: bool
    var isBegin: bool

    ghost predicate Valid()
      reads this
    {
      dataLen <= bufSize <= buf.Length
    }

    ghost function State(): (p: ParserState)
      requires Valid()
      reads this, buf
      ensures dataLen <= bufSize && p.data == buf[..dataLen]
    {
      ParserState(buf[..dataLen], isEsc, isBegin)
    }

    /** `isBegin` is left at whatever the memory held. */
    constructor Init(buf: array<byte>, bufSize: nat, leftover: bool)
      requires bufSize <= buf.Length
      ensures Valid() && this.buf == buf && this.bufSize == bufSize
      ensures State() == ParserState([], false, leftover)
    {
      this.buf, this.bufSize, dataLen := buf, bufSize, 0;
      isEsc, isBegin := false, leftover;
    }

    /** Returns 0 when the byte completes a frame and -1 otherwise. */
    method ParseByte(value: byte) returns (rc: int)
      requires Valid()
      modifies this, buf
      ensures Valid() && buf == old(buf) && bufSize == old(bufSize)
      ensures rc == if value == END then 0 else -1
      ensures State() == if value == END then old(State()).(isBegin := false)
                         else Fed(old(State()), value, bufSize)
    {
      var v := value;
      if v == 0x7D {
        isEsc := true;
      } else if v == 0x7E {
        dataLen, isEsc, isBegin := 0, false, true;
      } else if v == 0x7F {
        isBegin := false;
        return 0;
      } else if isBegin {
        if isEsc {
          v := Xor20(v);
          isEsc := false;
        }
        if dataLen < bufSize {
          buf[dataLen] := v;
          dataLen := dataLen + 1;
        }
      }
      return -1;
    }
  }

  /** Feeding a stream up to its first END, from any parser state, yields its first packet. */
  lemma ParserReads(p: ParserState, s: seq<byte>, n: nat, bufSize: nat)
    requires WellFormed(s) && n < |s| && END !in s[..n] && s[n] == END
    ensures END in s && AfterFirstEnd(s) == s[n + 1..]
    ensures FedAll(p, s[..n], bufSize).data == Truncated(FirstPacket(s), bufSize)
  {
    assert forall k :: 0 <= k < n ==> s[k] == s[..n][k];
    assert FirstEnd(s) == n;
    assert FrameStart(s, 0) && s[0] == BEGIN;
    assert s[..n][0] == BEGIN;
    ParserResynchronises(p, s[..n], bufSize);
  }

  lemma FedOne(p: ParserState, s: seq<byte>, n: nat, bufSize: nat)
    requires n < |s| && END !in s[..n] && s[n] != END
    ensures END !in s[..n + 1]
    ensures FedAll(p, s[..n + 1], bufSize) == Fed(FedAll(p, s[..n], bufSize), s[n], bufSize)
  {
    assert s[..n + 1] == s[..n] + [s[n]];
    assert s[..n + 1][..n] == s[..n];
  }

  lemma NothingRead(s: seq<byte>)
    requires END !in s
    ensures AfterFirstEnd(s) == []
  {
  }

  lemma NothingFed(p: ParserState, s: seq<byte>, bufSize: nat)
    ensures FedAll(p, s[..0], bufSize) == p && FedAll(p, [], bufSize) == p
  {
  }

  /** Reads one packet off the ring. Frames cut off by a failed write are skipped;
      without a complete frame the ring is emptied. */
  method ParseRb(rb: Ring, bufOut: array<byte>, maxBufLen: nat) returns (rc: int, len: nat)
    requires rb.Valid() && rb.buf != bufOut && maxBufLen <= bufOut.Length
    requires WellFormed(rb.contents)
    modifies rb, bufOut
    ensures rb.Valid() && rb.buf == old(rb.buf) && rb.size == old(rb.size)
    ensures rb.contents == AfterFirstEnd(old(rb.contents))
    ensures rc == if END in old(rb.contents) then 0 else -1
    ensures rc == 0 ==> len <= maxBufLen && bufOut[..len] == Truncated(FirstPacket(old(rb.contents)), maxBufLen)
  {
    hide *;
    ghost var s := rb.contents;
    var leftover: bool := *;
    var parser := new Parser.Init(bufOut, maxBufLen, leftover);
    ghost var start := parser.State();
    ghost var n: nat := 0;
    NothingFed(start, s, maxBufLen);
    var got, c := rb.Get();
    while got == 0
      invariant rb.Valid() && rb.buf == old(rb.buf) && rb.size == old(rb.size)
      invariant parser.Valid() && parser.buf == bufOut && parser.bufSize == maxBufLen
      invariant n <= |s| && END !in s[..n]
      invariant if got == 0 then n < |s| && c == s[n] && rb.contents == s[n + 1..]
                else n == |s| && rb.contents == []
      invariant parser.State() == FedAll(start, s[..n], maxBufLen)
      decreases |s| - n, got == 0
    {
      var done := parser.ParseByte(c);
      if done == 0 {
        ParserReads(start, s, n, maxBufLen);
        return 0, parser.dataLen;
      }
      FedOne(start, s, n, maxBufLen);
      n := n + 1;
      got, c := rb.Get();
    }
    assert s[..n] == s;
    NothingRead(s);
    return -1, 0;
  }

  /** C conversion of a 16-bit count to the `I16` return type. */
  function ToI16(i: nat): (r: int)
    ensures i < 0x8000 ==> r == i
  {
    if i % 0x1_0000 < 0x8000 then i % 0x1_0000 else i % 0x1_0000 - 0x1_0000
  }

  /** What a write leaves in a ring of `size` bytes: the whole frame, or as much of it as fits. */
  function Written(s: seq<byte>, packet: seq<byte>, size: nat): seq<byte>
    requires |s| <= size
  {
    Stored(s, Encode(packet), size)
  }

  function Stored(s: seq<byte>, frame: seq<byte>, size: nat): seq<byte>
    requires |s| <= size
  {
    if |s| + |frame| <= size then s + frame else s + frame[..size - |s|]
  }

  /** What is left of a frame once its first `k` payload bytes are written. */
  ghost function Remaining(packet: seq<byte>, k: nat): seq<byte>
    requires k <= |packet|
  {
    Stuffed(packet[k..]) + [END]
  }

  lemma FrameHead(packet: seq<byte>)
    ensures Encode(packet)[0] == BEGIN && Encode(packet)[1..] == Remaining(packet, 0)
  {
    assert packet[0..] == packet;
  }

  lemma FrameLast(packet: seq<byte>, n: nat)
    requires n <= |Encode(packet)| && Encode(packet)[n..] == Remaining(packet, |packet|)
    ensures n + 1 == |Encode(packet)| && Encode(packet)[n] == END
  {
    assert Encode(packet)[n..] == [END];
  }

  /** The next payload byte, as it stands in the frame behind the `n` bytes already written. */
  lemma FrameStep(packet: seq<byte>, k: nat, n: nat)
    requires k < |packet| && n <= |Encode(packet)| && Encode(packet)[n..] == Remaining(packet, k)
    ensures n + |Stuff(packet[k])| < |Encode(packet)|
    ensures Encode(packet)[n] == Stuff(packet[k])[0]
    ensures Special(packet[k]) ==> Encode(packet)[n + 1] == Xor20(packet[k])
    ensures Encode(packet)[n + |Stuff(packet[k])|..] == Remaining(packet, k + 1)
  {
    var frame, unit := Encode(packet), Stuff(packet[k]);
    assert packet[k..][1..] == packet[k + 1..];
    assert frame[n..] == unit + Remaining(packet, k + 1);
    assert frame[n + |unit|..] == frame[n..][|unit|..];
    assert frame[n] == frame[n..][0];
    assert Special(packet[k]) ==> frame[n + 1] == frame[n..][1];
  }

  /** Puts byte `n` of a frame whose first `n` bytes are already in the ring. */
  method PutNext(rb: Ring, c: byte, ghost s: seq<byte>, ghost frame: seq<byte>, ghost n: nat) returns (rc: int)
    requires rb.Valid() && n < |frame| && c == frame[n] && rb.contents == s + frame[..n]
    modifies rb, rb.buf
    ensures rb.Valid() && rb.buf == old(rb.buf) && rb.size == old(rb.size)
    ensures rc == 0 ==> |s| + n < rb.size && rb.contents == s + frame[..n + 1]
    ensures rc != 0 ==> rc == -1 && |s| + |frame| > rb.size && rb.contents == Stored(s, frame, rb.size)
  {
    rc := rb.Put(c);
    assert s + frame[..n + 1] == s + frame[..n] + [c];
  }

  /** Puts one payload byte in its stuffed form; `used` is the number of bytes it takes. */
  method PutStuffed(rb: Ring, b: byte, ghost s: seq<byte>, ghost frame: seq<byte>, ghost n: nat)
    returns (rc: int, used: nat)
    requires rb.Valid() && n + |Stuff(b)| <= |frame| && rb.contents == s + frame[..n]
    requires frame[n] == Stuff(b)[0] && (Special(b) ==> frame[n + 1] == Xor20(b))
    modifies rb, rb.buf
    ensures rb.Valid() && rb.buf == old(rb.buf) && rb.size == old(rb.size)
    ensures rc == 0 ==> used == |Stuff(b)| && rb.contents == s + frame[..n + used]
    ensures rc != 0 ==> rc == -1 && |s| + |frame| > rb.size && rb.contents == Stored(s, frame, rb.size)
  {
    if b == 0x7D || b == 0x7E || b == 0x7F {
      rc := PutNext(rb, ESC, s, frame, n);
      if rc == -1 {
        return -1, 0;
      }
      rc := PutNext(rb, Xor20(b), s, frame, n + 1);
      used := 2;
    } else {
      rc := PutNext(rb, b, s, frame, n);
      used := 1;
    }
  }

  /** Puts the payload bytes one by one behind the BEGIN; `i` counts the frame's bytes plus one. */
  method PutBody(rb: Ring, packet: seq<byte>, ghost s: seq<byte>) returns (rc: int, i: nat)
    requires rb.Valid() && rb.contents == s + Encode(packet)[..1]
    modifies rb, rb.buf
    ensures rb.Valid() && rb.buf == old(rb.buf) && rb.size == old(rb.size)
    ensures rc == 0 ==> i == |Encode(packet)| && rb.contents == s + Encode(packet)[..i - 1]
    ensures rc != 0 ==> rc == -1 && |s| + |Encode(packet)| > rb.size
                        && rb.contents == Stored(s, Encode(packet), rb.size)
  {
    ghost var frame := Encode(packet);
    FrameHead(packet);
    rc, i := 0, 2;
    var k := 0;
    while k < |packet|
      invariant rb.Valid() && rb.buf == old(rb.buf) && rb.size == old(rb.size)
      invariant rc == 0 && 0 <= k <= |packet| && 2 <= i <= |frame| + 1
      invariant rb.contents == s + frame[..i - 1] && frame[i - 1..] == Remaining(packet, k)
    {
      FrameStep(packet, k, i - 1);
      var used;
      rc, used := PutStuffed(rb, packet[k], s, frame, i - 1);
      if rc == -1 {
        return;
      }
      i := i + used;
      k := k + 1;
    }
    FrameLast(packet, i - 1);
  }

  /** Writes one frame byte by byte, stopping where the ring is full. */
  method AddRb(rb: Ring, packet: seq<byte>) returns (rc: int)
    requires rb.Valid() && |packet| < 0x1_0000
    modifies rb, rb.buf
    ensures rb.Valid() && rb.buf == old(rb.buf) && rb.size == old(rb.size)
    ensures rb.contents == Written(old(rb.contents), packet, rb.size)
    ensures rc == if |old(rb.contents)| + |Encode(packet)| <= rb.size then ToI16(|Encode(packet)|) else -1
  {
    ghost var s, frame := rb.contents, Encode(packet);
    assert s + frame[..0] == s;
    var put := PutNext(rb, BEGIN, s, frame, 0);
    if put == -1 {
      return -1;
    }
    var i;
    put, i := PutBody(rb, packet, s);
    if put == -1 {
      return -1;
    }
    assert frame[..i] == frame;
    put := PutNext(rb, END, s, frame, i - 1);
    if put == -1 {
      return -1;
    }
    return ToI16(i);
  }
}
