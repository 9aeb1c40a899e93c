/** The outbound packet queue (esp_mqtt/mqtt/queue.c) and the drop-oldest loop of
    MQTT_Publish and MQTT_Subscribe (esp_mqtt/mqtt/mqtt.c). */
module PacketQueue {
  import opened Octets
  import opened Framing
  import opened RingBuf
  import Proto

  const MQTT_BUF_SIZE: nat := 1024

  class Queue {
    const rb: Ring

    ghost predicate Valid()
      reads rb, rb.buf
    {
      rb.Valid() && rb.size < 0x8000 && WellFormed(rb.contents)
    }

    /** The packets a reader would get, oldest first. */
    ghost function Packets(): seq<seq<byte>>
      reads rb
    {
      Decode(rb.contents)
    }

    constructor (bufferSize: nat)
      requires 2 <= bufferSize < 0x8000
      ensures Valid() && fresh(rb) && fresh(rb.buf) && rb.size == bufferSize && rb.contents == []
    {
      rb := new Ring();
      new;
      var buf := new byte[bufferSize](_ => 0);
      var _ := rb.Init(buf, bufferSize);
    }

    /** A refused packet leaves the start of its frame behind, which no reader sees. */
    method Puts(packet: seq<byte>) returns (rc: int)
      requires Valid() && |packet| < 0x1_0000
      modifies rb, rb.buf
      ensures Valid() && rb.buf == old(rb.buf) && rb.size == old(rb.size)
      ensures rb.contents == Proto.Written(old(rb.contents), packet, rb.size)
      ensures rc == -1 <==> |old(rb.contents)| + |Encode(packet)| > rb.size
      ensures Packets() == if rc == -1 then old(Packets()) else old(Packets()) + [packet]
    {
      WrittenDecodes(rb.contents, packet, rb.size);
      rc := Proto.AddRb(rb, packet);
    }

    /** Returns the oldest packet, cut to `maxLen` bytes; fails, and empties the
        ring, exactly when there is none. */
    method Gets(buffer: array<byte>, maxLen: nat) returns (rc: int, len: nat)
      requires Valid() && buffer != rb.buf && maxLen <= buffer.Length
      modifies rb, buffer
      ensures Valid() && rb.buf == old(rb.buf) && rb.size == old(rb.size)
      ensures rb.contents == AfterFirstEnd(old(rb.contents))
      ensures rc == if old(Packets()) == [] then -1 else 0
      ensures rc == 0 ==> Packets() == old(Packets())[1..]
      ensures rc == 0 ==> len <= maxLen && buffer[..len] == Proto.Truncated(old(Packets())[0], maxLen)
    {
      WellFormedAfterFirstEnd(rb.contents);
      rc, len := Proto.ParseRb(rb, buffer, maxLen);
    }

    method IsEmpty() returns (b: bool)
      requires Valid()
      ensures b <==> rb.contents == []
    {
      b := rb.fillCnt <= 0;
    }

    /** Queues a packet, dropping the oldest ones until it fits. */
    method PutDroppingOldest(packet: seq<byte>) returns (ok: bool)
      requires Valid() && |packet| < 0x1_0000
      modifies rb, rb.buf
      ensures Valid() && rb.buf == old(rb.buf) && rb.size == old(rb.size)
      ensures (rb.contents, ok) == Dropping(old(rb.contents), packet, rb.size)
      ensures ok <==> Dropped(old(rb.contents), packet, rb.size) <= |old(Packets())|
      ensures ok ==> Packets() == old(Packets())[Dropped(old(rb.contents), packet, rb.size)..] + [packet]
      ensures !ok ==> rb.contents == []
    {
      DroppingOutcome(rb.contents, packet, rb.size);
      var dataBuffer := new byte[MQTT_BUF_SIZE](_ => 0);
      ghost var target := Dropping(rb.contents, packet, rb.size);
      var rc := Puts(packet);
      while rc == -1
        invariant Valid() && rb.buf == old(rb.buf) && rb.size == old(rb.size)
        invariant if rc == -1 then DroppingAfterFailure(rb.contents, packet, rb.size) == target
                  else target == (rb.contents, true)
        decreases |Packets()|, rc == -1
      {
        var got, _ := Gets(dataBuffer, MQTT_BUF_SIZE);
        if got == -1 {
          return false;
        }
        rc := Puts(packet);
      }
      return true;
    }
  }

  // ----- one write, one read

  lemma WrittenDecodes(s: seq<byte>, p: seq<byte>, size: nat)
    requires |s| <= size
    ensures |Proto.Written(s, p, size)| <= size
    ensures WellFormed(s) ==> WellFormed(Proto.Written(s, p, size))
    ensures |s| + |Encode(p)| <= size ==> Decode(Proto.Written(s, p, size)) == Decode(s) + [p]
    ensures |s| + |Encode(p)| > size ==>
              && |Proto.Written(s, p, size)| == size
              && Decode(Proto.Written(s, p, size)) == Decode(s)
              && SegmentLengths(Proto.Written(s, p, size)) == SegmentLengths(s)
  {
    var frame := Encode(p);
    if |s| + |frame| <= size {
      DecodeAppendFrame(s, p);
      if WellFormed(s) {
        assert frame[..|frame|] == frame;
        WellFormedAppend(s, p, |frame|);
      }
    } else {
      CutFrameHasNoEnd(p, size - |s|);
      DecodeAppendCut(s, frame[..size - |s|]);
      if WellFormed(s) {
        WellFormedAppend(s, p, size - |s|);
      }
    }
  }

  // ----- runs of writes and reads

  datatype Op = Put(packet: seq<byte>) | Get

  /** A ring with the packets accepted into it and delivered from it so far. */
  datatype Run = Run(ring: seq<byte>, accepted: seq<seq<byte>>, delivered: seq<seq<byte>>)

  function Step(r: Run, op: Op, size: nat, maxLen: nat): Run
    requires |r.ring| <= size
  {
    match op
    case Put(p) =>
      Run(Proto.Written(r.ring, p, size),
          if |r.ring| + |Encode(p)| <= size then r.accepted + [p] else r.accepted, r.delivered)
    case Get =>
      Run(AfterFirstEnd(r.ring), r.accepted,
          if END in r.ring then r.delivered + [Proto.Truncated(FirstPacket(r.ring), maxLen)] else r.delivered)
  }

  function Steps(r: Run, ops: seq<Op>, size: nat, maxLen: nat): (r': Run)
    requires |r.ring| <= size
    ensures |r'.ring| <= size
    decreases |ops|
  {
    if ops == [] then r else
      WrittenFits(r, ops[0], size, maxLen);
      Steps(Step(r, ops[0], size, maxLen), ops[1..], size, maxLen)
  }

  lemma WrittenFits(r: Run, op: Op, size: nat, maxLen: nat)
    requires |r.ring| <= size
    ensures |Step(r, op, size, maxLen).ring| <= size
  {
  }

  function TruncateAll(ps: seq<seq<byte>>, maxLen: nat): (r: seq<seq<byte>>)
    ensures |r| == |ps| && forall i :: 0 <= i < |ps| ==> r[i] == Proto.Truncated(ps[i], maxLen)
  {
    seq(|ps|, i requires 0 <= i < |ps| => Proto.Truncated(ps[i], maxLen))
  }

  lemma TruncateAllConcat(a: seq<seq<byte>>, b: seq<seq<byte>>, maxLen: nat)
    ensures TruncateAll(a + b, maxLen) == TruncateAll(a, maxLen) + TruncateAll(b, maxLen)
  {
  }

  /** What was delivered, followed by what is still stored, is `stored` (the packets at
      the start) followed by what was accepted; packets longer than the reader's buffer
      lose their end. */
  ghost predicate Conserved(stored: seq<seq<byte>>, r: Run, maxLen: nat) {
    && WellFormed(r.ring)
    && r.delivered + TruncateAll(Decode(r.ring), maxLen) == TruncateAll(stored + r.accepted, maxLen)
  }

  lemma AppendToBoth<T>(delivered: seq<T>, stored: seq<T>, all: seq<T>, more: seq<T>)
    requires delivered + stored == all
    ensures delivered + (stored + more) == all + more
  {
  }

  lemma PutConserves(stored: seq<seq<byte>>, r: Run, p: seq<byte>, size: nat, maxLen: nat)
    requires |r.ring| <= size && Conserved(stored, r, maxLen)
    ensures Conserved(stored, Step(r, Put(p), size, maxLen), maxLen)
  {
    hide WellFormed, TruncateAll, Decode, Stuffed;
    WrittenDecodes(r.ring, p, size);
    if |r.ring| + |Encode(p)| <= size {
      TruncateAllConcat(Decode(r.ring), [p], maxLen);
      TruncateAllConcat(stored + r.accepted, [p], maxLen);
      assert stored + (r.accepted + [p]) == stored + r.accepted + [p];
      AppendToBoth(r.delivered, TruncateAll(Decode(r.ring), maxLen), TruncateAll(stored + r.accepted, maxLen),
                   TruncateAll([p], maxLen));
    }
  }

  lemma GetConserves(stored: seq<seq<byte>>, r: Run, size: nat, maxLen: nat)
    requires |r.ring| <= size && Conserved(stored, r, maxLen)
    ensures Conserved(stored, Step(r, Get, size, maxLen), maxLen)
  {
    hide WellFormed, FirstEnd, FirstPacket, TruncateAll, Proto.Truncated;
    WellFormedAfterFirstEnd(r.ring);
    var rest := Decode(AfterFirstEnd(r.ring));
    if END in r.ring {
      var p := FirstPacket(r.ring);
      assert Decode(r.ring) == [p] + rest;
      TruncateAllConcat([p], rest, maxLen);
      assert TruncateAll([p], maxLen) == [Proto.Truncated(p, maxLen)];
      assert r.delivered + (TruncateAll([p], maxLen) + TruncateAll(rest, maxLen))
          == (r.delivered + TruncateAll([p], maxLen)) + TruncateAll(rest, maxLen);
    }
  }

  /** Every run of writes and reads, succeeding or failing, delivers the accepted packets
      in order and each once. */
  lemma {:induction false} FifoConservation(stored: seq<seq<byte>>, r: Run, ops: seq<Op>, size: nat, maxLen: nat)
    requires |r.ring| <= size && Conserved(stored, r, maxLen)
    ensures Conserved(stored, Steps(r, ops, size, maxLen), maxLen)
    decreases |ops|
  {
    if ops != [] {
      match ops[0] {
        case Put(p) => PutConserves(stored, r, p, size, maxLen);
        case Get => GetConserves(stored, r, size, maxLen);
      }
      WrittenFits(r, ops[0], size, maxLen);
      FifoConservation(stored, Step(r, ops[0], size, maxLen), ops[1..], size, maxLen);
    }
  }

  // ----- the drop-oldest loop

  /** Contents and outcome of queueing `packet`, dropping the oldest packets as needed. */
  function Dropping(s: seq<byte>, packet: seq<byte>, size: nat): (seq<byte>, bool)
    requires |s| <= size
    decreases |Decode(s)|, 1
  {
    WrittenDecodes(s, packet, size);
    var t := Proto.Written(s, packet, size);
    if |s| + |Encode(packet)| <= size then (t, true) else DroppingAfterFailure(t, packet, size)
  }

  function DroppingAfterFailure(t: seq<byte>, packet: seq<byte>, size: nat): (seq<byte>, bool)
    requires |t| <= size
    decreases |Decode(t)|, 0
  {
    if END !in t then ([], false) else Dropping(AfterFirstEnd(t), packet, size)
  }

  /** Position of the first number that is at least `need`, or the length when there is none. */
  function FirstAtLeast(ns: seq<nat>, need: nat): (i: nat)
    ensures i <= |ns|
    ensures forall j :: 0 <= j < i ==> ns[j] < need
    ensures i < |ns| ==> ns[i] >= need
  {
    if ns == [] || ns[0] >= need then 0 else 1 + FirstAtLeast(ns[1..], need)
  }

  /** How many packets are dropped: none if the frame fits the free space, otherwise
      up to the first END-terminated segment that is at least as long as the frame. */
  function Dropped(s: seq<byte>, packet: seq<byte>, size: nat): nat {
    if |s| + |Encode(packet)| <= size then 0
    else FirstAtLeast(SegmentLengths(s), |Encode(packet)|) + 1
  }

  lemma FirstAtLeastTail(ns: seq<nat>, need: nat)
    requires ns != []
    ensures FirstAtLeast(ns, need) == if ns[0] >= need then 0 else 1 + FirstAtLeast(ns[1..], need)
  {
  }

  /** One round of the loop: a refused write, then the read of the oldest packet. */
  lemma DroppingRound(s: seq<byte>, packet: seq<byte>, size: nat)
    requires |s| <= size < |s| + |Encode(packet)| && Decode(s) != []
    ensures var u := AfterFirstEnd(Proto.Written(s, packet, size));
            && Dropping(s, packet, size) == Dropping(u, packet, size)
            && (WellFormed(s) ==> WellFormed(u))
            && |u| == size - SegmentLengths(s)[0]
            && Decode(u) == Decode(s)[1..] && SegmentLengths(u) == SegmentLengths(s)[1..]
  {
    var t := Proto.Written(s, packet, size);
    WrittenDecodes(s, packet, size);
    assert END in t;
    if WellFormed(t) {
      WellFormedAfterFirstEnd(t);
    }
    assert Decode(t) == [FirstPacket(t)] + Decode(AfterFirstEnd(t));
    assert SegmentLengths(t) == [FirstEnd(t) + 1] + SegmentLengths(AfterFirstEnd(t));
  }

  /** The rounds in which the loop ends. */
  lemma LastRound(s: seq<byte>, packet: seq<byte>, size: nat)
    requires |s| <= size
    ensures |s| + |Encode(packet)| <= size ==> Dropping(s, packet, size) == (Proto.Written(s, packet, size), true)
    ensures |s| + |Encode(packet)| > size && Decode(s) == [] ==> Dropping(s, packet, size) == ([], false)
  {
    hide Proto.Written, Stuffed, FirstEnd, FirstPacket, SegmentLengths;
    WrittenDecodes(s, packet, size);
    DecodeHead(Proto.Written(s, packet, size));
  }

  lemma DroppedIs(s: seq<byte>, u: seq<byte>, packet: seq<byte>, size: nat)
    requires |s| <= size < |s| + |Encode(packet)| && SegmentLengths(s) != []
    requires |u| == size - SegmentLengths(s)[0] && SegmentLengths(u) == SegmentLengths(s)[1..]
    ensures Dropped(s, packet, size) == 1 + Dropped(u, packet, size)
  {
    hide Stuffed, FirstEnd, FirstPacket, SegmentLengths, FirstAtLeast;
    FirstAtLeastTail(SegmentLengths(s), |Encode(packet)|);
  }

  /** The loop succeeds exactly when the frame fits the free space or some segment of
      the ring is as long as the frame; it then keeps the newest packets and adds the new
      one. Otherwise every packet is lost and the ring is empty. */
  lemma {:induction false} DroppingOutcome(s: seq<byte>, packet: seq<byte>, size: nat)
    requires |s| <= size
    ensures |Dropping(s, packet, size).0| <= size
    ensures WellFormed(s) ==> WellFormed(Dropping(s, packet, size).0)
    ensures Dropping(s, packet, size).1 <==> Dropped(s, packet, size) <= |Decode(s)|
    ensures Dropping(s, packet, size).1 ==>
              Decode(Dropping(s, packet, size).0) == Decode(s)[Dropped(s, packet, size)..] + [packet]
    ensures !Dropping(s, packet, size).1 ==> Dropping(s, packet, size).0 == []
    decreases |Decode(s)|
  {
    hide Dropping, Proto.Written, WellFormed, Decode, Stuffed, FirstEnd, FirstPacket, SegmentLengths, AfterFirstEnd;
    LastRound(s, packet, size);
    if |s| + |Encode(packet)| <= size {
      WrittenDecodes(s, packet, size);
    } else if Decode(s) == [] {
      NothingWellFormed();
    } else {
      hide Dropped, Encode;
      var u := AfterFirstEnd(Proto.Written(s, packet, size));
      DroppingRound(s, packet, size);
      DroppingOutcome(u, packet, size);
      DroppedIs(s, u, packet, size);
      var k := Dropped(u, packet, size);
      assert k <= |Decode(u)| ==> Decode(s)[1..][k..] == Decode(s)[k + 1..];
    }
  }

  lemma NothingWellFormed()
    ensures WellFormed([])
  {
  }

  // ----- a queue of whole frames

  function Frames(ps: seq<seq<byte>>): seq<byte> {
    if ps == [] then [] else Frames(ps[..|ps| - 1]) + Encode(ps[|ps| - 1])
  }

  function Puts(ps: seq<seq<byte>>): (ops: seq<Op>)
    ensures |ops| == |ps| && forall i :: 0 <= i < |ps| ==> ops[i] == Put(ps[i])
  {
    seq(|ps|, i requires 0 <= i < |ps| => Put(ps[i]))
  }

  lemma {:induction false} StepsAppend(r: Run, ops: seq<Op>, op: Op, size: nat, maxLen: nat)
    requires |r.ring| <= size
    ensures Steps(r, ops + [op], size, maxLen) == Step(Steps(r, ops, size, maxLen), op, size, maxLen)
    decreases |ops|
  {
    hide Step;
    if ops == [] {
      assert [op][1..] == [] && ops + [op] == [op];
      WrittenFits(r, op, size, maxLen);
    } else {
      assert (ops + [op])[0] == ops[0] && (ops + [op])[1..] == ops[1..] + [op];
      WrittenFits(r, ops[0], size, maxLen);
      StepsAppend(Step(r, ops[0], size, maxLen), ops[1..], op, size, maxLen);
    }
  }

  lemma PutFits(r: Run, p: seq<byte>, size: nat, maxLen: nat)
    requires |r.ring| + |Encode(p)| <= size
    ensures Step(r, Put(p), size, maxLen) == Run(r.ring + Encode(p), r.accepted + [p], r.delivered)
  {
    hide Encode;
    assert Encode(p)[..|Encode(p)|] == Encode(p);
  }

  lemma NoSteps(r: Run, size: nat, maxLen: nat)
    requires |r.ring| <= size
    ensures Steps(r, Puts([]), size, maxLen) == r && Frames([]) == []
  {
  }

  lemma FramesLast(ps: seq<seq<byte>>, front: seq<seq<byte>>, p: seq<byte>)
    requires ps == front + [p]
    ensures Frames(ps) == Frames(front) + Encode(p)
  {
    hide Encode;
    assert ps[..|ps| - 1] == front && ps[|ps| - 1] == p;
  }

  lemma PutsLast(ps: seq<seq<byte>>, front: seq<seq<byte>>, p: seq<byte>)
    requires ps == front + [p]
    ensures Puts(ps) == Puts(front) + [Put(p)]
  {
  }

  /** Packets put into an empty ring that has room for them stand there frame by frame. */
  lemma {:induction false} PutsFill(ps: seq<seq<byte>>, size: nat, maxLen: nat)
    requires |Frames(ps)| <= size
    ensures Steps(Run([], [], []), Puts(ps), size, maxLen) == Run(Frames(ps), ps, [])
    decreases |ps|
  {
    hide *;
    var start := Run([], [], []);
    if ps == [] {
      NoSteps(start, size, maxLen);
    } else {
      var front, p := ps[..|ps| - 1], ps[|ps| - 1];
      assert ps == front + [p];
      FramesLast(ps, front, p);
      PutsLast(ps, front, p);
      PutsFill(front, size, maxLen);
      StepsAppend(start, Puts(front), Put(p), size, maxLen);
      PutFits(Run(Frames(front), front, []), p, size, maxLen);
    }
  }

  lemma SegmentStep(s: seq<byte>)
    requires END in s
    ensures SegmentLengths(s) == [FirstEnd(s) + 1] + SegmentLengths(AfterFirstEnd(s))
  {
    hide FirstEnd;
  }

  lemma RestEnds(s: seq<byte>)
    requires END in s && s[|s| - 1] == END
    ensures var rest := AfterFirstEnd(s); rest == [] || rest[|rest| - 1] == END
  {
    hide FirstEnd;
  }

  lemma SegmentStepAppend(s: seq<byte>, x: seq<byte>)
    requires END in s
    ensures SegmentLengths(s + x) == [FirstEnd(s) + 1] + SegmentLengths(AfterFirstEnd(s) + x)
  {
    hide *;
    assert END in s + x;
    FirstEndAppend(s, x);
    SegmentStep(s + x);
  }

  lemma OneSegment(p: seq<byte>)
    ensures SegmentLengths(Encode(p)) == [|Encode(p)|]
  {
    hide *;
    EndOfFrame(p);
    FrameBehindCut([], p);
    assert [] + Encode(p) == Encode(p);
    SegmentStep(Encode(p));
    NothingStored();
  }

  lemma {:induction false} FrameAddsSegment(s: seq<byte>, p: seq<byte>)
    requires s == [] || s[|s| - 1] == END
    ensures SegmentLengths(s + Encode(p)) == SegmentLengths(s) + [|Encode(p)|]
    decreases |s|
  {
    hide *;
    if s == [] {
      OneSegment(p);
      NothingStored();
      assert s + Encode(p) == Encode(p);
    } else {
      var rest, head := AfterFirstEnd(s), [FirstEnd(s) + 1];
      SegmentStep(s);
      SegmentStepAppend(s, Encode(p));
      RestEnds(s);
      ShorterAfterFirstEnd(s);
      FrameAddsSegment(rest, p);
      assert head + (SegmentLengths(rest) + [|Encode(p)|]) == head + SegmentLengths(rest) + [|Encode(p)|];
    }
  }

  lemma EndOfFrame(p: seq<byte>)
    ensures FirstEnd(Encode(p)) + 1 == |Encode(p)| && Encode(p)[|Encode(p)| - 1] == END
  {
    StuffedHasNoDelimiter(p);
    hide Stuffed;
    assert END !in [BEGIN] + Stuffed(p) && Encode(p)[..|Encode(p)| - 1] == [BEGIN] + Stuffed(p);
    assert Encode(p)[|Encode(p)| - 1] == END;
  }

  lemma {:induction false} FramesDecode(ps: seq<seq<byte>>)
    ensures Decode(Frames(ps)) == ps && |SegmentLengths(Frames(ps))| == |ps|
    ensures forall i :: 0 <= i < |ps| ==> SegmentLengths(Frames(ps))[i] == |Encode(ps[i])|
    ensures Frames(ps) == [] || Frames(ps)[|Frames(ps)| - 1] == END
  {
    hide Encode, FirstEnd, Decode, SegmentLengths;
    if ps == [] {
      NothingStored();
    } else {
      var front, p := ps[..|ps| - 1], ps[|ps| - 1];
      FramesDecode(front);
      DecodeAppendFrame(Frames(front), p);
      FrameAddsSegment(Frames(front), p);
      EndOfFrame(p);
      assert ps == front + [p];
    }
  }

  lemma NothingStored()
    ensures Decode([]) == [] && SegmentLengths([]) == []
  {
  }

  /** Behind whole frames, a packet is refused, and all others are lost, exactly if it is too
      long for the free space and longer than each of them. */
  lemma RefusedIff(ps: seq<seq<byte>>, packet: seq<byte>, size: nat)
    requires |Frames(ps)| <= size
    ensures Dropping(Frames(ps), packet, size) == ([], false)
       <==> |Frames(ps)| + |Encode(packet)| > size && forall p :: p in ps ==> |Encode(p)| < |Encode(packet)|
    ensures Dropping(Frames(ps), packet, size) != ([], false) ==> Dropping(Frames(ps), packet, size).1
  {
    hide Dropping, Encode, Frames, FirstAtLeast, SegmentLengths;
    var s, need := Frames(ps), |Encode(packet)|;
    FramesDecode(ps);
    DroppingOutcome(s, packet, size);
    var i := FirstAtLeast(SegmentLengths(s), need);
    if i < |ps| {
      assert ps[i] in ps && |Encode(ps[i])| >= need;
    } else {
      forall p | p in ps
        ensures |Encode(p)| < need
      {
        var j :| 0 <= j < |ps| && ps[j] == p;
      }
    }
  }

  lemma {:induction false} PlainFrame(n: nat)
    ensures |Encode(Zeros(n))| == n + 2
  {
    if n > 0 {
      assert Zeros(n)[1..] == Zeros(n - 1);
      PlainFrame(n - 1);
    }
  }

  /** A packet that fits the empty ring of the client is refused: two packets of 998 bytes are
      queued, and one of 1000 comes. Dropping one packet would have made room. */
  lemma RefusedAlthoughItFitsEmptyRing()
    ensures var a, b, size := Zeros(998), Zeros(1000), 2048;
            var r := Steps(Run([], [], []), [Put(a), Put(a)], size, MQTT_BUF_SIZE);
            && r.accepted == [a, a] && Decode(r.ring) == [a, a]
            && |Encode(a)| + |Encode(b)| <= size
            && Dropping(r.ring, b, size) == ([], false)
  {
    hide Encode, Dropping, Steps, Decode, Frames, Zeros;
    var a, b := Zeros(998), Zeros(1000);
    PlainFrame(998);
    PlainFrame(1000);
    TwoFrames(a);
    assert Puts([a, a]) == [Put(a), Put(a)];
    PutsFill([a, a], 2048, MQTT_BUF_SIZE);
    FramesDecode([a, a]);
    RefusedIff([a, a], b, 2048);
  }

  lemma TwoFrames(a: seq<byte>)
    ensures |Frames([a, a])| == 2 * |Encode(a)|
  {
    hide Encode;
    assert [a, a][..1] == [a] && [a][..0] == [];
    assert Frames([a]) == Frames([]) + Encode(a);
  }
}
