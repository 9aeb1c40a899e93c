/** What the TCP server makes of received data, and of what its callers push, told from the
    events alone. */
module ServerReceives {
  import opened Octets
  import opened ServerSpec
  import opened ServerRuns
  import opened ServerStreams

  // ----- received data

  /** The data of received segments: waiting to be parsed, parsed, and cleared unparsed. */
  datatype Inbox = Inbox(waiting: seq<Chunk>, parsed: seq<Chunk>, cleared: seq<Chunk>)

  /** A segment waits if it could be copied and queued; each RX signal has the oldest one
      parsed; closing the server clears what waits. */
  function InboxAfter(b: Inbox, e: Event): Inbox {
    match e
    case RecvCb(conn, bytes, _, granted, pushed, _) =>
      if granted && pushed then b.(waiting := b.waiting + [Chunk(conn, bytes)]) else b
    case Rx => if b.waiting == [] then b else b.(waiting := b.waiting[1..], parsed := b.parsed + [b.waiting[0]])
    case Close => b.(waiting := [], cleared := b.cleared + b.waiting)
    case _ => b
  }

  function InboxOf(es: seq<Event>): Inbox {
    if es == [] then Inbox([], [], []) else InboxAfter(InboxOf(es[..|es| - 1]), es[|es| - 1])
  }

  function New(e: Event): seq<Chunk> {
    if e.RecvCb? && e.granted && e.pushed then [Chunk(e.conn, e.bytes)] else []
  }

  /** What arrived and could be queued, in order. */
  function Arrived(es: seq<Event>): seq<Chunk> {
    if es == [] then [] else Arrived(es[..|es| - 1]) + New(es[|es| - 1])
  }

  lemma MoveFirst<T>(front: seq<T>, rest: seq<T>)
    requires rest != []
    ensures front + [rest[0]] + rest[1..] == front + rest
    ensures multiset(front + [rest[0]]) + multiset(rest[1..]) == multiset(front) + multiset(rest)
  {
    assert rest == [rest[0]] + rest[1..];
  }

  lemma Appended<T>(front: seq<T>, rest: seq<T>)
    ensures multiset(front + rest) == multiset(front) + multiset(rest) && front + [] == front
  {
  }

  lemma InboxOrder(b: Inbox, e: Event)
    ensures var b' := InboxAfter(b, e);
            e != Close ==> b'.parsed + b'.waiting == b.parsed + b.waiting + New(e) && b'.cleared == b.cleared
  {
    Appended(b.parsed + b.waiting, []);
    if b.waiting != [] {
      MoveFirst(b.parsed, b.waiting);
    }
  }

  lemma AroundCleared<T>(a: multiset<T>, b: multiset<T>, c: multiset<T>, d: multiset<T>, x: multiset<T>)
    requires a + b == c + d
    ensures a + x + b == c + x + d
  {
    forall t: T
      ensures (a + x + b)[t] == (c + x + d)[t]
    {
      assert (a + b)[t] == (c + d)[t];
    }
  }

  lemma InboxContents(b: Inbox, e: Event)
    ensures var b' := InboxAfter(b, e);
            multiset(b'.parsed) + multiset(b'.cleared) + multiset(b'.waiting)
            == multiset(b.parsed) + multiset(b.cleared) + multiset(b.waiting) + multiset(New(e))
  {
    match e {
      case RecvCb(_, _, _, _, _, _) => Appended(b.waiting, New(e));
      case Close => Appended(b.cleared, b.waiting);
      case Rx =>
        if b.waiting != [] {
          MoveFirst(b.parsed, b.waiting);
          AroundCleared(multiset(b.parsed + [b.waiting[0]]), multiset(b.waiting[1..]), multiset(b.parsed),
                        multiset(b.waiting), multiset(b.cleared));
        }
      case _ =>
    }
  }

  lemma ArrivedLast(es: seq<Event>)
    requires es != []
    ensures Arrived(es) == Arrived(es[..|es| - 1]) + New(es[|es| - 1])
  {
  }

  ghost predicate NothingCleared(es: seq<Event>) {
    forall i :: 0 <= i < |es| ==> es[i] != Close
  }

  /** Everything that arrived was parsed, cleared or waits, each once... */
  lemma {:induction false} NothingElseArrives(es: seq<Event>)
    ensures var b := InboxOf(es);
            multiset(b.parsed) + multiset(b.cleared) + multiset(b.waiting) == multiset(Arrived(es))
  {
    if es != [] {
      var (front, e) := (es[..|es| - 1], es[|es| - 1]);
      NothingElseArrives(front);
      InboxContents(InboxOf(front), e);
      ArrivedLast(es);
      Appended(Arrived(front), New(e));
      hide InboxAfter, Arrived, New;
      assert InboxOf(es) == InboxAfter(InboxOf(front), e);
    }
  }

  /** ...and in order, without gaps, as long as nothing is cleared. */
  lemma {:induction false} ArrivesInOrder(es: seq<Event>)
    requires NothingCleared(es)
    ensures InboxOf(es).parsed + InboxOf(es).waiting == Arrived(es) && InboxOf(es).cleared == []
  {
    if es != [] {
      var (front, e) := (es[..|es| - 1], es[|es| - 1]);
      assert forall i :: 0 <= i < |front| ==> front[i] == es[i];
      ArrivesInOrder(front);
      InboxOrder(InboxOf(front), e);
      ArrivedLast(es);
      hide InboxAfter, Arrived, New;
      assert InboxOf(es) == InboxAfter(InboxOf(front), e);
    }
  }

  /** The message as the parser is given it. */
  function ChunkOf(m: Message, memory: map<Ptr, seq<byte>>): Chunk {
    Chunk(m.conn, if m.data in memory && m.len <= |memory[m.data]| then memory[m.data][..m.len] else [])
  }

  function ChunksOf(q: seq<Message>, memory: map<Ptr, seq<byte>>): (cs: seq<Chunk>)
    ensures |cs| == |q| && forall i :: 0 <= i < |q| ==> cs[i] == ChunkOf(q[i], memory)
  {
    seq(|q|, i requires 0 <= i < |q| => ChunkOf(q[i], memory))
  }

  /** The copy that the parser reads ends with a NUL behind the data. */
  ghost predicate Terminated(m: Message, memory: map<Ptr, seq<byte>>) {
    m.mem == HEAP_MEM && m.data in memory && |memory[m.data]| == m.len + 1 && memory[m.data][m.len] == 0
  }

  ghost predicate Holds(s: State, b: Inbox) {
    && s.parsed == b.parsed && ChunksOf(s.recvq, s.memory) == b.waiting
    && forall m :: m in s.recvq ==> Terminated(m, s.memory)
  }

  lemma RxParses(s: State)
    requires Sound(s) && s.rx > 0
    ensures RxTask(s).memory == s.memory && RxTask(s).kept == s.kept
    ensures if s.recvq == [] then RxTask(s).recvq == [] && RxTask(s).parsed == s.parsed
            else RxTask(s).recvq == s.recvq[1..] && RxTask(s).parsed == s.parsed + [ChunkOf(s.recvq[0], s.memory)]
  {
    hide Sound, FreedIf;
    if s.recvq != [] {
      var m := s.recvq[0];
      HeadParsed(s, m);
      hide ChunkOf;
      FreedFrame(s.(rx := s.rx - 1, recvq := s.recvq[1..], parsed := s.parsed + [ChunkOf(m, s.memory)]), m.data, m.mem);
    }
  }

  lemma HeadParsed(s: State, m: Message)
    requires Sound(s) && s.recvq != [] && m == s.recvq[0]
    ensures Readable(s.(rx := 0, recvq := []), m.data, 0, m.len)
    ensures m.data in s.live && m.data in s.memory && 0 + m.len <= |s.memory[m.data]|
    ensures ChunkOf(m, s.memory) == Chunk(m.conn, s.memory[m.data][..m.len])
  {
    hide Sound;
    RecvqUsed(s);
  }

  lemma RecvKeepsOthers(s: State, e: Event)
    requires Sound(s) && Enabled(s, e) && e.RecvCb? && e.granted
    ensures forall m :: m in s.recvq ==>
              && ChunkOf(m, s.memory[e.p := e.bytes + [0]]) == ChunkOf(m, s.memory)
              && (Terminated(m, s.memory) ==> Terminated(m, s.memory[e.p := e.bytes + [0]]))
  {
    hide Balanced, HeapPtrs;
    forall m | m in s.recvq
      ensures m.data in s.memory && m.data != e.p
    {
      assert Holdable(s, m);
    }
  }

  lemma StepReceives(s: State, e: Event, b: Inbox)
    requires Sound(s) && Enabled(s, e) && Holds(s, b)
    ensures Holds(Step(s, e), InboxAfter(b, e))
  {
    hide Sound, Sendable, QueueStream, MessageStream, FreedAll, Cleared, RxTask, TxTask, TxDoneTask, Sending;
    hide Terminated, ChunkOf;
    match e {
      case Rx => RxParses(s);
      case Tx(ok) => TxFrame(s, ok);
      case TxDone(ok, posted) => TxDoneFrame(s, ok, posted);
      case Send(m, pushed, posted) => SendFrame(s, m, pushed, posted);
      case RecvCb(conn, bytes, p, granted, pushed, posted) => RecvReceives(s, e, b);
      case Close => ClearedStatics(s);
      case _ =>
    }
  }

  lemma RecvReceives(s: State, e: Event, b: Inbox)
    requires Sound(s) && Enabled(s, e) && Holds(s, b) && e.RecvCb?
    ensures Holds(Step(s, e), InboxAfter(b, e))
  {
    hide Sound;
    if e.granted {
      RecvKeepsOthers(s, e);
      var memory := s.memory[e.p := e.bytes + [0]];
      assert ChunksOf(s.recvq, memory) == ChunksOf(s.recvq, s.memory);
      assert (e.bytes + [0])[..|e.bytes|] == e.bytes;
      var m := Message(e.conn, e.p, |e.bytes|, HEAP_MEM);
      assert ChunksOf(s.recvq + [m], memory) == ChunksOf(s.recvq, memory) + [Chunk(e.conn, e.bytes)];
    }
  }

  /** Over every run, what was parsed and what is queued for it is exactly what the events make
      of the received segments: each copied unaltered, with its connection, in order, once. */
  lemma {:induction false} RunsReceive(memory: map<Ptr, seq<byte>>, ss: seq<State>, es: seq<Event>, n: nat)
    requires IsRun(ss, es) && ss[0] == Initial(memory) && n < |ss|
    ensures |ss| == |es| + 1
    ensures ss[n].parsed == InboxOf(es[..n]).parsed
    ensures ChunksOf(ss[n].recvq, ss[n].memory) == InboxOf(es[..n]).waiting
    ensures forall m :: m in ss[n].recvq ==> Terminated(m, ss[n].memory)
  {
    hide Sound, Conserved, Step, Enabled, IsRun, SentBytes, Rest, QueueStream, NothingRefused, InboxAfter;
    assert |ss| == |es| + 1 by {
      RunLength(ss, es);
    }
    if n > 0 {
      RunsReceive(memory, ss, es, n - 1);
      RunsConserve(memory, ss, es, n - 1);
      RunStep(ss, es, n - 1);
      StepReceives(ss[n - 1], es[n - 1], InboxOf(es[..n - 1]));
      assert es[..n][..n - 1] == es[..n - 1];
    }
  }

  lemma RunLength(ss: seq<State>, es: seq<Event>)
    requires IsRun(ss, es)
    ensures |ss| == |es| + 1
  {
    hide StepsTo;
  }

  // ----- data pushed for sending

  /** The tagged bytes that were pushed and not cleared: closing the server keeps those handed
      over and the rest of the current message. */
  function Pushed(ss: seq<State>, es: seq<Event>): seq<(Conn, byte)>
    requires |es| <= |ss|
  {
    if es == [] then [] else
      var n := |es| - 1;
      var (front, s) := (Pushed(ss, es[..n]), ss[n]);
      match es[n]
      case Send(m, pushed, _) =>
        if pushed && m.data in s.memory && m.len <= |s.memory[m.data]| then
          front + Tagged(m.conn, s.memory[m.data][..m.len])
        else front
      case Close =>
        var kept := |Bytes(s.out)| + |Rest(s)|;
        if kept <= |front| then front[..kept] else front
      case _ => front
  }

  lemma StepPushes(s: State, e: Event)
    requires Sound(s) && Enabled(s, e) && Conserved(s)
    ensures Step(s, e).kept
         == match e
            case Send(m, pushed, _) => if pushed then s.kept + MessageStream(m, s.memory) else s.kept
            case Close => s.kept[..|Bytes(s.out)| + |Rest(s)|]
            case _ => s.kept
    ensures |Bytes(s.out)| + |Rest(s)| <= |s.kept|
  {
    hide Sound, Sendable, QueueStream, MessageStream, FreedAll, RxTask, TxTask, TxDoneTask, Bytes, Rest;
    assert |s.kept| == |Bytes(s.out)| + |Rest(s)| + |QueueStream(s.sendq, s.memory)|;
    match e {
      case Rx => RxParses(s);
      case Tx(ok) => TxFrame(s, ok);
      case TxDone(ok, posted) => TxDoneFrame(s, ok, posted);
      case Close => ClearedKeeps(s);
      case _ =>
    }
  }

  lemma ClearedKeeps(s: State)
    requires Sound(s)
    ensures var n := |QueueStream(s.sendq, s.memory)|;
            n <= |s.kept| ==> Cleared(s).kept == s.kept[..|s.kept| - n]
  {
    hide Sound, QueueStream, FreedAll;
    ClearSendq(s);
    var n := |QueueStream(s.sendq, s.memory)|;
    var kept := if n <= |s.kept| then s.kept[..|s.kept| - n] else [];
    var s1 := FreedAll(s, s.sendq).(sendq := []);
    KeptFrame(s1, kept);
    ClearRecvq(s1.(kept := kept));
  }

  /** Over every run, the bytes handed to the connections, the rest of the current message and
      the queue are what the callers pushed and was not cleared. */
  lemma {:induction false} RunsSend(memory: map<Ptr, seq<byte>>, ss: seq<State>, es: seq<Event>, n: nat)
    requires IsRun(ss, es) && ss[0] == Initial(memory) && n < |ss|
    ensures |ss| == |es| + 1
    ensures Bytes(ss[n].out) + Rest(ss[n]) + QueueStream(ss[n].sendq, ss[n].memory) == Pushed(ss, es[..n])
    ensures ss[n].kept == Pushed(ss, es[..n])
  {
    hide Sound, Step, Enabled, IsRun, SentBytes, Rest, QueueStream, NothingRefused, Bytes;
    RunLength(ss, es);
    RunsConserve(memory, ss, es, n);
    if n > 0 {
      RunsSend(memory, ss, es, n - 1);
      RunsConserve(memory, ss, es, n - 1);
      RunStep(ss, es, n - 1);
      StepPushes(ss[n - 1], es[n - 1]);
      assert es[..n][..n - 1] == es[..n - 1];
    }
  }

  /** `n` bytes of a block. */
  function BytesAt(memory: map<Ptr, seq<byte>>, p: Ptr, from: nat, n: nat): seq<byte> {
    if p in memory && from + n <= |memory[p]| then memory[p][from..from + n] else []
  }

  lemma SentHandsOver(s: State, conn: Conn, p: Ptr, from: nat, n: nat, ok: bool)
    requires Readable(s, p, from, n)
    ensures Sent(s, conn, p, from, n, ok).out == s.out + [Handover(Chunk(conn, BytesAt(s.memory, p, from, n)), ok)]
  {
  }

  lemma TxHandsOver(s: State, ok: bool)
    requires Sound(s) && s.tx > 0
    ensures TxTask(s, ok).out
         == if s.sending || s.sendq == [] then s.out else
              var (m, n) := (s.sendq[0], if s.sendq[0].len <= 1460 then s.sendq[0].len else 1460);
              s.out + [Handover(Chunk(m.conn, BytesAt(s.memory, m.data, 0, n)), ok)]
  {
    hide Sound, Sent, FreedIf, BytesAt;
    if !s.sending && s.sendq != [] {
      SendqUsed(s);
      var m := s.sendq[0];
      var s2 := s.(tx := s.tx - 1, sending := true, sendq := s.sendq[1..]);
      if m.len <= TCP_MAX_PACKET_SIZE {
        var s3 := s2.(more := false);
        SentHandsOver(s3, m.conn, m.data, 0, m.len, ok);
        FreedFrame(Sent(s3, m.conn, m.data, 0, m.len, ok), m.data, m.mem);
      } else {
        var s3 := s2.(more := true, sendingConn := m.conn, first := m.data, current := 0, sendingLen := m.len,
                      sendingMem := m.mem);
        SentHandsOver(s3, m.conn, m.data, 0, TCP_MAX_PACKET_SIZE, ok);
      }
    }
  }

  lemma TxDoneHandsOver(s: State, ok: bool, posted: bool)
    requires Sound(s) && s.txDone > 0
    ensures TxDoneTask(s, ok, posted).out
         == if !(s.sending && s.more) then s.out else
              var n := if s.sendingLen <= 1460 then s.sendingLen else 1460;
              s.out + [Handover(Chunk(s.sendingConn, BytesAt(s.memory, s.first, s.current, n)), ok)]
  {
    hide Sound, Sent, FreedIf, BytesAt;
    if s.sending && s.more {
      CurrentReadable(s);
      var s1 := s.(txDone := s.txDone - 1);
      if s.sendingLen <= TCP_MAX_PACKET_SIZE {
        var s2 := s1.(more := false);
        SentHandsOver(s2, s.sendingConn, s.first, s.current, s.sendingLen, ok);
        FreedFrame(Sent(s2, s.sendingConn, s.first, s.current, s.sendingLen, ok), s.first, s.sendingMem);
      } else {
        SentHandsOver(s1, s.sendingConn, s.first, s.current, TCP_MAX_PACKET_SIZE, ok);
      }
    }
  }

  /** The chunk that a step hands over, if any: of a queued message its first 1460 bytes, of the
      current one the next 1460, or all that is left. */
  lemma HandsOver(s: State, e: Event)
    requires Sound(s) && Enabled(s, e)
    ensures Step(s, e).out
         == match e
            case Tx(ok) =>
              if s.sending || s.sendq == [] then s.out else
                var (m, n) := (s.sendq[0], if s.sendq[0].len <= 1460 then s.sendq[0].len else 1460);
                s.out + [Handover(Chunk(m.conn, BytesAt(s.memory, m.data, 0, n)), ok)]
            case TxDone(ok, _) =>
              if !(s.sending && s.more) then s.out else
                var n := if s.sendingLen <= 1460 then s.sendingLen else 1460;
                s.out + [Handover(Chunk(s.sendingConn, BytesAt(s.memory, s.first, s.current, n)), ok)]
            case _ => s.out
    ensures s.sendq != [] ==> |BytesAt(s.memory, s.sendq[0].data, 0, s.sendq[0].len)| == s.sendq[0].len
    ensures s.more ==> |BytesAt(s.memory, s.first, s.current, s.sendingLen)| == s.sendingLen
  {
    hide Sound, Sendable, QueueStream, MessageStream, FreedAll, RxTask, TxTask, TxDoneTask, Cleared;
    if s.sendq != [] {
      SendqUsed(s);
    }
    if s.more {
      CurrentReadable(s);
    }
    hide BytesAt, Readable;
    match e {
      case Rx => RxSleeps(s);
      case Tx(ok) => TxHandsOver(s, ok);
      case TxDone(ok, posted) => TxDoneHandsOver(s, ok, posted);
      case Close => ClearedStatics(s);
      case _ =>
    }
  }
}
