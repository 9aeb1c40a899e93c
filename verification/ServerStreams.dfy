/** What the TCP server sends: the byte stream over whole runs, and that it all goes out. */
module ServerStreams {
  import opened Octets
  import opened ServerSpec
  import opened ServerRuns

  // ----- the byte stream

  function BytesOf(h: Handover): seq<(Conn, byte)> {
    Tagged(h.chunk.conn, h.chunk.bytes)
  }

  /** The tagged bytes handed to the connections, in order. */
  function Bytes(out: seq<Handover>): seq<(Conn, byte)> {
    if out == [] then [] else Bytes(out[..|out| - 1]) + BytesOf(out[|out| - 1])
  }

  /** Those that the connections accepted, and so send. */
  function SentBytes(out: seq<Handover>): seq<(Conn, byte)> {
    if out == [] then []
    else SentBytes(out[..|out| - 1]) + if out[|out| - 1].accepted then BytesOf(out[|out| - 1]) else []
  }

  /** No byte was in a refused chunk. */
  ghost predicate NothingRefused(out: seq<Handover>) {
    forall h :: h in out ==> h.accepted || h.chunk.bytes == []
  }

  lemma {:induction false} RefusedBytes(out: seq<Handover>)
    ensures |SentBytes(out)| <= |Bytes(out)|
    ensures |SentBytes(out)| == |Bytes(out)| <==> NothingRefused(out)
    ensures NothingRefused(out) ==> SentBytes(out) == Bytes(out)
  {
    if out != [] {
      var front, h := out[..|out| - 1], out[|out| - 1];
      RefusedBytes(front);
      assert out == front + [h];
      assert NothingRefused(out) <==> NothingRefused(front) && (h.accepted || h.chunk.bytes == []);
      assert SentBytes(front) + [] == SentBytes(front) && Bytes(front) + [] == Bytes(front);
    }
  }

  /** The part of the current message that is still to be sent. */
  function Rest(s: State): seq<(Conn, byte)> {
    if s.more && s.first in s.memory && s.current + s.sendingLen <= |s.memory[s.first]|
    then Tagged(s.sendingConn, s.memory[s.first][s.current..s.current + s.sendingLen]) else []
  }

  /** Handed over, plus unsent rest of the current message, plus queue: everything pushed and
      not cleared. */
  ghost predicate Conserved(s: State) {
    && Bytes(s.out) + Rest(s) + QueueStream(s.sendq, s.memory) == s.kept
    && forall h :: h in s.out ==> |h.chunk.bytes| <= TCP_MAX_PACKET_SIZE
  }

  /** What the connections accepted makes up the balance exactly when no byte was refused. */
  lemma SentIff(s: State)
    requires Conserved(s)
    ensures SentBytes(s.out) + Rest(s) + QueueStream(s.sendq, s.memory) == s.kept <==> NothingRefused(s.out)
  {
    hide Bytes, SentBytes, Rest, QueueStream, NothingRefused;
    RefusedBytes(s.out);
    assert |Bytes(s.out) + Rest(s) + QueueStream(s.sendq, s.memory)|
        == |Bytes(s.out)| + |Rest(s)| + |QueueStream(s.sendq, s.memory)|;
  }

  lemma BytesAppended(out: seq<Handover>, h: Handover)
    ensures Bytes(out + [h]) == Bytes(out) + BytesOf(h)
  {
    assert (out + [h])[..|out|] == out;
  }

  lemma TaggedSplit(conn: Conn, bytes: seq<byte>, a: nat, b: nat, c: nat)
    requires a <= b <= c <= |bytes|
    ensures Tagged(conn, bytes[a..c]) == Tagged(conn, bytes[a..b]) + Tagged(conn, bytes[b..c])
  {
  }

  lemma {:induction false} QueueStreamLast(q: seq<Message>, m: Message, memory: map<Ptr, seq<byte>>)
    ensures QueueStream(q + [m], memory) == QueueStream(q, memory) + MessageStream(m, memory)
    decreases |q|
  {
    hide MessageStream;
    if q == [] {
      assert [m][1..] == [];
      assert QueueStream([m][1..], memory) == [];
      assert q + [m] == [m];
    } else {
      assert (q + [m])[1..] == q[1..] + [m];
      QueueStreamLast(q[1..], m, memory);
    }
  }

  lemma {:induction false} QueueStreamGrows(q: seq<Message>, memory: map<Ptr, seq<byte>>, p: Ptr, block: seq<byte>)
    requires p !in memory && forall m :: m in q ==> m.data in memory
    ensures QueueStream(q, memory[p := block]) == QueueStream(q, memory)
    decreases |q|
  {
    if q != [] {
      assert q[0] in q;
      QueueStreamGrows(q[1..], memory, p, block);
    }
  }

  lemma Assoc<T>(a: seq<T>, b: seq<T>, c: seq<T>)
    ensures a + (b + c) == a + b + c
  {
  }

  /** What remains to be sent before a step is one chunk and what remains after it. */
  lemma ChunkConserves(s: State, t: State, c: Chunk, ok: bool)
    requires Conserved(s) && t.kept == s.kept && t.out == s.out + [Handover(c, ok)] && |c.bytes| <= TCP_MAX_PACKET_SIZE
    requires Rest(s) + QueueStream(s.sendq, s.memory)
          == Tagged(c.conn, c.bytes) + (Rest(t) + QueueStream(t.sendq, t.memory))
    ensures Conserved(t)
  {
    hide Bytes, Tagged, Rest, QueueStream;
    BytesAppended(s.out, Handover(c, ok));
    Assoc(Bytes(s.out), Rest(s), QueueStream(s.sendq, s.memory));
    Assoc(Bytes(s.out), Tagged(c.conn, c.bytes), Rest(t) + QueueStream(t.sendq, t.memory));
    Assoc(Bytes(t.out), Rest(t), QueueStream(t.sendq, t.memory));
  }

  lemma NothingSent(s: State, t: State)
    requires Conserved(s) && t.kept == s.kept && t.out == s.out && t.sendq == s.sendq && t.memory == s.memory
    requires t.more == s.more && t.first == s.first && t.current == s.current
    requires t.sendingLen == s.sendingLen && t.sendingConn == s.sendingConn
    ensures Conserved(t)
  {
    hide Bytes, QueueStream, Tagged;
  }

  lemma TxConserves(s: State, ok: bool)
    requires Sound(s) && s.tx > 0 && Conserved(s)
    ensures Conserved(TxTask(s, ok))
  {
    hide Sound, Bytes, Tagged, QueueStream, Conserved;
    if s.sending || s.sendq == [] {
      NothingSent(s, TxTask(s, ok));
    } else {
      var m, t := s.sendq[0], TxTask(s, ok);
      SendqUsed(s);
      SoundMeans(s);
      QueueStreamFirst(s.sendq, s.memory);
      var bytes, rest := s.memory[m.data], QueueStream(t.sendq, t.memory);
      assert Rest(s) == [] && [] + QueueStream(s.sendq, s.memory) == QueueStream(s.sendq, s.memory);
      assert bytes[0..m.len] == bytes[..m.len];
      if m.len <= TCP_MAX_PACKET_SIZE {
        assert Rest(t) == [] && [] + rest == rest;
        ChunkConserves(s, t, Chunk(m.conn, bytes[0..m.len]), ok);
      } else {
        TaggedSplit(m.conn, bytes, 0, TCP_MAX_PACKET_SIZE, m.len);
        Assoc(Tagged(m.conn, bytes[0..TCP_MAX_PACKET_SIZE]), Tagged(m.conn, bytes[TCP_MAX_PACKET_SIZE..m.len]), rest);
        ChunkConserves(s, t, Chunk(m.conn, bytes[0..TCP_MAX_PACKET_SIZE]), ok);
      }
    }
  }

  lemma QueueStreamFirst(q: seq<Message>, memory: map<Ptr, seq<byte>>)
    requires q != [] && q[0].data in memory && q[0].len <= |memory[q[0].data]|
    ensures QueueStream(q, memory) == Tagged(q[0].conn, memory[q[0].data][..q[0].len]) + QueueStream(q[1..], memory)
  {
  }

  lemma LastFragmentConserves(s: State, ok: bool, posted: bool)
    requires Sound(s) && s.txDone > 0 && Conserved(s) && s.sending && s.more && s.sendingLen <= TCP_MAX_PACKET_SIZE
    ensures Conserved(TxDoneTask(s, ok, posted))
  {
    hide Sound, Bytes, Tagged, QueueStream, Conserved;
    CurrentReadable(s);
    var t, queue := TxDoneTask(s, ok, posted), QueueStream(s.sendq, s.memory);
    assert Rest(t) == [] && [] + queue == queue;
    ChunkConserves(s, t, Chunk(s.sendingConn, s.memory[s.first][s.current..s.current + s.sendingLen]), ok);
  }

  lemma NextFragmentConserves(s: State, ok: bool, posted: bool)
    requires Sound(s) && s.txDone > 0 && Conserved(s) && s.sending && s.more && s.sendingLen > TCP_MAX_PACKET_SIZE
    ensures Conserved(TxDoneTask(s, ok, posted))
  {
    hide Sound, Bytes, Tagged, QueueStream, Conserved;
    CurrentReadable(s);
    var t, queue := TxDoneTask(s, ok, posted), QueueStream(s.sendq, s.memory);
    var bytes, from, to := s.memory[s.first], s.current, s.current + TCP_MAX_PACKET_SIZE;
    TaggedSplit(s.sendingConn, bytes, from, to, from + s.sendingLen);
    Assoc(Tagged(s.sendingConn, bytes[from..to]), Tagged(s.sendingConn, bytes[to..from + s.sendingLen]), queue);
    ChunkConserves(s, t, Chunk(s.sendingConn, bytes[from..to]), ok);
  }

  lemma TxDoneConserves(s: State, ok: bool, posted: bool)
    requires Sound(s) && s.txDone > 0 && Conserved(s)
    ensures Conserved(TxDoneTask(s, ok, posted))
  {
    hide Sound, Conserved;
    if !(s.sending && s.more) {
      NothingSent(s, TxDoneTask(s, ok, posted));
    } else if s.sendingLen <= TCP_MAX_PACKET_SIZE {
      LastFragmentConserves(s, ok, posted);
    } else {
      NextFragmentConserves(s, ok, posted);
    }
  }

  lemma RxConserves(s: State)
    requires s.rx > 0 && Conserved(s)
    ensures Conserved(RxTask(s))
  {
    hide Conserved, FreedIf;
    if s.recvq != [] {
      var m := s.recvq[0];
      var s2 := s.(rx := s.rx - 1, recvq := s.recvq[1..]);
      var s3 := if Readable(s2, m.data, 0, m.len) then
                  s2.(parsed := s.parsed + [Chunk(m.conn, s.memory[m.data][..m.len])])
                else s2.(fault := true);
      FreedOnly(s3, m.data, m.mem);
    }
    NothingSent(s, RxTask(s));
  }

  lemma FreedOnly(s: State, p: Ptr, mem: Memtype)
    ensures var t := FreedIf(s, p, mem); t == s.(live := t.live, freed := t.freed, fault := t.fault)
  {
  }

  lemma SendConserves(s: State, m: Message, pushed: bool, posted: bool)
    requires Conserved(s)
    ensures Conserved(Sending(s, m, pushed, posted))
  {
    hide Bytes, QueueStream, Tagged, MessageStream;
    QueueStreamLast(s.sendq, m, s.memory);
    Assoc(Bytes(s.out) + Rest(s), QueueStream(s.sendq, s.memory), MessageStream(m, s.memory));
  }

  lemma ReceivedConserves(s: State, conn: Conn, bytes: seq<byte>, p: Ptr, granted: bool, pushed: bool, posted: bool)
    requires Sound(s) && |bytes| < 0x1_0000 && p !in s.memory && Conserved(s)
    ensures Conserved(Received(s, conn, bytes, p, granted, pushed, posted))
  {
    hide Bytes, QueueStream, Tagged, Balanced, HeapPtrs;
    forall m | m in s.sendq
      ensures m.data in s.memory
    {
      assert Holdable(s, m);
    }
    QueueStreamGrows(s.sendq, s.memory, p, bytes + [0]);
  }

  lemma CloseConserves(s: State)
    requires Sound(s) && Conserved(s)
    ensures Conserved(Cleared(s))
  {
    hide Sound, Bytes, FreedAll, Rest;
    ClearSendq(s);
    var n := |QueueStream(s.sendq, s.memory)|;
    var kept := s.kept[..|s.kept| - n];
    var s1 := FreedAll(s, s.sendq).(sendq := []);
    KeptFrame(s1, kept);
    ClearRecvq(s1.(kept := kept));
    SameRest(s, Cleared(s));
    assert kept == Bytes(s.out) + Rest(s) + [];
  }

  lemma SameRest(s: State, t: State)
    requires t.more == s.more && t.first == s.first && t.memory == s.memory && t.current == s.current
    requires t.sendingLen == s.sendingLen && t.sendingConn == s.sendingConn
    ensures Rest(t) == Rest(s)
  {
  }

  lemma StepConserves(s: State, e: Event)
    requires Sound(s) && Enabled(s, e) && Conserved(s)
    ensures Conserved(Step(s, e))
  {
    hide Sound, Bytes, QueueStream, Cleared, Received, Sending, TxTask, TxDoneTask, RxTask;
    match e {
      case Rx => RxConserves(s);
      case Tx(ok) => TxConserves(s, ok);
      case TxDone(ok, posted) => TxDoneConserves(s, ok, posted);
      case Send(m, pushed, posted) => SendConserves(s, m, pushed, posted);
      case RecvCb(conn, bytes, p, granted, pushed, posted) =>
        ReceivedConserves(s, conn, bytes, p, granted, pushed, posted);
      case SentCb(_) => SameRest(s, Step(s, e));
      case ConnGone(_) => SameRest(s, Step(s, e));
      case Stray => SameRest(s, Step(s, e));
      case Close => CloseConserves(s);
    }
  }

  // ----- runs

  ghost predicate IsRun(ss: seq<State>, es: seq<Event>) {
    && |ss| == |es| + 1
    && forall i :: 0 <= i < |es| ==> StepsTo(ss[i], es[i], ss[i + 1])
  }

  ghost predicate StepsTo(s: State, e: Event, t: State) {
    Enabled(s, e) && t == Step(s, e)
  }

  lemma RunStep(ss: seq<State>, es: seq<Event>, i: nat)
    requires IsRun(ss, es) && i + 1 < |ss|
    ensures |ss| == |es| + 1 && Enabled(ss[i], es[i]) && ss[i + 1] == Step(ss[i], es[i])
  {
    hide Step, Enabled;
    assert StepsTo(ss[i], es[i], ss[i + 1]);
  }

  lemma InitialHolds(memory: map<Ptr, seq<byte>>)
    ensures Sound(Initial(memory)) && Conserved(Initial(memory)) && Awake(Initial(memory))
  {
  }

  /** For every order of events: memory is used soundly; the bytes handed over, then the rest
      of the current message, then the queue are exactly what was pushed and not cleared; no
      chunk is longer than a TCP packet; and fragments are only pending while sending. The
      same holds of the bytes accepted exactly when none was refused. */
  lemma {:induction false} RunsConserve(memory: map<Ptr, seq<byte>>, ss: seq<State>, es: seq<Event>, n: nat)
    requires IsRun(ss, es) && ss[0] == Initial(memory) && n < |ss|
    ensures Sound(ss[n]) && Conserved(ss[n])
    ensures !ss[n].fault && (ss[n].more ==> ss[n].sending)
    ensures SentBytes(ss[n].out) + Rest(ss[n]) + QueueStream(ss[n].sendq, ss[n].memory) == ss[n].kept
       <==> NothingRefused(ss[n].out)
  {
    hide Sound, Conserved, Step, Enabled, IsRun, SentBytes, Rest, QueueStream, NothingRefused;
    if n == 0 {
      InitialHolds(memory);
    } else {
      RunsConserve(memory, ss, es, n - 1);
      RunStep(ss, es, n - 1);
      StepSound(ss[n - 1], es[n - 1]);
      StepConserves(ss[n - 1], es[n - 1]);
    }
    SoundMeans(ss[n]);
    SentIff(ss[n]);
  }

  /** Every heap block pushed is freed at most once, and as long as it is not freed one
      message owns it. */
  lemma FreedExactlyOnce(s: State, p: Ptr)
    requires Sound(s) && p in s.owed
    ensures multiset(s.freed)[p] + Owned(s)[p] == 1
    ensures p in s.freed ==> p !in s.live
  {
    assert multiset(s.owed)[p] == 1;
    assert (Owned(s) + multiset(s.freed))[p] == 1;
    if p in s.freed {
      FreedIsGone(s, p);
    }
  }

  // ----- leaks

  /** Blocks granted for received data whose message could not be queued, less those that
      a caller handed over later. */
  function Orphans(es: seq<Event>): set<Ptr> {
    if es == [] then {} else
      var (front, e) := (Orphans(es[..|es| - 1]), es[|es| - 1]);
      if e.RecvCb? && e.granted && !e.pushed then front + {e.p}
      else if e.Send? && e.pushed && e.m.mem == HEAP_MEM then front - {e.m.data}
      else front
  }

  /** A block is either booked as handed over, or allocated and owned by no message. */
  lemma UnbookedIff(s: State, p: Ptr)
    requires Sound(s)
    ensures p in s.live && p !in Owned(s) <==> p in s.memory && p !in s.owed
  {
    hide HeapPtrs, Holdable;
    var l := LedgerOf(s);
    assert (l.owned + multiset(l.freed))[p] == multiset(l.owed)[p];
    assert p in l.freed <==> p in multiset(l.freed);
    assert p in l.owed <==> p in multiset(l.owed);
    assert p in l.owned ==> p in l.live;
    assert p in l.freed ==> p !in l.live;
  }

  lemma BooksOf(s: State, e: Event)
    requires Sound(s) && Enabled(s, e)
    ensures Step(s, e).memory.Keys == if e.RecvCb? && e.granted then s.memory.Keys + {e.p} else s.memory.Keys
    ensures Step(s, e).owed
         == if e.RecvCb? && e.granted && e.pushed then s.owed + [e.p]
            else if e.Send? && e.pushed && e.m.mem == HEAP_MEM then s.owed + [e.m.data] else s.owed
  {
    hide Sound, Sendable, QueueStream, MessageStream, FreedAll, Cleared, RxTask, TxTask, TxDoneTask, Sending;
    match e {
      case Rx => RxSleeps(s);
      case Tx(ok) => TxFrame(s, ok);
      case TxDone(ok, posted) => TxDoneFrame(s, ok, posted);
      case Send(m, pushed, posted) => SendFrame(s, m, pushed, posted);
      case Close => ClearedStatics(s);
      case _ =>
    }
  }

  /** `p` was granted after the start and is not booked as handed over. */
  ghost predicate Unbooked(memory: map<Ptr, seq<byte>>, s: State, p: Ptr) {
    p in s.memory && p !in s.owed && p !in memory
  }

  predicate Abandons(e: Event, p: Ptr) {
    e.RecvCb? && e.granted && !e.pushed && e.p == p
  }

  predicate TakesOver(e: Event, p: Ptr) {
    e.Send? && e.pushed && e.m.mem == HEAP_MEM && e.m.data == p
  }

  lemma UnbookedStep(memory: map<Ptr, seq<byte>>, s: State, e: Event, p: Ptr)
    requires Sound(s) && Enabled(s, e) && (p in memory ==> p in s.memory)
    ensures p in memory ==> p in Step(s, e).memory
    ensures Unbooked(memory, Step(s, e), p) <==> Abandons(e, p) || (Unbooked(memory, s, p) && !TakesOver(e, p))
  {
    hide Sound, Step, Enabled;
    BooksOf(s, e);
    FreshBlock(s, e);
    assert p in Step(s, e).memory <==> p in Step(s, e).memory.Keys;
    assert p in s.memory <==> p in s.memory.Keys;
  }

  lemma OrphansStep(es: seq<Event>, n: nat, p: Ptr)
    requires n <= |es|
    ensures n == 0 ==> p !in Orphans(es[..n])
    ensures n > 0 ==>
              (p in Orphans(es[..n]) <==>
                 Abandons(es[n - 1], p) || (p in Orphans(es[..n - 1]) && !TakesOver(es[n - 1], p)))
  {
    if n > 0 {
      assert es[..n][..n - 1] == es[..n - 1];
    }
  }

  lemma FreshBlock(s: State, e: Event)
    requires Sound(s) && Enabled(s, e)
    ensures e.RecvCb? ==> e.p !in s.memory && e.p !in s.owed
  {
    hide HeapPtrs, Holdable, Sendable;
  }

  lemma {:induction false} OrphansAreUnbooked(memory: map<Ptr, seq<byte>>, ss: seq<State>, es: seq<Event>,
                                               n: nat, p: Ptr)
    requires IsRun(ss, es) && ss[0] == Initial(memory) && n < |ss|
    ensures p in memory ==> p in ss[n].memory
    ensures Unbooked(memory, ss[n], p) <==> p in Orphans(es[..n])
  {
    assert n <= |es|;
    hide Sound, Conserved, Step, Enabled, IsRun, Orphans, Abandons, TakesOver;
    hide SentBytes, Rest, QueueStream, NothingRefused;
    OrphansStep(es, n, p);
    if n > 0 {
      hide Unbooked;
      OrphansAreUnbooked(memory, ss, es, n - 1, p);
      RunsConserve(memory, ss, es, n - 1);
      RunStep(ss, es, n - 1);
      UnbookedStep(memory, ss[n - 1], es[n - 1], p);
    }
  }

  /** A block granted after the start stays allocated without an owner exactly if received
      data could not be queued in it and no caller handed it over since. */
  lemma LeakedIff(memory: map<Ptr, seq<byte>>, ss: seq<State>, es: seq<Event>, n: nat, p: Ptr)
    requires IsRun(ss, es) && ss[0] == Initial(memory) && n < |ss|
    ensures p in ss[n].live && p !in memory && p !in Owned(ss[n]) <==> p in Orphans(es[..n])
  {
    hide Sound, Conserved, IsRun, Owned, Orphans;
    RunsConserve(memory, ss, es, n);
    OrphansAreUnbooked(memory, ss, es, n, p);
    UnbookedIff(ss[n], p);
  }

  /** When callers hand over only their own blocks, nothing leaks exactly if every granted
      block could be queued. */
  lemma {:induction false} NoOrphansIff(es: seq<Event>)
    requires forall i, j :: 0 <= i < |es| && 0 <= j < |es| && es[i].RecvCb? && es[j].Send? ==> es[i].p != es[j].m.data
    ensures Orphans(es) == {} <==> forall e :: e in es ==> !(e.RecvCb? && e.granted && !e.pushed)
    ensures forall p :: p in Orphans(es) ==> exists i :: 0 <= i < |es| && es[i].RecvCb? && es[i].p == p
    decreases |es|
  {
    if es != [] {
      var front, e := es[..|es| - 1], es[|es| - 1];
      NoOrphansIff(front);
      assert es == front + [e];
      assert forall i :: 0 <= i < |front| ==> front[i] == es[i];
      if e.RecvCb? && e.granted && !e.pushed {
        assert e.p in Orphans(es) && e in es;
      } else if e.Send? && e.pushed && e.m.mem == HEAP_MEM {
        assert e.m.data !in Orphans(front);
        assert Orphans(es) == Orphans(front);
      }
    }
  }

  // ----- no lost wakeup

  /** Something is on its way that makes server_task look at the queue again. */
  ghost predicate Awake(s: State) {
    && (s.sending ==> s.txDone + s.inFlight > 0)
    && (s.sendq != [] ==> s.tx + s.txDone + s.inFlight > 0)
  }

  /** The task waits for a callback that will not come... */
  ghost predicate Wedged(s: State) {
    s.sending && s.txDone == 0 && s.inFlight == 0
  }

  /** ...or, with messages queued, for a signal. */
  ghost predicate Stranded(s: State) {
    !s.sending && s.sendq != [] && s.tx == 0 && s.txDone == 0 && s.inFlight == 0
  }

  lemma AsleepIff(s: State)
    ensures !Awake(s) <==> Wedged(s) || Stranded(s)
  {
  }

  /** The events that wedge an awake server: the only chunk on its way is refused while more
      is to follow it, its completion cannot be posted, or its connection ends. */
  predicate Wedges(s: State, e: Event) {
    match e
    case Tx(ok) => !ok && !s.sending && s.sendq != [] && s.txDone == 0 && s.inFlight == 0
    case TxDone(ok, _) =>
      !ok && s.sending && s.more && s.sendingLen > TCP_MAX_PACKET_SIZE && s.txDone == 1 && s.inFlight == 0
    case SentCb(posted) => !posted && s.sending && s.txDone == 0 && s.inFlight == 1
    case ConnGone(lost) => s.sending && s.txDone == 0 && 0 < lost == s.inFlight
    case _ => false
  }

  /** The events that strand it: the last fragment of a message is refused, the signal for the
      messages queued cannot be posted, or the connection ends that it was to follow. */
  predicate Strands(s: State, e: Event) {
    match e
    case TxDone(ok, posted) =>
      && s.sendq != [] && s.tx == 0 && s.txDone == 1 && s.inFlight == 0
      && if s.sending && s.more then !ok && s.sendingLen <= TCP_MAX_PACKET_SIZE else !posted
    case SentCb(posted) =>
      !posted && !s.sending && s.sendq != [] && s.tx == 0 && s.txDone == 0 && s.inFlight == 1
    case ConnGone(lost) =>
      !s.sending && s.sendq != [] && s.tx == 0 && s.txDone == 0 && 0 < lost == s.inFlight
    case Send(_, pushed, posted) =>
      pushed && !posted && !s.sending && s.tx == 0 && s.txDone == 0 && s.inFlight == 0
    case _ => false
  }

  /** Clearing leaves the send state and the pending events alone. */
  lemma ClearedStatics(s: State)
    requires Sound(s)
    ensures Cleared(s) == s.(sendq := [], recvq := [], live := Cleared(s).live, freed := Cleared(s).freed,
                             kept := Cleared(s).kept)
  {
    hide Sound, QueueStream, FreedAll;
    ClearSendq(s);
    var n := |QueueStream(s.sendq, s.memory)|;
    var kept := if n <= |s.kept| then s.kept[..|s.kept| - n] else [];
    var s1 := FreedAll(s, s.sendq).(sendq := []);
    KeptFrame(s1, kept);
    ClearRecvq(s1.(kept := kept));
  }

  /** At most one chunk is handed over, with this outcome. */
  ghost predicate OneMore(out: seq<Handover>, next: seq<Handover>, ok: bool) {
    next == out || (|next| == |out| + 1 && next[..|out|] == out && next[|out|].accepted == ok)
  }

  /** What receiving, the callers and the history of chunks see of a step. */
  ghost predicate SameButOneMore(s: State, t: State, ok: bool) {
    && t.recvq == s.recvq && t.rx == s.rx && t.memory == s.memory && t.owed == s.owed
    && t.parsed == s.parsed && t.kept == s.kept && OneMore(s.out, t.out, ok)
  }

  lemma SentFrame(s: State, conn: Conn, p: Ptr, from: nat, n: nat, ok: bool)
    ensures SameButOneMore(s, Sent(s, conn, p, from, n, ok), ok)
  {
  }

  lemma FreedFrame(s: State, p: Ptr, mem: Memtype)
    ensures var t := FreedIf(s, p, mem);
            && t.recvq == s.recvq && t.rx == s.rx && t.memory == s.memory && t.owed == s.owed && t.out == s.out
            && t.parsed == s.parsed && t.kept == s.kept
  {
  }

  lemma TxFrame(s: State, ok: bool)
    requires s.tx > 0
    ensures SameButOneMore(s, TxTask(s, ok), ok)
  {
    hide Sent, FreedIf, OneMore;
    NoneMore(s.out, ok);
    if !s.sending && s.sendq != [] {
      var m := s.sendq[0];
      var s2 := s.(tx := s.tx - 1, sending := true, sendq := s.sendq[1..]);
      if m.len <= TCP_MAX_PACKET_SIZE {
        var s3 := s2.(more := false);
        SentFrame(s3, m.conn, m.data, 0, m.len, ok);
        FreedFrame(Sent(s3, m.conn, m.data, 0, m.len, ok), m.data, m.mem);
      } else {
        var s3 := s2.(more := true, sendingConn := m.conn, first := m.data, current := 0, sendingLen := m.len,
                      sendingMem := m.mem);
        SentFrame(s3, m.conn, m.data, 0, TCP_MAX_PACKET_SIZE, ok);
      }
    }
  }

  lemma NoneMore(out: seq<Handover>, ok: bool)
    ensures OneMore(out, out, ok)
  {
  }

  lemma TxDoneFrame(s: State, ok: bool, posted: bool)
    requires s.txDone > 0
    ensures SameButOneMore(s, TxDoneTask(s, ok, posted), ok)
  {
    hide Sent, FreedIf, OneMore;
    NoneMore(s.out, ok);
    if s.sending && s.more {
      var s1 := s.(txDone := s.txDone - 1);
      if s.sendingLen <= TCP_MAX_PACKET_SIZE {
        var s2 := s1.(more := false);
        SentFrame(s2, s.sendingConn, s.first, s.current, s.sendingLen, ok);
        FreedFrame(Sent(s2, s.sendingConn, s.first, s.current, s.sendingLen, ok), s.first, s.sendingMem);
      } else {
        SentFrame(s1, s.sendingConn, s.first, s.current, TCP_MAX_PACKET_SIZE, ok);
      }
    }
  }

  lemma SendFrame(s: State, m: Message, pushed: bool, posted: bool)
    ensures var t := Sending(s, m, pushed, posted);
            && t.recvq == s.recvq && t.rx == s.rx && t.memory == s.memory && t.out == s.out && t.parsed == s.parsed
            && t.owed == if pushed && m.mem == HEAP_MEM then s.owed + [m.data] else s.owed
  {
    hide MessageStream;
  }

  /** The sending side is as before. */
  ghost predicate SameSending(s: State, t: State) {
    && t.sending == s.sending && t.tx == s.tx && t.txDone == s.txDone && t.inFlight == s.inFlight
    && t.sendq == s.sendq && t.memory == s.memory && t.owed == s.owed && t.out == s.out
  }

  lemma FreedSleeps(s: State, p: Ptr, mem: Memtype)
    ensures SameSending(s, FreedIf(s, p, mem))
  {
  }

  lemma RxSleeps(s: State)
    requires s.rx > 0
    ensures SameSending(s, RxTask(s))
  {
    hide FreedIf;
    if s.recvq != [] {
      var m := s.recvq[0];
      var s2 := s.(rx := s.rx - 1, recvq := s.recvq[1..]);
      var s3 := if Readable(s2, m.data, 0, m.len) then
                  s2.(parsed := s.parsed + [Chunk(m.conn, s.memory[m.data][..m.len])])
                else s2.(fault := true);
      FreedSleeps(s3, m.data, m.mem);
    }
  }

  lemma TxSleeps(s: State, ok: bool)
    requires Awake(s) && s.tx > 0
    ensures Wedged(TxTask(s, ok)) <==> Wedges(s, Tx(ok))
    ensures !Stranded(TxTask(s, ok))
  {
  }

  lemma TxDoneSleeps(s: State, ok: bool, posted: bool)
    requires Awake(s) && s.txDone > 0
    ensures Wedged(TxDoneTask(s, ok, posted)) <==> Wedges(s, TxDone(ok, posted))
    ensures Stranded(TxDoneTask(s, ok, posted)) <==> Strands(s, TxDone(ok, posted))
  {
  }

  lemma SendSleeps(s: State, m: Message, pushed: bool, posted: bool)
    requires Awake(s)
    ensures !Wedged(Sending(s, m, pushed, posted))
    ensures Stranded(Sending(s, m, pushed, posted)) <==> Strands(s, Send(m, pushed, posted))
  {
    hide MessageStream;
  }

  lemma ReceivedSleeps(s: State, conn: Conn, bytes: seq<byte>, p: Ptr, granted: bool, pushed: bool, posted: bool)
    requires |bytes| < 0x1_0000 && p !in s.memory && Awake(s)
    ensures Awake(Received(s, conn, bytes, p, granted, pushed, posted))
  {
  }

  /** Exactly which events put an awake server to sleep, and how. */
  lemma FallsAsleepIff(s: State, e: Event)
    requires Sound(s) && Enabled(s, e) && Awake(s)
    ensures Wedged(Step(s, e)) <==> Wedges(s, e)
    ensures Stranded(Step(s, e)) <==> Strands(s, e)
    ensures Awake(Step(s, e)) <==> !Wedges(s, e) && !Strands(s, e)
  {
    AsleepIff(Step(s, e));
    hide Sound, Sendable, QueueStream, MessageStream, FreedAll, Cleared, RxTask, TxTask, TxDoneTask;
    hide Sending, Received;
    match e {
      case Rx => RxSleeps(s);
      case Tx(ok) => TxSleeps(s, ok);
      case TxDone(ok, posted) => TxDoneSleeps(s, ok, posted);
      case Close => ClearedStatics(s);
      case Send(m, pushed, posted) => SendSleeps(s, m, pushed, posted);
      case RecvCb(conn, bytes, p, granted, pushed, posted) =>
        ReceivedSleeps(s, conn, bytes, p, granted, pushed, posted);
      case _ =>
    }
  }

  /** A run stays awake exactly as long as no event wedges or strands it. */
  lemma {:induction false} WakeupLostIff(memory: map<Ptr, seq<byte>>, ss: seq<State>, es: seq<Event>, n: nat)
    requires IsRun(ss, es) && ss[0] == Initial(memory) && n < |ss|
    ensures (forall i :: 0 <= i <= n ==> Awake(ss[i]))
       <==> (forall i :: 0 <= i < n ==> !Wedges(ss[i], es[i]) && !Strands(ss[i], es[i]))
  {
    hide Sound, Conserved, Step, Enabled, IsRun, Awake, Wedges, Strands, Wedged, Stranded;
    if n == 0 {
      InitialHolds(memory);
    } else {
      WakeupLostIff(memory, ss, es, n - 1);
      RunsConserve(memory, ss, es, n - 1);
      RunStep(ss, es, n - 1);
      if Awake(ss[n - 1]) {
        FallsAsleepIff(ss[n - 1], es[n - 1]);
      }
    }
  }

  /** Posts succeed, and the connections accept every chunk and last until it is sent. */
  predicate Clean(e: Event) {
    match e
    case Tx(ok) => ok
    case TxDone(ok, posted) => ok && posted
    case Send(_, _, posted) => posted
    case RecvCb(_, _, _, _, _, posted) => posted
    case SentCb(posted) => posted
    case ConnGone(lost) => lost == 0
    case _ => true
  }

  lemma CleanIsSafe(s: State, e: Event)
    requires Clean(e)
    ensures !Wedges(s, e) && !Strands(s, e)
  {
  }

  /** In particular, a run in which nothing is refused, no post fails and no connection ends
      with a send in flight loses no wakeup. */
  lemma NoLostWakeup(memory: map<Ptr, seq<byte>>, ss: seq<State>, es: seq<Event>, n: nat)
    requires IsRun(ss, es) && ss[0] == Initial(memory) && n < |ss| && forall e :: e in es ==> Clean(e)
    ensures Awake(ss[n])
  {
    hide Awake, Wedges, Strands, StepsTo, Clean;
    WakeupLostIff(memory, ss, es, n);
    forall i | 0 <= i < n
      ensures !Wedges(ss[i], es[i]) && !Strands(ss[i], es[i])
    {
      CleanIsSafe(ss[i], es[i]);
    }
  }

  /** Nothing but a stray TX_DONE makes a wedged server send again; messages pile up. */
  lemma WedgedForever(s: State, e: Event)
    requires Sound(s) && Wedged(s) && Enabled(s, e) && e != Stray
    ensures Wedged(Step(s, e)) && Step(s, e).out == s.out
    ensures e.Send? && e.pushed ==> Step(s, e).sendq == s.sendq + [e.m]
  {
    hide Sound, Sendable, QueueStream, MessageStream, FreedAll, Cleared;
    if e == Close {
      ClearedStatics(s);
    }
  }

  /** A stranded one stays so, and sends nothing, until a push is posted, the queue is
      cleared or a stray TX_DONE comes; each of these wakes it. */
  lemma StrandedUntil(s: State, e: Event)
    requires Sound(s) && Stranded(s) && Enabled(s, e)
    ensures Step(s, e).out == s.out
    ensures var wakes := e == Stray || e == Close || (e.Send? && e.pushed && e.posted);
            if wakes then Awake(Step(s, e)) else Stranded(Step(s, e))
  {
    hide Sound, Sendable, QueueStream, MessageStream, FreedAll, Cleared;
    if e == Close {
      ClearedStatics(s);
    }
  }

  // ----- received messages and their signals

  /** There is an RX signal for every received message. */
  ghost predicate Heeded(s: State) {
    |s.recvq| <= s.rx
  }

  lemma RxHeeds(s: State)
    requires s.rx > 0
    ensures RxTask(s).rx == s.rx - 1 && RxTask(s).recvq == if s.recvq == [] then [] else s.recvq[1..]
  {
    hide FreedIf;
    if s.recvq != [] {
      var m := s.recvq[0];
      var s2 := s.(rx := s.rx - 1, recvq := s.recvq[1..]);
      var s3 := if Readable(s2, m.data, 0, m.len) then
                  s2.(parsed := s.parsed + [Chunk(m.conn, s.memory[m.data][..m.len])])
                else s2.(fault := true);
      FreedFrame(s3, m.data, m.mem);
    }
  }

  /** A message is received whose signal cannot be posted, and none is left over. */
  predicate Unheeds(s: State, e: Event) {
    e.RecvCb? && e.granted && e.pushed && !e.posted && |s.recvq| == s.rx
  }

  /** Exactly a received message whose signal cannot be posted goes unheeded. */
  lemma UnheededIff(s: State, e: Event)
    requires Sound(s) && Enabled(s, e) && Heeded(s)
    ensures Heeded(Step(s, e)) <==> !Unheeds(s, e)
  {
    hide Sound, Sendable, QueueStream, MessageStream, FreedAll, Cleared, RxTask, TxTask, TxDoneTask, Sending;
    match e {
      case Rx => RxHeeds(s);
      case Tx(ok) => TxFrame(s, ok);
      case TxDone(ok, posted) => TxDoneFrame(s, ok, posted);
      case Send(m, pushed, posted) => SendFrame(s, m, pushed, posted);
      case Close => ClearedStatics(s);
      case _ =>
    }
  }

  /** Received messages outnumber their signals until the queue is cleared. */
  lemma UnheededUntil(s: State, e: Event)
    requires Sound(s) && Enabled(s, e) && !Heeded(s)
    ensures Heeded(Step(s, e)) <==> e == Close
  {
    hide Sound, Sendable, QueueStream, MessageStream, FreedAll, Cleared, RxTask, TxTask, TxDoneTask, Sending;
    match e {
      case Rx => RxHeeds(s);
      case Tx(ok) => TxFrame(s, ok);
      case TxDone(ok, posted) => TxDoneFrame(s, ok, posted);
      case Send(m, pushed, posted) => SendFrame(s, m, pushed, posted);
      case Close => ClearedStatics(s);
      case _ =>
    }
  }

  /** Over a run there is a signal for every received message as long as each could be posted. */
  lemma {:induction false} SignalLostIff(memory: map<Ptr, seq<byte>>, ss: seq<State>, es: seq<Event>, n: nat)
    requires IsRun(ss, es) && ss[0] == Initial(memory) && n < |ss|
    ensures (forall i :: 0 <= i <= n ==> Heeded(ss[i])) <==> (forall i :: 0 <= i < n ==> !Unheeds(ss[i], es[i]))
  {
    hide Sound, Conserved, Step, Enabled, IsRun, Unheeds, SentBytes, Rest, QueueStream, NothingRefused;
    if n > 0 {
      hide Heeded;
      SignalLostIff(memory, ss, es, n - 1);
      RunsConserve(memory, ss, es, n - 1);
      RunStep(ss, es, n - 1);
      if Heeded(ss[n - 1]) {
        UnheededIff(ss[n - 1], es[n - 1]);
      }
    }
  }
}
