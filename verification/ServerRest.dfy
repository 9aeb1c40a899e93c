/** The TCP server comes to rest, and what is done then. */
module ServerRest {
  import opened Octets
  import opened ServerSpec
  import opened ServerRuns
  import opened ServerStreams
  import opened ServerReceives

  /** Events that go on once nothing is pushed any more. */
  predicate Quiet(e: Event) {
    e == Rx || e == Tx(true) || e == TxDone(true, true) || e == SentCb(true)
  }

  function QueueWork(q: seq<Message>): nat
    decreases |q|
  {
    if q == [] then 0 else q[0].len + 1 + QueueWork(q[1..])
  }

  /** Bytes and messages left. */
  function Work(s: State): nat {
    QueueWork(s.sendq) + if s.more then s.sendingLen else 0
  }

  function Measure(s: State): nat {
    3 * Work(s) + 3 * s.inFlight + 2 * s.txDone + s.tx + s.rx
  }

  lemma RxDecreases(s: State)
    requires s.rx > 0
    ensures Measure(RxTask(s)) < Measure(s)
  {
  }

  lemma TxDecreases(s: State)
    requires Sound(s) && s.tx > 0
    ensures Measure(TxTask(s, true)) < Measure(s)
  {
    hide Sound;
    SoundLength(s);
    if s.sendq != [] {
      SendqUsed(s);
    }
  }

  lemma TxDoneDecreases(s: State)
    requires Sound(s) && s.txDone > 0
    ensures Measure(TxDoneTask(s, true, true)) < Measure(s)
  {
    hide Sound;
    SoundLength(s);
    if s.more {
      CurrentReadable(s);
    }
  }

  lemma QuietStepDecreases(s: State, e: Event)
    requires Sound(s) && Enabled(s, e) && Quiet(e)
    ensures Measure(Step(s, e)) < Measure(s)
  {
    hide Sound, RxTask, TxTask, TxDoneTask;
    match e {
      case Rx => RxDecreases(s);
      case Tx(_) => TxDecreases(s);
      case TxDone(_, _) => TxDoneDecreases(s);
      case SentCb(_) =>
    }
  }

  lemma SoundLength(s: State)
    requires Sound(s)
    ensures s.more ==> s.sending && s.sendingLen > 0
  {
  }

  lemma AcceptedOnly(s: State, e: Event)
    requires Enabled(s, e) && Quiet(e)
    ensures NothingRefused(Step(s, e).out) <==> NothingRefused(s.out)
  {
    hide NothingRefused, RxTask, TxTask, TxDoneTask, Sendable;
    match e {
      case Rx => RxSleeps(s);
      case Tx(ok) => TxFrame(s, ok);
      case TxDone(ok, posted) => TxDoneFrame(s, ok, posted);
      case SentCb(_) =>
    }
    var t, n := Step(s, e), |s.out|;
    if t.out != s.out {
      RefusedAppended(s.out, t.out[n]);
      assert t.out == s.out + [t.out[n]];
    }
  }

  lemma RefusedAppended(out: seq<Handover>, h: Handover)
    requires h.accepted
    ensures NothingRefused(out + [h]) <==> NothingRefused(out)
  {
    assert forall x :: x in out ==> x in out + [h];
  }

  lemma QuietParses(s: State, e: Event)
    requires Sound(s) && Enabled(s, e) && Quiet(e)
    ensures Step(s, e).kept == s.kept && Step(s, e).memory == s.memory
    ensures Step(s, e).parsed + ChunksOf(Step(s, e).recvq, s.memory) == s.parsed + ChunksOf(s.recvq, s.memory)
  {
    hide Sound, RxTask, TxTask, TxDoneTask, Sendable, ChunkOf, OneMore;
    match e {
      case Rx =>
        RxParses(s);
        if s.recvq != [] {
          var cs := ChunksOf(s.recvq, s.memory);
          assert ChunksOf(s.recvq[1..], s.memory) == cs[1..];
          MoveFirst(s.parsed, cs);
        }
      case Tx(ok) => TxFrame(s, ok);
      case TxDone(ok, posted) => TxDoneFrame(s, ok, posted);
      case SentCb(_) =>
    }
  }

  /** Without pushes the server comes to rest within a number of steps fixed beforehand.
      Then every byte pushed and not cleared has been sent, exactly if none was refused
      before, every received message has been parsed, and every heap block handed over has
      been freed. */
  lemma {:induction false} EverythingIsSent(ss: seq<State>, es: seq<Event>, n: nat)
    requires IsRun(ss, es) && n < |ss| && Sound(ss[0]) && Conserved(ss[0]) && Awake(ss[0]) && Heeded(ss[0])
    requires forall e :: e in es ==> Quiet(e)
    ensures Measure(ss[n]) + n <= Measure(ss[0])
    ensures Sound(ss[n]) && Conserved(ss[n]) && Awake(ss[n]) && Heeded(ss[n])
    ensures NothingRefused(ss[n].out) <==> NothingRefused(ss[0].out)
    ensures (forall e :: Quiet(e) ==> !Enabled(ss[n], e)) ==>
              && ss[n].sendq == [] && Bytes(ss[n].out) == ss[n].kept
              && (SentBytes(ss[n].out) == ss[n].kept <==> NothingRefused(ss[0].out))
              && multiset(ss[n].freed) == multiset(ss[n].owed)
              && ss[n].parsed == ss[0].parsed + ChunksOf(ss[0].recvq, ss[0].memory)
    ensures ss[n].kept == ss[0].kept && ss[n].memory == ss[0].memory
    ensures ss[n].parsed + ChunksOf(ss[n].recvq, ss[n].memory) == ss[0].parsed + ChunksOf(ss[0].recvq, ss[0].memory)
  {
    hide Sound, Conserved, Step, Enabled, IsRun, Awake, Heeded, Measure;
    hide Bytes, SentBytes, NothingRefused, Wedges, Strands;
    if n > 0 {
      EverythingIsSent(ss, es, n - 1);
      RunStep(ss, es, n - 1);
      var s, e := ss[n - 1], es[n - 1];
      assert Quiet(e) && Clean(e);
      StepSound(s, e);
      StepConserves(s, e);
      FallsAsleepIff(s, e);
      CleanIsSafe(s, e);
      UnheededIff(s, e);
      AcceptedOnly(s, e);
      QuietStepDecreases(s, e);
      QuietParses(s, e);
    }
    if forall e :: Quiet(e) ==> !Enabled(ss[n], e) {
      AtRest(ss[n]);
    }
  }

  lemma AtRest(s: State)
    requires Sound(s) && Conserved(s) && Awake(s) && Heeded(s) && forall e :: Quiet(e) ==> !Enabled(s, e)
    ensures s.sendq == [] && Bytes(s.out) == s.kept
    ensures SentBytes(s.out) == s.kept <==> NothingRefused(s.out)
    ensures multiset(s.freed) == multiset(s.owed) && s.recvq == []
  {
    hide Holdable, Bytes, SentBytes, NothingRefused;
    assert !Enabled(s, Rx) && !Enabled(s, Tx(true)) && !Enabled(s, TxDone(true, true)) && !Enabled(s, SentCb(true));
    assert s.sendq == [] && s.recvq == [] && !s.more;
    assert Bytes(s.out) + [] + [] == Bytes(s.out) && SentBytes(s.out) + [] + [] == SentBytes(s.out);
    SentIff(s);
    assert Owned(s) == multiset{};
  }
}
