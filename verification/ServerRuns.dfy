/** Properties of the TCP server over whole runs. */
module ServerRuns {
  import opened Octets
  import opened ServerSpec

  // ----- memory

  /** The heap blocks that the messages of a queue own. */
  function HeapPtrs(q: seq<Message>): multiset<Ptr> {
    if q == [] then multiset{}
    else HeapPtrs(q[..|q| - 1]) + if q[|q| - 1].mem == HEAP_MEM then multiset{q[|q| - 1].data} else multiset{}
  }

  function CurrentPtr(s: State): multiset<Ptr> {
    if s.more && s.sendingMem == HEAP_MEM then multiset{s.first} else multiset{}
  }

  /** Every heap block that a queued or partly sent message owns. */
  function Owned(s: State): multiset<Ptr> {
    HeapPtrs(s.sendq) + HeapPtrs(s.recvq) + CurrentPtr(s)
  }

  /** The books on memory: blocks owned by messages, freed, ever handed over, allocated,
      static, and ever seen. */
  datatype Ledger = Ledger(owned: multiset<Ptr>, freed: seq<Ptr>, owed: seq<Ptr>, live: set<Ptr>,
                           statics: set<Ptr>, known: set<Ptr>)

  function LedgerOf(s: State): Ledger {
    Ledger(Owned(s), s.freed, s.owed, s.live, s.statics, s.memory.Keys)
  }

  /** Each heap block ever handed over is owned by one message or has been freed, once; what
      is owned or static is allocated. */
  ghost predicate Balanced(l: Ledger) {
    && l.owned + multiset(l.freed) == multiset(l.owed)
    && (forall p :: multiset(l.owed)[p] <= 1)
    && (forall p :: p in l.owned ==> p in l.live)
    && (forall p :: p in l.statics ==> p in l.live && p !in l.owed)
    && (forall p :: p in l.freed ==> p !in l.live)
    && l.live <= l.known
    && (forall p :: p in l.known ==> p in l.live || p in l.freed)
    && (forall p :: p in l.owed ==> p in l.known)
  }

  function AfterFree(l: Ledger, p: Ptr): Ledger {
    l.(owned := l.owned - multiset{p}, freed := l.freed + [p], live := l.live - {p})
  }

  lemma FreeBalanced(l: Ledger, p: Ptr)
    requires Balanced(l) && p in l.owned
    ensures p in l.live && p in l.owed && p !in l.freed && p !in l.statics && Balanced(AfterFree(l, p))
  {
    var f := AfterFree(l, p);
    assert multiset(f.freed) == multiset(l.freed) + multiset{p};
    assert (l.owned + multiset(l.freed))[p] <= 1;
    assert p in multiset(l.owed);
  }

  function AfterHeapPush(l: Ledger, p: Ptr): Ledger {
    l.(owned := l.owned + multiset{p}, owed := l.owed + [p])
  }

  lemma HeapPushBalanced(l: Ledger, p: Ptr)
    requires Balanced(l) && p in l.live && p !in l.owed && p !in l.statics
    ensures Balanced(AfterHeapPush(l, p))
  {
    assert multiset(l.owed + [p]) == multiset(l.owed) + multiset{p};
    assert p !in multiset(l.owed);
  }

  function AfterGrant(l: Ledger, p: Ptr): Ledger {
    l.(live := l.live + {p}, known := l.known + {p})
  }

  /** Every queued message refers to known memory, static memory being booked as such. */
  ghost predicate Holdable(s: State, m: Message) {
    && m.data in s.memory && m.len <= |s.memory[m.data]|
    && (m.mem == STATIC_MEM ==> m.data in s.statics)
  }

  ghost predicate Held(s: State) {
    && !s.fault
    && (forall m :: m in s.sendq ==> Holdable(s, m))
    && (forall m :: m in s.recvq ==> Holdable(s, m))
    && (s.more ==> s.sending && s.sendingLen > 0 && s.first in s.memory
                   && s.current + s.sendingLen <= |s.memory[s.first]|
                   && (s.sendingMem == STATIC_MEM ==> s.first in s.statics))
  }

  ghost predicate Sound(s: State) {
    Held(s) && Balanced(LedgerOf(s))
  }

  lemma {:induction false} HeapPtrsFirst(q: seq<Message>)
    requires q != []
    ensures HeapPtrs(q) == (if q[0].mem == HEAP_MEM then multiset{q[0].data} else multiset{}) + HeapPtrs(q[1..])
    decreases |q|
  {
    if |q| > 1 {
      assert q[1..][..|q| - 2] == q[..|q| - 1][1..];
      HeapPtrsFirst(q[..|q| - 1]);
    } else {
      assert q[..0] == q[1..] == [];
    }
  }

  lemma HeapPtrsLast(q: seq<Message>, m: Message)
    ensures HeapPtrs(q + [m]) == HeapPtrs(q) + if m.mem == HEAP_MEM then multiset{m.data} else multiset{}
  {
    assert (q + [m])[..|q|] == q;
  }

  /** The message at the head of a queue can be read and, if it is heap memory, freed. */
  lemma HeadReadable(s: State, q: seq<Message>)
    requires Sound(s) && q != [] && (q == s.sendq || q == s.recvq)
    ensures Readable(s, q[0].data, 0, q[0].len)
    ensures q[0].mem == HEAP_MEM ==> q[0].data in Owned(s)
  {
    HeapPtrsFirst(q);
    assert Holdable(s, q[0]);
  }

  lemma CurrentReadable(s: State)
    requires Sound(s) && s.more
    ensures Readable(s, s.first, s.current, s.sendingLen)
    ensures s.sendingMem == HEAP_MEM ==> s.first in Owned(s)
  {
  }

  /** The books after a message has been used up. */
  function AfterUse(l: Ledger, p: Ptr, mem: Memtype): Ledger {
    if mem == HEAP_MEM then AfterFree(l, p) else l
  }

  lemma UseBalanced(l: Ledger, p: Ptr, mem: Memtype)
    requires Balanced(l) && (mem == HEAP_MEM ==> p in l.owned)
    ensures Balanced(AfterUse(l, p, mem)) && (mem == HEAP_MEM ==> p in l.live)
  {
    if mem == HEAP_MEM {
      FreeBalanced(l, p);
    }
  }

  lemma TakeFirst(p: Ptr, rest: multiset<Ptr>, others: multiset<Ptr>, current: multiset<Ptr>)
    ensures (multiset{p} + rest) + others + current - multiset{p} == rest + others + current
    ensures others + (multiset{p} + rest) + current - multiset{p} == others + rest + current
    ensures rest + others + multiset{p} - multiset{p} == rest + others + multiset{}
    ensures multiset{} + rest == rest
    ensures rest + others + current + multiset{p} == (rest + multiset{p}) + others + current
    ensures rest + others + current + multiset{p} == rest + (others + multiset{p}) + current
    ensures rest + multiset{} == rest
  {
  }

  /** Messages and the part being sent stay held as long as none are added. */
  lemma HeldShrinks(s: State, t: State)
    requires Held(s) && !t.fault && t.memory == s.memory && t.statics == s.statics
    requires forall m :: m in t.sendq ==> m in s.sendq
    requires forall m :: m in t.recvq ==> m in s.recvq
    requires t.more ==> s.more && t.sending && t.first == s.first && t.sendingMem == s.sendingMem
                        && t.sendingLen > 0 && t.current + t.sendingLen <= s.current + s.sendingLen
    ensures Held(t)
  {
  }

  /** The head of a queue leaves it and, if it is heap memory, is freed. */
  lemma SendqUsed(s: State)
    requires Sound(s) && s.sendq != []
    ensures Readable(s, s.sendq[0].data, 0, s.sendq[0].len)
    ensures s.sendq[0].mem == HEAP_MEM ==> s.sendq[0].data in s.live
    ensures Sound(FreedIf(s.(sendq := s.sendq[1..]), s.sendq[0].data, s.sendq[0].mem))
  {
    hide Balanced, HeapPtrs, Held;
    var m, rest := s.sendq[0], s.sendq[1..];
    HeadReadable(s, s.sendq);
    HeapPtrsFirst(s.sendq);
    UseBalanced(LedgerOf(s), m.data, m.mem);
    TakeFirst(m.data, HeapPtrs(rest), HeapPtrs(s.recvq), CurrentPtr(s));
    var s1 := FreedIf(s.(sendq := rest), m.data, m.mem);
    assert LedgerOf(s1) == AfterUse(LedgerOf(s), m.data, m.mem);
    NotFaulty(s);
    HeldShrinks(s, s1);
  }

  lemma RecvqUsed(s: State)
    requires Sound(s) && s.recvq != []
    ensures Readable(s, s.recvq[0].data, 0, s.recvq[0].len)
    ensures s.recvq[0].mem == HEAP_MEM ==> s.recvq[0].data in s.live
    ensures Sound(FreedIf(s.(recvq := s.recvq[1..]), s.recvq[0].data, s.recvq[0].mem))
  {
    hide Balanced, HeapPtrs, Held;
    var m, rest := s.recvq[0], s.recvq[1..];
    HeadReadable(s, s.recvq);
    HeapPtrsFirst(s.recvq);
    UseBalanced(LedgerOf(s), m.data, m.mem);
    TakeFirst(m.data, HeapPtrs(rest), HeapPtrs(s.sendq), CurrentPtr(s));
    var s1 := FreedIf(s.(recvq := rest), m.data, m.mem);
    assert LedgerOf(s1) == AfterUse(LedgerOf(s), m.data, m.mem);
    NotFaulty(s);
    HeldShrinks(s, s1);
  }

  lemma NotFaulty(s: State)
    requires Held(s)
    ensures !s.fault && (s.more ==> s.sending && s.sendingLen > 0)
  {
  }

  /** What soundness is about. */
  lemma SameSoundness(s: State, t: State)
    requires Sound(s) && t.sendq == s.sendq && t.recvq == s.recvq && t.memory == s.memory && t.live == s.live
    requires t.freed == s.freed && !t.fault && t.owed == s.owed && t.statics == s.statics
    requires t.more ==> s.more && t.sending && t.first == s.first && t.sendingMem == s.sendingMem
                        && t.sendingLen > 0 && t.current + t.sendingLen <= s.current + s.sendingLen
    requires s.more ==> t.more
    ensures Sound(t)
  {
    hide Balanced, HeapPtrs, Held;
    assert LedgerOf(t) == LedgerOf(s);
    HeldShrinks(s, t);
  }

  lemma FreedIsGone(s: State, p: Ptr)
    requires Sound(s) && p in s.freed
    ensures p !in s.live
  {
  }

  lemma RxSound(s: State)
    requires Sound(s) && s.rx > 0
    ensures Sound(RxTask(s))
  {
    hide Sound;
    if s.recvq == [] {
      RxQuiet(s);
    } else {
      RecvqUsed(s);
      UsedRx(s);
    }
  }

  lemma RxQuiet(s: State)
    requires Sound(s) && s.rx > 0
    ensures Sound(s.(rx := s.rx - 1))
  {
    SameSoundness(s, s.(rx := s.rx - 1));
  }

  lemma UsedRx(s: State)
    requires s.rx > 0 && s.recvq != [] && Readable(s, s.recvq[0].data, 0, s.recvq[0].len)
    requires s.recvq[0].mem == HEAP_MEM ==> s.recvq[0].data in s.live
    requires Sound(FreedIf(s.(recvq := s.recvq[1..]), s.recvq[0].data, s.recvq[0].mem))
    ensures Sound(RxTask(s))
  {
    SameSoundness(FreedIf(s.(recvq := s.recvq[1..]), s.recvq[0].data, s.recvq[0].mem), RxTask(s));
  }

  lemma TxSound(s: State, ok: bool)
    requires Sound(s) && s.tx > 0
    ensures Sound(TxTask(s, ok))
  {
    hide Balanced, HeapPtrs;
    if s.sending || s.sendq == [] {
      SameSoundness(s, TxTask(s, ok));
    } else {
      var m := s.sendq[0];
      SendqUsed(s);
      if m.len <= TCP_MAX_PACKET_SIZE {
        SameSoundness(FreedIf(s.(sendq := s.sendq[1..]), m.data, m.mem), TxTask(s, ok));
      } else {
        TxLong(s, ok);
      }
    }
  }

  lemma TxLong(s: State, ok: bool)
    requires Sound(s) && s.tx > 0 && !s.sending && s.sendq != [] && s.sendq[0].len > TCP_MAX_PACKET_SIZE
    requires Readable(s, s.sendq[0].data, 0, s.sendq[0].len)
    ensures Sound(TxTask(s, ok))
  {
    hide Balanced, HeapPtrs;
    var m, t := s.sendq[0], TxTask(s, ok);
    HeapPtrsFirst(s.sendq);
    TakeFirst(m.data, HeapPtrs(s.sendq[1..]), HeapPtrs(s.recvq), multiset{});
    assert LedgerOf(t) == LedgerOf(s) by {
      hide Holdable;
    }
    hide Owned;
    assert Holdable(s, m);
    HeldShrinks(s, t.(more := false));
    assert Held(t);
  }

  /** What the last fragment leaves of the server's memory. */
  lemma LastFragmentIs(s: State, ok: bool, posted: bool)
    requires s.txDone > 0 && s.sending && s.more && s.sendingLen <= TCP_MAX_PACKET_SIZE
    requires Readable(s, s.first, s.current, s.sendingLen)
    ensures var t, heap := TxDoneTask(s, ok, posted), s.sendingMem == HEAP_MEM;
            && t.sendq == s.sendq && t.recvq == s.recvq && t.memory == s.memory && t.statics == s.statics
            && t.owed == s.owed && !t.more && t.fault == s.fault
            && t.live == (if heap then s.live - {s.first} else s.live)
            && t.freed == (if heap then s.freed + [s.first] else s.freed)
  {
  }

  lemma LastFragmentSound(s: State, ok: bool, posted: bool)
    requires Sound(s) && s.txDone > 0 && s.sending && s.more && s.sendingLen <= TCP_MAX_PACKET_SIZE
    ensures Sound(TxDoneTask(s, ok, posted))
  {
    hide Balanced, HeapPtrs, Held, TxDoneTask;
    NotFaulty(s);
    CurrentReadable(s);
    LastFragmentIs(s, ok, posted);
    UseBalanced(LedgerOf(s), s.first, s.sendingMem);
    TakeFirst(s.first, HeapPtrs(s.sendq), HeapPtrs(s.recvq), CurrentPtr(s));
    assert LedgerOf(TxDoneTask(s, ok, posted)) == AfterUse(LedgerOf(s), s.first, s.sendingMem);
    HeldShrinks(s, TxDoneTask(s, ok, posted));
  }

  lemma NextFragmentIs(s: State, ok: bool, posted: bool)
    requires s.txDone > 0 && s.sending && s.more && s.sendingLen > TCP_MAX_PACKET_SIZE
    requires Readable(s, s.first, s.current, s.sendingLen)
    ensures var t := TxDoneTask(s, ok, posted);
            && t.sendq == s.sendq && t.recvq == s.recvq && t.memory == s.memory && t.statics == s.statics
            && t.owed == s.owed && t.live == s.live && t.freed == s.freed && t.fault == s.fault
            && t.more && t.sending && t.first == s.first && t.sendingMem == s.sendingMem
            && t.current == s.current + TCP_MAX_PACKET_SIZE && t.sendingLen == s.sendingLen - TCP_MAX_PACKET_SIZE
  {
  }

  lemma NoFragmentIs(s: State, ok: bool, posted: bool)
    requires s.txDone > 0 && !(s.sending && s.more)
    ensures TxDoneTask(s, ok, posted)
         == s.(txDone := s.txDone - 1, sending := false, tx := TxDoneTask(s, ok, posted).tx)
  {
  }

  lemma TxDoneSound(s: State, ok: bool, posted: bool)
    requires Sound(s) && s.txDone > 0
    ensures Sound(TxDoneTask(s, ok, posted))
  {
    hide Sound, TxDoneTask;
    SoundMeans(s);
    if s.sending && s.more {
      CurrentReadable(s);
      if s.sendingLen <= TCP_MAX_PACKET_SIZE {
        LastFragmentSound(s, ok, posted);
      } else {
        NextFragmentIs(s, ok, posted);
        SameSoundness(s, TxDoneTask(s, ok, posted));
      }
    } else {
      NoFragmentIs(s, ok, posted);
      SameSoundness(s, TxDoneTask(s, ok, posted));
    }
  }

  lemma SoundMeans(s: State)
    requires Sound(s)
    ensures !s.fault && (s.more ==> s.sending && s.sendingLen > 0)
  {
  }

  lemma HeldGrows(s: State, t: State)
    requires Held(s) && !t.fault && s.statics <= t.statics
    requires forall p :: p in s.memory ==> p in t.memory && t.memory[p] == s.memory[p]
    requires forall m :: m in t.sendq ==> m in s.sendq || Holdable(t, m)
    requires forall m :: m in t.recvq ==> m in s.recvq || Holdable(t, m)
    requires t.more == s.more && t.sending == s.sending && t.first == s.first && t.sendingMem == s.sendingMem
    requires t.sendingLen == s.sendingLen && t.current == s.current
    ensures Held(t)
  {
    assert forall m :: Holdable(s, m) ==> Holdable(t, m);
  }

  lemma SendHeld(s: State, m: Message, posted: bool)
    requires Held(s) && Sendable(s, m)
    ensures Held(Sending(s, m, true, posted))
  {
    hide MessageStream, Held;
    NotFaulty(s);
    HeldGrows(s, Sending(s, m, true, posted));
  }

  lemma SendSound(s: State, m: Message, pushed: bool, posted: bool)
    requires Sound(s) && Sendable(s, m)
    ensures Sound(Sending(s, m, pushed, posted))
  {
    hide HeapPtrs, MessageStream, Held, Balanced, Holdable;
    if pushed {
      var s1 := Sending(s, m, pushed, posted);
      SendHeld(s, m, posted);
      HeapPtrsLast(s.sendq, m);
      TakeFirst(m.data, HeapPtrs(s.sendq), HeapPtrs(s.recvq), CurrentPtr(s));
      if m.mem == HEAP_MEM {
        HeapPushBalanced(LedgerOf(s), m.data);
        assert LedgerOf(s1) == AfterHeapPush(LedgerOf(s), m.data);
      } else {
        StaticPushBalanced(LedgerOf(s), m.data);
        assert LedgerOf(s1) == LedgerOf(s).(statics := s.statics + {m.data});
      }
    }
  }

  lemma StaticPushBalanced(l: Ledger, p: Ptr)
    requires Balanced(l) && p in l.live && p !in l.owed
    ensures Balanced(l.(statics := l.statics + {p}))
  {
  }

  lemma GrantBalanced(l: Ledger, p: Ptr)
    requires Balanced(l) && p !in l.known
    ensures Balanced(AfterGrant(l, p)) && p in AfterGrant(l, p).live && p !in l.owed && p !in l.statics
  {
    assert multiset(l.freed) <= multiset(l.owed);
    assert p !in multiset(l.owed);
  }

  lemma Granted(s: State, p: Ptr, block: seq<byte>) returns (t: State)
    requires Sound(s) && p !in s.memory
    ensures t == s.(memory := s.memory[p := block], live := s.live + {p})
    ensures Sound(t) && p in t.live && p !in t.owed && p !in t.statics
  {
    hide HeapPtrs, Balanced, Held;
    t := s.(memory := s.memory[p := block], live := s.live + {p});
    GrantBalanced(LedgerOf(s), p);
    assert t.memory.Keys == s.memory.Keys + {p};
    assert LedgerOf(t) == AfterGrant(LedgerOf(s), p);
    NotFaulty(s);
    HeldGrows(s, t);
  }

  lemma QueuedSound(s: State, conn: Conn, bytes: seq<byte>, p: Ptr, posted: bool)
    requires Sound(s) && |bytes| < 0x1_0000 && p !in s.memory
    ensures Sound(Received(s, conn, bytes, p, true, true, posted))
  {
    hide HeapPtrs, Balanced, Held;
    var s0 := Granted(s, p, bytes + [0]);
    var m := Message(conn, p, |bytes|, HEAP_MEM);
    var s1 := Received(s, conn, bytes, p, true, true, posted);
    NotFaulty(s0);
    HeldGrows(s0, s1);
    HeapPushBalanced(LedgerOf(s0), p);
    HeapPtrsLast(s.recvq, m);
    TakeFirst(p, HeapPtrs(s.sendq), HeapPtrs(s.recvq), CurrentPtr(s));
    assert LedgerOf(s1) == AfterHeapPush(LedgerOf(s0), p);
  }

  lemma ReceivedSound(s: State, conn: Conn, bytes: seq<byte>, p: Ptr, granted: bool, pushed: bool, posted: bool)
    requires Sound(s) && |bytes| < 0x1_0000 && p !in s.memory
    ensures Sound(Received(s, conn, bytes, p, granted, pushed, posted))
  {
    hide HeapPtrs, Balanced, Held;
    if granted {
      if pushed {
        QueuedSound(s, conn, bytes, p, posted);
      } else {
        var _ := Granted(s, p, bytes + [0]);
      }
    }
  }

  /** Clearing frees the blocks that a queue owns, one by one. */
  lemma {:induction false} ClearSendq(s: State)
    requires Sound(s)
    ensures Sound(FreedAll(s, s.sendq).(sendq := []))
    ensures FreedAll(s, s.sendq) == s.(live := FreedAll(s, s.sendq).live, freed := FreedAll(s, s.sendq).freed)
    decreases |s.sendq|
  {
    hide Sound;
    if s.sendq != [] {
      var m, rest := s.sendq[0], s.sendq[1..];
      SendqUsed(s);
      var s1 := FreedIf(s, m.data, m.mem);
      assert FreedIf(s.(sendq := rest), m.data, m.mem) == s1.(sendq := rest, recvq := s.recvq);
      ClearSendq(s1.(sendq := rest, recvq := s.recvq));
      FreedAllFrame(s1, rest, rest, s.recvq);
      assert FreedAll(s, s.sendq) == FreedAll(s1, rest);
    } else {
      assert s.(sendq := []) == s;
    }
  }

  lemma {:induction false} ClearRecvq(s: State)
    requires Sound(s)
    ensures Sound(FreedAll(s, s.recvq).(recvq := []))
    ensures FreedAll(s, s.recvq) == s.(live := FreedAll(s, s.recvq).live, freed := FreedAll(s, s.recvq).freed)
    decreases |s.recvq|
  {
    hide Sound;
    if s.recvq != [] {
      var m, rest := s.recvq[0], s.recvq[1..];
      RecvqUsed(s);
      var s1 := FreedIf(s, m.data, m.mem);
      assert FreedIf(s.(recvq := rest), m.data, m.mem) == s1.(sendq := s.sendq, recvq := rest);
      ClearRecvq(s1.(sendq := s.sendq, recvq := rest));
      FreedAllFrame(s1, rest, s.sendq, rest);
      assert FreedAll(s, s.recvq) == FreedAll(s1, rest);
    } else {
      assert s.(recvq := []) == s;
    }
  }

  lemma {:induction false} FreedAllFrame(s: State, q: seq<Message>, sendq: seq<Message>, recvq: seq<Message>)
    ensures FreedAll(s.(sendq := sendq, recvq := recvq), q) == FreedAll(s, q).(sendq := sendq, recvq := recvq)
    ensures FreedAll(s, q)
         == s.(live := FreedAll(s, q).live, freed := FreedAll(s, q).freed, fault := FreedAll(s, q).fault)
    decreases |q|
  {
    if q != [] {
      FreedAllFrame(FreedIf(s, q[0].data, q[0].mem), q[1..], sendq, recvq);
    }
  }

  lemma KeptFrame(s: State, kept: seq<(Conn, byte)>)
    ensures Sound(s) ==> Sound(s.(kept := kept))
  {
    assert LedgerOf(s.(kept := kept)) == LedgerOf(s);
  }

  lemma CloseSound(s: State)
    requires Sound(s)
    ensures Sound(Cleared(s))
  {
    hide Sound, FreedAll;
    ClearSendq(s);
    var n := |QueueStream(s.sendq, s.memory)|;
    var kept := if n <= |s.kept| then s.kept[..|s.kept| - n] else [];
    var s1 := FreedAll(s, s.sendq).(sendq := []);
    KeptFrame(s1, kept);
    assert s1.recvq == s.recvq;
    ClearRecvq(s1.(kept := kept));
  }

  lemma CountersOnly(s: State, inFlight: nat, txDone: nat)
    requires Sound(s)
    ensures Sound(s.(inFlight := inFlight, txDone := txDone))
  {
    hide Balanced, HeapPtrs;
    assert LedgerOf(s.(inFlight := inFlight, txDone := txDone)) == LedgerOf(s);
  }

  /** No event order makes the server read or free a block it does not hold, or free one twice. */
  lemma StepSound(s: State, e: Event)
    requires Sound(s) && Enabled(s, e)
    ensures Sound(Step(s, e))
  {
    hide Sound, Sendable, Cleared, Received, Sending, TxTask, TxDoneTask, RxTask;
    match e {
      case Rx => RxSound(s);
      case Tx(ok) => TxSound(s, ok);
      case TxDone(ok, posted) => TxDoneSound(s, ok, posted);
      case Send(m, pushed, posted) => SendSound(s, m, pushed, posted);
      case RecvCb(conn, bytes, p, granted, pushed, posted) => ReceivedSound(s, conn, bytes, p, granted, pushed, posted);
      case SentCb(posted) => CountersOnly(s, s.inFlight - 1, if posted then s.txDone + 1 else s.txDone);
      case ConnGone(lost) => CountersOnly(s, s.inFlight - lost, s.txDone);
      case Stray => CountersOnly(s, s.inFlight, s.txDone + 1);
      case Close => CloseSound(s);
    }
  }
}
