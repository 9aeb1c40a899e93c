/** The TCP server (user/server.c): its task, its calls and its callbacks, each proved to make
    one step of ServerSpec. */
module Server {
  import opened Octets
  import opened ServerSpec
  import ServerRuns
  import MQ = MessageQueue

  datatype Signal = SERVER_SIG_RX | SERVER_SIG_TX | SERVER_SIG_TX_DONE

  class TcpServer {
    const sendq: MQ.Queue
    const recvq: MQ.Queue
    const heap: MQ.Heap
    var sending: bool
    var more: bool
    var sendingConn: Conn
    var first: Ptr
    var current: nat
    var sendingLen: nat
    var sendingMem: Memtype
    // the SDK: signals posted and sends not called back yet
    var tx: nat
    var txDone: nat
    var rx: nat
    var inFlight: nat
    ghost var out: seq<Handover>
    ghost var parsed: seq<Chunk>
    ghost var owed: seq<Ptr>
    ghost var statics: set<Ptr>
    ghost var kept: seq<(Conn, byte)>

    ghost predicate Valid()
      reads this, heap, sendq, sendq.cells, recvq, recvq.cells
    {
      sendq.Valid() && recvq.Valid() && sendq != recvq
    }

    ghost function View(): (s: State)
      reads this, heap, sendq, recvq
      ensures s.sending == sending && s.more == more && s.sendingConn == sendingConn && s.first == first
      ensures s.current == current && s.sendingLen == sendingLen && s.sendingMem == sendingMem
      ensures s.sendq == sendq.messages && s.recvq == recvq.messages && s.memory == heap.memory
      ensures s.tx == tx && s.txDone == txDone && s.rx == rx && s.inFlight == inFlight
    {
      State(sending, more, sendingConn, first, current, sendingLen, sendingMem, sendq.messages, recvq.messages,
            heap.memory, heap.live, heap.freed, heap.fault, tx, txDone, rx, inFlight, out, parsed, owed, statics, kept)
    }

    constructor (memory: map<Ptr, seq<byte>>)
      ensures Valid() && View() == Initial(memory)
    {
      sendq := new MQ.Queue();
      recvq := new MQ.Queue();
      heap := new MQ.Heap(memory);
      sending, more, sendingConn, first, current, sendingLen, sendingMem := false, false, 0, 0, 0, 0, STATIC_MEM;
      tx, txDone, rx, inFlight := 0, 0, 0, 0;
      out, parsed, owed, statics, kept := [], [], [], {}, [];
    }

    /** espconn_sent on `n` bytes at offset `from` of block `p`. */
    method EspconnSent(conn: Conn, p: Ptr, from: nat, n: nat, ok: bool)
      requires Valid()
      modifies `inFlight, `out, heap`fault
      ensures Valid() && View() == Sent(old(View()), conn, p, from, n, ok)
    {
      hide View, Valid;
      if ok {
        CountSend();
      }
      Emit(conn, p, from, n, ok);
    }

    method CountSend()
      requires Valid()
      modifies `inFlight
      ensures Valid()
      ensures var s := old(View()); View() == s.(inFlight := s.inFlight + 1)
    {
      inFlight := inFlight + 1;
    }

    method Emit(conn: Conn, p: Ptr, from: nat, n: nat, accepted: bool)
      requires Valid()
      modifies `out, heap`fault
      ensures Valid()
      ensures var s := old(View());
              View() == if Readable(s, p, from, n) then
                          s.(out := s.out + [Handover(Chunk(conn, s.memory[p][from..from + n]), accepted)])
                        else s.(fault := true)
    {
      if Readable(View(), p, from, n) {
        out := out + [Handover(Chunk(conn, heap.memory[p][from..from + n]), accepted)];
      } else {
        heap.fault := true;
      }
    }

    method FreeIf(p: Ptr, mem: Memtype)
      requires Valid()
      modifies heap
      ensures Valid() && View() == FreedIf(old(View()), p, mem)
    {
      if mem == HEAP_MEM {
        heap.Free(p);
      }
    }

    // ----- single updates

    method Count(tx': nat, txDone': nat, rx': nat)
      requires Valid()
      modifies `tx, `txDone, `rx
      ensures Valid() && View() == old(View()).(tx := tx', txDone := txDone', rx := rx')
    {
      tx, txDone, rx := tx', txDone', rx';
    }

    method SetSending(b: bool)
      requires Valid()
      modifies `sending
      ensures Valid() && View() == old(View()).(sending := b)
    {
      sending := b;
    }

    method SetMore(b: bool)
      requires Valid()
      modifies `more
      ensures Valid() && View() == old(View()).(more := b)
    {
      more := b;
    }

    method SetMessage(conn: Conn, data: Ptr, mem: Memtype)
      requires Valid()
      modifies `sendingConn, `first, `sendingMem
      ensures Valid() && View() == old(View()).(sendingConn := conn, first := data, sendingMem := mem)
    {
      sendingConn, first, sendingMem := conn, data, mem;
    }

    method SetChunk(at: nat, len: nat)
      requires Valid()
      modifies `current, `sendingLen
      ensures Valid() && View() == old(View()).(current := at, sendingLen := len)
    {
      current, sendingLen := at, len;
    }

    method TakeSend() returns (rc: int, m: Message)
      requires Valid()
      modifies sendq
      ensures Valid() && rc == if old(sendq.messages) == [] then 1 else 0
      ensures rc == 0 ==> m == old(sendq.messages)[0] && View() == old(View()).(sendq := old(sendq.messages)[1..])
      ensures rc != 0 ==> View() == old(View())
    {
      rc, m := sendq.Unshift();
    }

    method TakeRecv() returns (rc: int, m: Message)
      requires Valid()
      modifies recvq
      ensures Valid() && rc == if old(recvq.messages) == [] then 1 else 0
      ensures rc == 0 ==> m == old(recvq.messages)[0] && View() == old(View()).(recvq := old(recvq.messages)[1..])
      ensures rc != 0 ==> View() == old(View())
    {
      rc, m := recvq.Unshift();
    }

    method Parse(m: Message)
      requires Valid()
      modifies `parsed, heap`fault
      ensures Valid()
      ensures var s := old(View());
              View() == if Readable(s, m.data, 0, m.len) then
                          s.(parsed := s.parsed + [Chunk(m.conn, s.memory[m.data][..m.len])])
                        else s.(fault := true)
    {
      if Readable(View(), m.data, 0, m.len) {
        parsed := parsed + [Chunk(m.conn, heap.memory[m.data][..m.len])];
      } else {
        heap.fault := true;
      }
    }

    // ----- server_task

    method RunRx()
      requires Valid() && rx > 0
      modifies this, heap, recvq
      ensures Valid() && View() == RxTask(old(View()))
    {
      hide View, Valid, FreedIf, Readable;
      Count(tx, txDone, rx - 1);
      var rc, m := TakeRecv();
      if rc == 0 {
        Parse(m);
        FreeIf(m.data, m.mem);
      }
    }

    method RunTx(ok: bool)
      requires Valid() && tx > 0
      modifies this, heap, sendq
      ensures Valid() && View() == TxTask(old(View()), ok)
    {
      hide View, Valid, FreedIf, Sent, Fragment;
      Count(tx - 1, txDone, rx);
      if !sending {
        var rc, m := TakeSend();
        if rc == 0 {
          SetSending(true);
          SendMessage(m, ok);
        }
      }
    }

    /** Sends a message, or the first packet of a long one. */
    method SendMessage(m: Message, ok: bool)
      requires Valid()
      modifies this, heap
      ensures Valid()
      ensures var s := old(View());
              View() == if m.len <= TCP_MAX_PACKET_SIZE then
                          FreedIf(Sent(s.(more := false), m.conn, m.data, 0, m.len, ok), m.data, m.mem)
                        else
                          Fragment(s.(more := true, sendingConn := m.conn, first := m.data, current := 0,
                                      sendingLen := m.len, sendingMem := m.mem), ok)
    {
      hide View, Valid, FreedIf, Sent, Fragment;
      if m.len <= TCP_MAX_PACKET_SIZE {
        SetMore(false);
        EspconnSent(m.conn, m.data, 0, m.len, ok);
        FreeIf(m.data, m.mem);
      } else {
        BeginMessage(m, ok);
      }
    }

    /** Records a long message and sends its first packet. */
    method BeginMessage(m: Message, ok: bool)
      requires Valid() && m.len > TCP_MAX_PACKET_SIZE
      modifies this, heap
      ensures Valid()
      ensures View() == Fragment(old(View()).(more := true, sendingConn := m.conn, first := m.data, current := 0,
                                              sendingLen := m.len, sendingMem := m.mem), ok)
    {
      hide View, Valid, Fragment;
      SetMore(true);
      SetMessage(m.conn, m.data, m.mem);
      SetChunk(0, m.len);
      SendFragment(ok);
    }

    /** Sends a full packet of the current message and moves on. */
    method SendFragment(ok: bool)
      requires Valid() && more && sendingLen > TCP_MAX_PACKET_SIZE
      modifies this, heap
      ensures Valid()
      ensures var s := old(View());
              View() == Fragment(s, ok)
    {
      hide View, Valid, FreedIf, Sent;
      SentKeeps(View(), sendingConn, first, current, TCP_MAX_PACKET_SIZE, ok);
      EspconnSent(sendingConn, first, current, TCP_MAX_PACKET_SIZE, ok);
      SetChunk(current + TCP_MAX_PACKET_SIZE, sendingLen - TCP_MAX_PACKET_SIZE);
    }

    /** Sends the rest of the current message and gives its block up. */
    method SendLast(ok: bool)
      requires Valid()
      modifies this, heap
      ensures Valid()
      ensures var s := old(View());
              View() == FreedIf(Sent(s.(more := false), s.sendingConn, s.first, s.current, s.sendingLen, ok),
                                s.first, s.sendingMem)
    {
      hide View, Valid, FreedIf, Sent;
      SetMore(false);
      SentKeeps(View(), sendingConn, first, current, sendingLen, ok);
      EspconnSent(sendingConn, first, current, sendingLen, ok);
      FreeIf(first, sendingMem);
    }

    method RunTxDone(ok: bool, posted: bool)
      requires Valid() && txDone > 0
      modifies this, heap
      ensures Valid() && View() == TxDoneTask(old(View()), ok, posted)
    {
      hide View, Valid, FreedIf, Sent, Fragment;
      Count(tx, txDone - 1, rx);
      if sending && more {
        Continue(ok);
      } else {
        Finish(posted);
      }
    }

    method Continue(ok: bool)
      requires Valid() && more
      modifies this, heap
      ensures Valid()
      ensures var s := old(View());
              View() == if s.sendingLen <= TCP_MAX_PACKET_SIZE then
                          FreedIf(Sent(s.(more := false), s.sendingConn, s.first, s.current, s.sendingLen, ok),
                                  s.first, s.sendingMem).(sending := false)
                        else
                          Fragment(s, ok)
    {
      hide View, Valid, FreedIf, Sent, Fragment;
      if sendingLen <= TCP_MAX_PACKET_SIZE {
        SendLast(ok);
        SetSending(false);
      } else {
        SendFragment(ok);
      }
    }

    method Finish(posted: bool)
      requires Valid()
      modifies `sending, `tx, `txDone, `rx
      ensures Valid()
      ensures var s := old(View());
              View() == if s.sendq == [] || !posted then s.(sending := false) else s.(sending := false, tx := s.tx + 1)
    {
      hide View;
      var empty := sendq.Empty();
      SetSending(false);
      if !empty && posted {
        Count(tx + 1, txDone, rx);
      }
    }

    method Task(sig: Signal, ok: bool, posted: bool)
      requires Valid()
      requires match sig case SERVER_SIG_RX => rx > 0 case SERVER_SIG_TX => tx > 0 case SERVER_SIG_TX_DONE => txDone > 0
      modifies this, heap, sendq, recvq
      ensures Valid()
      ensures View() == match sig
                        case SERVER_SIG_RX => Step(old(View()), Rx)
                        case SERVER_SIG_TX => Step(old(View()), Tx(ok))
                        case SERVER_SIG_TX_DONE => Step(old(View()), TxDone(ok, posted))
    {
      hide RxTask, TxTask, TxDoneTask;
      match sig {
        case SERVER_SIG_RX => RunRx();
        case SERVER_SIG_TX => RunTx(ok);
        case SERVER_SIG_TX_DONE => RunTxDone(ok, posted);
      }
    }

    method PushSend(m: Message, pushed: bool) returns (rc: int)
      requires Valid()
      modifies sendq, sendq.cells
      ensures Valid() && rc == if pushed then 0 else -1
      ensures View() == old(View()).(sendq := if pushed then old(sendq.messages) + [m] else old(sendq.messages))
    {
      rc := sendq.Push(m, pushed);
    }

    method PushRecv(m: Message, pushed: bool) returns (rc: int)
      requires Valid()
      modifies recvq, recvq.cells
      ensures Valid() && rc == if pushed then 0 else -1
      ensures View() == old(View()).(recvq := if pushed then old(recvq.messages) + [m] else old(recvq.messages))
    {
      rc := recvq.Push(m, pushed);
    }

    /** tcpserver_send. */
    method Send(m: Message, pushed: bool, posted: bool) returns (rc: int)
      requires Valid()
      modifies this, sendq, sendq.cells
      ensures Valid() && View() == Sending(old(View()), m, pushed, posted)
      ensures rc == if pushed then 0 else -1
    {
      hide MessageStream, Readable, Tagged, View, Valid;
      rc := PushSend(m, pushed);
      if rc != 0 {
        return -1;
      }
      BookSend(m);
      if posted {
        Count(tx + 1, txDone, rx);
      }
    }

    /** The history of what was pushed for sending. */
    ghost method BookSend(m: Message)
      requires Valid()
      modifies `owed, `statics, `kept
      ensures Valid()
      ensures var s := old(View());
              View() == s.(owed := if m.mem == HEAP_MEM then s.owed + [m.data] else s.owed,
                           statics := if m.mem == STATIC_MEM then s.statics + {m.data} else s.statics,
                           kept := s.kept + MessageStream(m, s.memory))
    {
      hide MessageStream;
      kept := kept + MessageStream(m, heap.memory);
      if m.mem == HEAP_MEM {
        owed := owed + [m.data];
      } else {
        statics := statics + {m.data};
      }
    }

    /** tcpserver_recv_cb; `p` is the block that os_zalloc would return. */
    method RecvCallback(conn: Conn, bytes: seq<byte>, p: Ptr, granted: bool, pushed: bool, posted: bool)
      requires Valid() && |bytes| < 0x1_0000 && p !in heap.memory
      modifies this, heap, recvq, recvq.cells
      ensures Valid() && View() == Step(old(View()), RecvCb(conn, bytes, p, granted, pushed, posted))
    {
      hide View, Valid;
      if !granted {
        return;
      }
      Grant(p, bytes + [0]);
      var rc := PushRecv(Message(conn, p, |bytes|, HEAP_MEM), pushed);
      if rc != 0 {
        return;
      }
      BookReceived(p);
      if posted {
        Count(tx, txDone, rx + 1);
      }
    }

    ghost method BookReceived(p: Ptr)
      requires Valid()
      modifies `owed
      ensures Valid()
      ensures var s := old(View()); View() == s.(owed := s.owed + [p])
    {
      owed := owed + [p];
    }

    method Grant(p: Ptr, block: seq<byte>)
      requires Valid()
      modifies heap
      ensures Valid()
      ensures var s := old(View()); View() == s.(memory := s.memory[p := block], live := s.live + {p})
    {
      heap.memory := heap.memory[p := block];
      heap.live := heap.live + {p};
    }

    /** tcpserver_sent_cb. */
    method SentCallback(posted: bool)
      requires Valid() && inFlight > 0
      modifies `inFlight, `txDone
      ensures Valid() && View() == Step(old(View()), SentCb(posted))
    {
      inFlight, txDone := inFlight - 1, if posted then txDone + 1 else txDone;
    }

    /** tcpserver_disconnect_cb and tcpserver_reconnect_cb do nothing for server_task. */
    method ConnectionGone(lost: nat)
      requires Valid() && lost <= inFlight
      modifies `inFlight
      ensures Valid() && View() == Step(old(View()), ConnGone(lost))
    {
      inFlight := inFlight - lost;
    }

    method ClearSend()
      requires Valid()
      modifies heap, sendq
      ensures Valid()
      ensures var s := old(View()); View() == FreedAll(s, s.sendq).(sendq := [])
    {
      hide FreedAll;
      ghost var s := View();
      ServerRuns.FreedAllFrame(s, s.sendq, [], []);
      sendq.Clear(heap, s);
    }

    method ClearRecv()
      requires Valid()
      modifies heap, recvq
      ensures Valid()
      ensures var s := old(View()); View() == FreedAll(s, s.recvq).(recvq := [])
    {
      hide FreedAll;
      ghost var s := View();
      ServerRuns.FreedAllFrame(s, s.recvq, [], []);
      recvq.Clear(heap, s);
    }

    /** The history after a clear. */
    ghost method Keep(kept': seq<(Conn, byte)>)
      requires Valid()
      modifies `kept
      ensures Valid() && View() == old(View()).(kept := kept')
    {
      kept := kept';
    }

    /** sta_server_close and ap_server_close. */
    method CloseServer()
      requires Valid()
      modifies this, heap, sendq, recvq
      ensures Valid() && View() == Step(old(View()), Close)
    {
      hide View, Valid, FreedAll, QueueStream;
      ghost var s := View();
      ghost var n := |QueueStream(s.sendq, s.memory)|;
      ServerRuns.FreedAllFrame(s, s.sendq, [], []);
      ClearSend();
      Keep(if n <= |s.kept| then s.kept[..|s.kept| - n] else []);
      ClearRecv();
    }
  }

  lemma SentKeeps(s: State, conn: Conn, p: Ptr, from: nat, n: nat, ok: bool)
    ensures Sent(s, conn, p, from, n, ok)
         == s.(inFlight := Sent(s, conn, p, from, n, ok).inFlight, out := Sent(s, conn, p, from, n, ok).out,
               fault := Sent(s, conn, p, from, n, ok).fault)
  {
  }
}
