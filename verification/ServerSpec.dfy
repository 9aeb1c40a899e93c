/** The TCP server's send task (user/server.c, user/message_queue.c) as a state machine on
    values. A block of memory is named by an address that is never used twice. */
module ServerSpec {
  import opened Octets

  const TCP_MAX_PACKET_SIZE := 1460

  type Ptr = nat
  type Conn = nat

  datatype Memtype = STATIC_MEM | HEAP_MEM

  datatype Message = Message(conn: Conn, data: Ptr, len: uint16, mem: Memtype)

  /** Bytes handed to `espconn_sent` in one call. */
  datatype Chunk = Chunk(conn: Conn, bytes: seq<byte>)

  /** A chunk and whether `espconn_sent` accepted it; a refused one is never sent. */
  datatype Handover = Handover(chunk: Chunk, accepted: bool)

  datatype State = State(
    // the statics of server_task
    sending: bool, more: bool, sendingConn: Conn, first: Ptr, current: nat, sendingLen: nat, sendingMem: Memtype,
    sendq: seq<Message>, recvq: seq<Message>,
    // memory: what every block holds, which blocks are granted, which were freed by the server
    memory: map<Ptr, seq<byte>>, live: set<Ptr>, freed: seq<Ptr>, fault: bool,
    // events posted and not run yet; sends whose callback is still to come
    tx: nat, txDone: nat, rx: nat, inFlight: nat,
    // history: chunks handed over, messages parsed, heap blocks and static blocks pushed, and the
    // tagged bytes of all messages pushed for sending and not cleared
    out: seq<Handover>, parsed: seq<Chunk>, owed: seq<Ptr>, statics: set<Ptr>, kept: seq<(Conn, byte)>)

  function Tagged(conn: Conn, bytes: seq<byte>): (r: seq<(Conn, byte)>)
    ensures |r| == |bytes|
    ensures forall i :: 0 <= i < |bytes| ==> r[i] == (conn, bytes[i])
  {
    seq(|bytes|, i requires 0 <= i < |bytes| => (conn, bytes[i]))
  }

  /** Reads memory; reading a block that is not granted, or past its end, is a fault. */
  function Readable(s: State, p: Ptr, from: nat, n: nat): bool {
    p in s.live && p in s.memory && from + n <= |s.memory[p]|
  }

  function Sent(s: State, conn: Conn, p: Ptr, from: nat, n: nat, ok: bool): State {
    var s1 := s.(inFlight := if ok then s.inFlight + 1 else s.inFlight);
    if Readable(s, p, from, n) then s1.(out := s.out + [Handover(Chunk(conn, s.memory[p][from..from + n]), ok)])
    else s1.(fault := true)
  }

  /** Hands over a full packet of the current message and moves on. */
  function Fragment(s: State, ok: bool): State
    requires s.sendingLen >= TCP_MAX_PACKET_SIZE
  {
    Sent(s, s.sendingConn, s.first, s.current, TCP_MAX_PACKET_SIZE, ok)
    .(current := s.current + TCP_MAX_PACKET_SIZE, sendingLen := s.sendingLen - TCP_MAX_PACKET_SIZE)
  }

  function Freed(s: State, p: Ptr): State {
    if p in s.live then s.(live := s.live - {p}, freed := s.freed + [p]) else s.(fault := true)
  }

  function FreedIf(s: State, p: Ptr, mem: Memtype): State {
    if mem == HEAP_MEM then Freed(s, p) else s
  }

  function FreedAll(s: State, q: seq<Message>): State
    decreases |q|
  {
    if q == [] then s else FreedAll(FreedIf(s, q[0].data, q[0].mem), q[1..])
  }

  // ----- the signals

  function RxTask(s: State): State
    requires s.rx > 0
  {
    var s1 := s.(rx := s.rx - 1);
    if s.recvq == [] then s1 else
      var m := s.recvq[0];
      var s2 := s1.(recvq := s.recvq[1..]);
      var s3 := if Readable(s2, m.data, 0, m.len) then
                  s2.(parsed := s.parsed + [Chunk(m.conn, s.memory[m.data][..m.len])])
                else s2.(fault := true);
      FreedIf(s3, m.data, m.mem)
  }

  /** `ok` says whether `espconn_sent` accepts the chunk, and so will call back. */
  function TxTask(s: State, ok: bool): State
    requires s.tx > 0
  {
    var s1 := s.(tx := s.tx - 1);
    if s.sending || s.sendq == [] then s1 else
      var m := s.sendq[0];
      var s2 := s1.(sending := true, sendq := s.sendq[1..]);
      if m.len <= TCP_MAX_PACKET_SIZE then
        FreedIf(Sent(s2.(more := false), m.conn, m.data, 0, m.len, ok), m.data, m.mem)
      else
        Fragment(s2.(more := true, sendingConn := m.conn, first := m.data, current := 0, sendingLen := m.len,
                     sendingMem := m.mem), ok)
  }

  /** `posted` says whether the TX signal finds room in the task queue. */
  function TxDoneTask(s: State, ok: bool, posted: bool): State
    requires s.txDone > 0
  {
    var s1 := s.(txDone := s.txDone - 1);
    if s.sending && s.more then
      if s.sendingLen <= TCP_MAX_PACKET_SIZE then
        FreedIf(Sent(s1.(more := false), s.sendingConn, s.first, s.current, s.sendingLen, ok), s.first, s.sendingMem)
        .(sending := false)
      else
        Fragment(s1, ok)
    else if s.sendq == [] then s1.(sending := false)
    else s1.(sending := false, tx := if posted then s.tx + 1 else s.tx)
  }

  // ----- the calls and callbacks

  /** tcpserver_send; `pushed` says whether the list cell could be allocated. */
  function Sending(s: State, m: Message, pushed: bool, posted: bool): State {
    if !pushed then s else
      s.(sendq := s.sendq + [m], tx := if posted then s.tx + 1 else s.tx,
         owed := if m.mem == HEAP_MEM then s.owed + [m.data] else s.owed,
         statics := if m.mem == STATIC_MEM then s.statics + {m.data} else s.statics,
         kept := s.kept + MessageStream(m, s.memory))
  }

  /** tcpserver_recv_cb copies the data, with a 0 behind it, into the fresh block `p`. A
      block whose message cannot be queued stays allocated. */
  function Received(s: State, conn: Conn, bytes: seq<byte>, p: Ptr, granted: bool, pushed: bool, posted: bool): State
    requires |bytes| < 0x1_0000
  {
    if !granted then s else
      var s1 := s.(memory := s.memory[p := bytes + [0]], live := s.live + {p});
      if !pushed then s1 else
        s1.(recvq := s.recvq + [Message(conn, p, |bytes|, HEAP_MEM)], rx := if posted then s.rx + 1 else s.rx,
            owed := s.owed + [p])
  }

  /** The close and init functions clear both queues. */
  function Cleared(s: State): State {
    var n := |QueueStream(s.sendq, s.memory)|;
    var kept := if n <= |s.kept| then s.kept[..|s.kept| - n] else [];
    var s1 := FreedAll(s, s.sendq).(sendq := [], kept := kept);
    FreedAll(s1, s.recvq).(recvq := [])
  }

  function MessageStream(m: Message, memory: map<Ptr, seq<byte>>): seq<(Conn, byte)> {
    if m.data in memory && m.len <= |memory[m.data]| then Tagged(m.conn, memory[m.data][..m.len]) else []
  }

  function QueueStream(q: seq<Message>, memory: map<Ptr, seq<byte>>): seq<(Conn, byte)>
    decreases |q|
  {
    if q == [] then [] else MessageStream(q[0], memory) + QueueStream(q[1..], memory)
  }

  datatype Event =
    | Rx
    | Tx(ok: bool)
    | TxDone(ok: bool, posted: bool)
    | Send(m: Message, pushed: bool, posted: bool)
    | RecvCb(conn: Conn, bytes: seq<byte>, p: Ptr, granted: bool, pushed: bool, posted: bool)
    | SentCb(posted: bool)
    | ConnGone(lost: nat) // a connection ends, and as many callbacks will not come
    | Stray // a TX_DONE that no send of this task caused
    | Close

  /** What the caller of tcpserver_send owes: allocated memory, and for heap memory that
      it gives up a block that no message holds. */
  ghost predicate Sendable(s: State, m: Message) {
    && Readable(s, m.data, 0, m.len)
    && m.data !in s.owed
    && (m.mem == HEAP_MEM ==> m.data !in s.statics)
  }

  ghost predicate Enabled(s: State, e: Event) {
    match e
    case Rx => s.rx > 0
    case Tx(_) => s.tx > 0
    case TxDone(_, _) => s.txDone > 0
    case Send(m, _, _) => Sendable(s, m)
    case RecvCb(_, bytes, p, _, _, _) => |bytes| < 0x1_0000 && p !in s.memory
    case SentCb(_) => s.inFlight > 0
    case ConnGone(lost) => lost <= s.inFlight
    case Stray => true
    case Close => true
  }

  function Step(s: State, e: Event): State
    requires Enabled(s, e)
  {
    match e
    case Rx => RxTask(s)
    case Tx(ok) => TxTask(s, ok)
    case TxDone(ok, posted) => TxDoneTask(s, ok, posted)
    case Send(m, pushed, posted) => Sending(s, m, pushed, posted)
    case RecvCb(conn, bytes, p, granted, pushed, posted) => Received(s, conn, bytes, p, granted, pushed, posted)
    case SentCb(posted) => s.(inFlight := s.inFlight - 1, txDone := if posted then s.txDone + 1 else s.txDone)
    case ConnGone(lost) => s.(inFlight := s.inFlight - lost)
    case Stray => s.(txDone := s.txDone + 1)
    case Close => Cleared(s)
  }

  function Initial(memory: map<Ptr, seq<byte>>): State {
    State(false, false, 0, 0, 0, 0, STATIC_MEM, [], [], memory, memory.Keys, [], false, 0, 0, 0, 0, [], [], [], {}, [])
  }
}
