/** The linked message queue (user/message_queue.c) and the heap it frees into. */
module MessageQueue {
  import opened Octets
  import opened ServerSpec

  /** os_malloc and os_free over addresses that are never used twice. */
  class Heap {
    var memory: map<Ptr, seq<byte>>
    var live: set<Ptr>
    var freed: seq<Ptr>
    ghost var fault: bool

    constructor (memory: map<Ptr, seq<byte>>)
      ensures this.memory == memory && live == memory.Keys && freed == [] && !fault
    {
      this.memory, live, freed, fault := memory, memory.Keys, [], false;
    }

    method Free(p: Ptr)
      modifies this
      ensures memory == old(memory)
      ensures if p in old(live) then live == old(live) - {p} && freed == old(freed) + [p] && fault == old(fault)
              else live == old(live) && freed == old(freed) && fault
    {
      if p in live {
        live, freed := live - {p}, freed + [p];
      } else {
        fault := true;
      }
    }
  }

  class Cell {
    const msg: Message
    ghost const owner: Queue
    var next: Cell?

    constructor (msg: Message, ghost owner: Queue)
      ensures this.msg == msg && this.owner == owner && next == null
    {
      this.msg, this.owner, next := msg, owner, null;
    }
  }

  class Queue {
    var head: Cell?
    var last: Cell?
    var count: uint16
    ghost var cells: seq<Cell>
    ghost var messages: seq<Message>

    ghost predicate Valid()
      reads this, cells
    {
      && |cells| == |messages| && count == |cells| % 0x1_0000
      && (forall i, j :: 0 <= i < j < |cells| ==> cells[i] != cells[j])
      && (forall i :: 0 <= i < |cells| ==> cells[i].owner == this && cells[i].msg == messages[i])
      && (forall i :: 0 <= i < |cells| - 1 ==> cells[i].next == cells[i + 1])
      && if cells == [] then head == null else head == cells[0] && last == cells[|cells| - 1] && last.next == null
    }

    ghost function CellAt(i: nat): Cell?
      reads this
    {
      if i < |cells| then cells[i] else null
    }

    constructor ()
      ensures Valid() && messages == [] && cells == []
    {
      head, last, count := null, null, 0;
      cells, messages := [], [];
    }

    /** `granted` says whether the cell can be allocated. */
    method Push(m: Message, granted: bool) returns (rc: int)
      requires Valid()
      modifies this, cells
      ensures Valid() && rc == if granted then 0 else -1
      ensures messages == if granted then old(messages) + [m] else old(messages)
    {
      if !granted {
        return -1;
      }
      var cell := new Cell(m, this);
      Link(cell);
      return 0;
    }

    /** Appends a cell that is in no list. */
    method Link(cell: Cell)
      requires Valid() && cell !in cells && cell.owner == this && cell.next == null
      modifies this, cells
      ensures Valid() && cells == old(cells) + [cell] && messages == old(messages) + [cell.msg]
    {
      if head == null {
        head := cell;
      } else {
        last.next := cell;
      }
      last := cell;
      count := (count + 1) % 0x1_0000;
      cells, messages := cells + [cell], messages + [cell.msg];
    }

    /** Takes the first message. */
    method Unshift() returns (rc: int, m: Message)
      requires Valid()
      modifies this
      ensures Valid() && rc == if old(messages) == [] then 1 else 0
      ensures rc == 0 ==> m == old(messages)[0] && messages == old(messages)[1..] && cells == old(cells)[1..]
      ensures rc != 0 ==> messages == [] && cells == old(cells)
    {
      if head == null {
        return 1, Message(0, 0, 0, STATIC_MEM);
      }
      m := head.msg;
      head := head.next;
      count := (count + 0xFFFF) % 0x1_0000;
      cells, messages := cells[1..], messages[1..];
      return 0, m;
    }

    method Empty() returns (b: bool)
      requires Valid()
      ensures b <==> messages == []
    {
      b := head == null;
    }

    lemma CellsLinked(k: nat)
      requires Valid()
      ensures |messages| == |cells| && head == CellAt(0)
      ensures k < |cells| ==> CellAt(k) == cells[k] && cells[k].msg == messages[k] && cells[k].next == CellAt(k + 1)
      ensures k >= |cells| ==> CellAt(k) == null
    {
    }

    /** Frees every cell and every heap block, a cell only once its successor is known. */
    method Clear(heap: Heap, ghost s: State)
      requires Valid() && SameHeap(heap, s)
      modifies this, heap
      ensures Valid() && messages == [] && cells == []
      ensures heap.memory == old(heap.memory) && SameHeap(heap, FreedAll(s, old(messages)))
    {
      ClearCells(heap, s);
      head, last, count := null, null, 0;
      cells, messages := [], [];
    }

    method ClearCells(heap: Heap, ghost s: State)
      requires Valid() && SameHeap(heap, s)
      modifies heap
      ensures heap.memory == old(heap.memory) && SameHeap(heap, FreedAll(s, messages))
    {
      hide SameHeap, FreedAll, FreedIf, Valid, CellAt;
      ghost var done, t := 0, s;
      CellsLinked(0);
      assert messages[0..] == messages;
      var msg, prev: Cell? := head, null;
      while msg != null
        invariant 0 <= done <= |messages| && msg == CellAt(done) && |messages| == |cells|
        invariant prev == if done == 0 then null else cells[done - 1]
        invariant Valid() && heap.memory == old(heap.memory) && SameHeap(heap, t)
        invariant FreedAll(s, messages) == FreedAll(t, messages[if done == 0 then 0 else done - 1..])
        decreases |messages| - done
      {
        if prev != null {
          CellsLinked(done - 1);
          FreedAllTail(t, messages, done - 1);
          t := FreeMessage(heap, prev.msg, t);
        }
        CellsLinked(done);
        prev := msg;
        msg := msg.next;
        done := done + 1;
      }
      CellsLinked(done);
      if prev != null {
        CellsLinked(done - 1);
        FreedAllTail(t, messages, done - 1);
        t := FreeMessage(heap, prev.msg, t);
      }
      FreedAllNone(t, messages);
    }
  }

  /** Gives a message's block back if it is the server's to give. */
  method FreeMessage(heap: Heap, m: Message, ghost s: State) returns (ghost s': State)
    requires SameHeap(heap, s)
    modifies heap
    ensures heap.memory == old(heap.memory) && s' == FreedIf(s, m.data, m.mem) && SameHeap(heap, s')
  {
    s' := FreedIf(s, m.data, m.mem);
    if m.mem == HEAP_MEM {
      heap.Free(m.data);
    }
  }

  lemma FreedAllTail(s: State, q: seq<Message>, k: nat)
    requires k < |q|
    ensures FreedAll(s, q[k..]) == FreedAll(FreedIf(s, q[k].data, q[k].mem), q[k + 1..])
  {
    hide FreedIf;
    assert q[k..][1..] == q[k + 1..];
  }

  lemma FreedAllNone(s: State, q: seq<Message>)
    ensures FreedAll(s, q[|q|..]) == s
  {
  }

  ghost predicate SameHeap(heap: Heap, s: State)
    reads heap
  {
    s.memory == heap.memory && s.live == heap.live && s.freed == heap.freed && s.fault == heap.fault
  }
}
