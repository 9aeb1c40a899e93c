/** The circular byte buffer (esp_mqtt/mqtt/ringbuf.c). */
module RingBuf {
  import opened Octets

  class Ring {
    var buf: array?<byte> // p_o
    var rd: nat           // p_r - p_o
    var wr: nat           // p_w - p_o
    var fillCnt: nat
    var size: nat
    ghost var contents: seq<byte> // the stored bytes, oldest first

    ghost predicate Valid()
      reads this, buf
    {
      && buf != null
      && 2 <= size <= buf.Length
      && rd < size
      && fillCnt == |contents| <= size
      && wr == Slot(fillCnt)
      && forall k :: 0 <= k < fillCnt ==> contents[k] == buf[Slot(k)]
    }

    /** Where the byte that is `k` behind the read pointer lies. */
    ghost function Slot(k: nat): nat
      reads this
    {
      if rd + k < size then rd + k else if rd + k < 2 * size then rd + k - size else 0
    }

    constructor ()
      ensures buf == null
    {
      buf, rd, wr, fillCnt, size := null, 0, 0, 0, 0;
    }

    method Init(b: array?<byte>, n: int) returns (rc: int)
      requires b != null ==> n <= b.Length
      modifies this
      ensures b == null || n < 2 ==> rc == -1 && unchanged(this)
      ensures b != null && n >= 2 ==> rc == 0 && Valid() && buf == b && size == n && contents == []
    {
      if b == null || n < 2 {
        return -1;
      }
      buf, rd, wr := b, 0, 0;
      fillCnt, contents := 0, [];
      size := n;
      return 0;
    }

    method Put(c: byte) returns (rc: int)
      requires Valid()
      modifies this, buf
      ensures Valid() && buf == old(buf) && size == old(size)
      ensures rc == if |old(contents)| < size then 0 else -1
      ensures contents == if rc == 0 then old(contents) + [c] else old(contents)
    {
      if fillCnt >= size {
        return -1;
      }
      fillCnt := fillCnt + 1;
      buf[wr] := c;
      wr := wr + 1;
      if wr >= size {
        wr := 0;
      }
      contents := contents + [c];
      return 0;
    }

    /** On success `c` is the oldest byte, which leaves the buffer. */
    method Get() returns (rc: int, c: byte)
      requires Valid()
      modifies this
      ensures Valid() && buf == old(buf) && size == old(size)
      ensures rc == if old(contents) == [] then -1 else 0
      ensures contents == if rc == 0 then old(contents)[1..] else []
      ensures rc == 0 ==> c == old(contents)[0]
    {
      if fillCnt <= 0 {
        return -1, 0;
      }
      fillCnt := fillCnt - 1;
      c := buf[rd];
      assert Slot(0) == rd;
      rd := rd + 1;
      if rd >= size {
        rd := 0;
      }
      contents := contents[1..];
      return 0, c;
    }
  }
}
