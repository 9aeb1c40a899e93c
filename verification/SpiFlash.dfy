/** Flash memory as the SDK offers it: erasing a sector sets every bit, writing can only
    clear bits. */
module SpiFlash {
  import opened Octets

  const SPI_FLASH_SEC_SIZE: nat := 4096

  /** Bitwise and of two octets. */
  function And(a: nat, b: nat): (r: nat)
    ensures r <= a && r <= b
    decreases a
  {
    if a == 0 || b == 0 then 0 else 2 * And(a / 2, b / 2) + a % 2 * (b % 2)
  }

  lemma {:induction false} AndOnes(a: nat, d: nat, n: nat)
    requires d <= a && a == Ones(n)
    ensures And(a, d) == d
    decreases n
  {
    if n > 0 {
      AndOnes(a / 2, d / 2, n - 1);
    }
  }

  lemma {:induction false} AndCommutes(a: nat, b: nat)
    ensures And(a, b) == And(b, a)
    decreases a
  {
    if a > 0 && b > 0 {
      AndCommutes(a / 2, b / 2);
    }
  }

  lemma {:induction false} AndSelf(a: nat)
    ensures And(a, a) == a
  {
    if a > 0 {
      AndSelf(a / 2);
    }
  }

  function Ones(n: nat): nat {
    if n == 0 then 0 else 2 * Ones(n - 1) + 1
  }

  type Sectors = map<nat, seq<byte>>

  ghost predicate Whole(f: Sectors) {
    forall s :: s in f ==> |f[s]| == SPI_FLASH_SEC_SIZE
  }

  datatype Command = Erase(sector: nat) | Write(sector: nat, data: seq<byte>)

  ghost predicate Applies(f: Sectors, c: Command) {
    c.sector in f && (c.Write? ==> |c.data| <= SPI_FLASH_SEC_SIZE)
  }

  function Blank(): (r: seq<byte>)
    ensures |r| == SPI_FLASH_SEC_SIZE && forall i :: 0 <= i < |r| ==> r[i] == 0xFF
  {
    seq(SPI_FLASH_SEC_SIZE, _ => 0xFF)
  }

  function Programmed(sector: seq<byte>, data: seq<byte>): (r: seq<byte>)
    requires |data| <= |sector|
    ensures |r| == |sector|
    ensures forall i :: 0 <= i < |r| ==> r[i] == if i < |data| then And(sector[i], data[i]) else sector[i]
  {
    seq(|sector|, i requires 0 <= i < |sector| => if i < |data| then And(sector[i], data[i]) else sector[i])
  }

  /** The flash after a command that runs to its end. */
  function After(f: Sectors, c: Command): (r: Sectors)
    requires Whole(f) && Applies(f, c)
    ensures Whole(r) && r.Keys == f.Keys
    ensures forall s :: s in f && s != c.sector ==> r[s] == f[s]
  {
    match c
    case Erase(s) => f[s := Blank()]
    case Write(s, data) => f[s := Programmed(f[s], data)]
  }

  lemma EraseThenWrite(f: Sectors, s: nat, data: seq<byte>)
    requires Whole(f) && s in f && |data| <= SPI_FLASH_SEC_SIZE
    ensures After(After(f, Erase(s)), Write(s, data))[s][..|data|] == data
    ensures forall t :: t in f && t != s ==> After(After(f, Erase(s)), Write(s, data))[t] == f[t]
  {
    var r := After(After(f, Erase(s)), Write(s, data))[s];
    assert Ones(8) == 255;
    forall i | 0 <= i < |data|
      ensures r[i] == data[i]
    {
      AndOnes(255, data[i], 8);
    }
  }

  /** `b` keeps the bits on which `a` and `c` agree, where one of them contains the other. */
  ghost predicate Between(a: byte, b: byte, c: byte) {
    || (And(a, c) == a && And(a, b) == a && And(b, c) == b)
    || (And(a, c) == c && And(a, b) == b && And(b, c) == c)
  }

  lemma Erased(d: byte)
    ensures And(255, d) == d && And(d, 255) == d
  {
    assert Ones(8) == 255;
    AndOnes(255, d, 8);
    AndCommutes(255, d);
  }

  /** A cut erase has only set bits... */
  lemma BetweenErase(a: byte, b: byte)
    ensures Between(a, b, 255) <==> And(a, b) == a
  {
    hide And;
    Erased(a);
    Erased(b);
  }

  /** ...and a cut write after an erase has only not cleared some. */
  lemma BetweenWrite(b: byte, c: byte)
    ensures Between(255, b, c) <==> And(c, b) == c
  {
    hide And;
    Erased(b);
    Erased(c);
    AndCommutes(b, c);
  }

  class Flash {
    var sectors: Sectors
    ghost var log: seq<Command>

    ghost predicate Valid()
      reads this
    {
      Whole(sectors)
    }

    constructor (sectors: Sectors)
      requires Whole(sectors)
      ensures Valid() && this.sectors == sectors && log == []
    {
      this.sectors, log := sectors, [];
    }

    method EraseSector(s: nat)
      requires Valid() && s in sectors
      modifies this
      ensures Valid() && sectors == After(old(sectors), Erase(s)) && log == old(log) + [Erase(s)]
    {
      sectors, log := sectors[s := Blank()], log + [Erase(s)];
    }

    /** Writes at the start of a sector. */
    method WriteSector(s: nat, data: seq<byte>)
      requires Valid() && s in sectors && |data| <= SPI_FLASH_SEC_SIZE
      modifies this
      ensures Valid() && sectors == After(old(sectors), Write(s, data)) && log == old(log) + [Write(s, data)]
    {
      sectors, log := sectors[s := Programmed(sectors[s], data)], log + [Write(s, data)];
    }

    method ReadSector(s: nat, from: nat, n: nat) returns (data: seq<byte>)
      requires Valid() && s in sectors && from + n <= SPI_FLASH_SEC_SIZE
      ensures data == sectors[s][from..from + n]
    {
      data := sectors[s][from..from + n];
    }
  }
}
