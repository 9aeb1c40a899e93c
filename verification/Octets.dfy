/** Byte and word widths shared by all modules. */
module Octets {
  type byte = x: int | 0 <= x < 0x100

  type uint16 = x: int | 0 <= x < 0x1_0000

  datatype Option<+T> = None | Some(value: T)

  /** `b ^ 0x20`: flips bit 5. */
  function Xor20(b: byte): byte {
    if b / 32 % 2 == 1 then b - 32 else b + 32
  }

  predicate Word32(n: int) {
    0 <= n < 0x1_0000_0000
  }

  /** A 32-bit word, lowest byte first. */
  function Le32(n: int): (r: seq<byte>)
    requires Word32(n)
    ensures |r| == 4
  {
    [n % 256, n / 0x100 % 256, n / 0x1_0000 % 256, n / 0x100_0000 % 256]
  }

  function FromLe32(s: seq<byte>): (n: nat)
    requires |s| == 4
    ensures Word32(n)
  {
    s[0] as nat + 0x100 * s[1] as nat + 0x1_0000 * s[2] as nat + 0x100_0000 * s[3] as nat
  }

  lemma Le32RoundTrip(n: int)
    requires Word32(n)
    ensures FromLe32(Le32(n)) == n
  {
    assert n == 256 * (n / 0x100) + n % 256;
    assert n / 0x100 == 256 * (n / 0x1_0000) + n / 0x100 % 256;
    assert n / 0x1_0000 == 256 * (n / 0x100_0000) + n / 0x1_0000 % 256;
  }

  lemma FromLe32RoundTrip(s: seq<byte>)
    requires |s| == 4
    ensures Le32(FromLe32(s)) == s
  {
    var (a: int, b: int, c: int, d: int) := (s[0], s[1], s[2], s[3]);
    var n := FromLe32(s);
    assert n == a + 0x100 * b + 0x1_0000 * c + 0x100_0000 * d;
    assert n / 0x100 == b + 0x100 * c + 0x1_0000 * d;
    assert n / 0x1_0000 == c + 0x100 * d;
    assert n / 0x100_0000 == d;
  }

  function Zeros(n: nat): (r: seq<byte>)
    ensures |r| == n && forall i :: 0 <= i < n ==> r[i] == 0
  {
    seq(n, _ => 0)
  }
}
