/** What a device configuration is worth when power fails while it is saved
    (user/device_config.c, user/flash.c): unlike FlashConfig there is one sector only. */
module DeviceCuts {
  import opened Octets
  import opened SpiFlash
  import opened DeviceConfig

  /** What the next start reads. A length that the sector cannot hold is read past its end. */
  datatype Loaded = Absent | Oversized(len: nat) | Found(device: Device)

  function Load(sector: seq<byte>): Loaded
    requires |sector| == SPI_FLASH_SEC_SIZE
  {
    if !Guarded(sector) then Absent
    else if !Fits(DataLen(sector)) then Oversized(DataLen(sector))
    else Found(Decoded(sector))
  }

  /** The part of the layout that is read back. */
  function Front(d: Device): (r: seq<byte>)
    requires Storable(d)
    ensures |r| == DATA_AT + |d.data|
  {
    FixedPart(d) + d.data
  }

  // ----- what is read, byte for byte

  lemma WordIs(s: seq<byte>, n: nat)
    requires |s| == 4 && Word32(n)
    ensures FromLe32(s) == n <==> s == Le32(n)
  {
    hide Le32, FromLe32;
    Le32RoundTrip(n);
    FromLe32RoundTrip(s);
  }

  lemma FixedPartIs(h: seq<byte>, d: Device)
    requires Storable(d) && |h| == DATA_AT
    ensures h == FixedPart(d)
       <==> h[..4] == Le32(GUARD_VALUE) && h[4..36] == d.name && h[36..68] == d.room
            && h[68..72] == Le32(d.kind) && h[72..76] == Le32(|d.data|)
  {
    hide Le32;
    assert h == h[..4] + h[4..36] + h[36..68] + h[68..72] + h[72..76];
    var f := FixedPart(d);
    assert f[..4] == Le32(GUARD_VALUE) && f[4..36] == d.name && f[36..68] == d.room;
    assert f[68..72] == Le32(d.kind) && f[72..76] == Le32(|d.data|);
  }

  /** A device is found exactly if its layout stands at the start, padding aside. */
  lemma FoundIff(sector: seq<byte>, d: Device)
    requires |sector| == SPI_FLASH_SEC_SIZE
    ensures Load(sector) == Found(d) <==> Storable(d) && sector[..DATA_AT + |d.data|] == Front(d)
  {
    WordIs(sector[..4], GUARD_VALUE);
    if Storable(d) {
      WordIs(sector[68..72], d.kind);
      WordIs(sector[72..76], |d.data|);
      FixedPartIs(sector[..76], d);
      hide Le32, FromLe32, FixedPart;
      var n := |d.data|;
      assert sector[..76 + n] == sector[..76] + sector[76..76 + n];
      assert Front(d)[..76] == FixedPart(d) && Front(d)[76..] == d.data;
      assert sector[..76 + n][..76] == sector[..76] && sector[..76 + n][76..] == sector[76..76 + n];
      Slices(sector);
    }
  }

  lemma Slices(sector: seq<byte>)
    requires |sector| == SPI_FLASH_SEC_SIZE
    ensures var h := sector[..76];
            && h[..4] == sector[..4] && h[4..36] == sector[4..36] && h[36..68] == sector[36..68]
            && h[68..72] == sector[68..72] && h[72..76] == sector[72..76]
  {
  }

  lemma AbsentIff(sector: seq<byte>)
    requires |sector| == SPI_FLASH_SEC_SIZE
    ensures Load(sector) == Absent <==> sector[..4] != Le32(GUARD_VALUE)
  {
    WordIs(sector[..4], GUARD_VALUE);
  }

  lemma OversizedIff(sector: seq<byte>, n: nat)
    requires |sector| == SPI_FLASH_SEC_SIZE
    ensures Load(sector) == Oversized(n)
       <==> Word32(n) && !Fits(n) && sector[..4] == Le32(GUARD_VALUE) && sector[72..76] == Le32(n)
  {
    WordIs(sector[..4], GUARD_VALUE);
    if Word32(n) {
      WordIs(sector[72..76], n);
    }
  }

  // ----- the two cuts

  /** Power fails between the states `from` and `to` of a sector. */
  ghost predicate Torn(from: seq<byte>, to: seq<byte>, left: seq<byte>) {
    |from| == |to| == |left| == SPI_FLASH_SEC_SIZE
    && forall i :: 0 <= i < SPI_FLASH_SEC_SIZE ==> Between(from[i], left[i], to[i])
  }

  function Written(d: Device): (r: seq<byte>)
    requires Storable(d)
    ensures |r| == SPI_FLASH_SEC_SIZE
  {
    Programmed(Blank(), Layout(d))
  }

  /** Power fails while `d` is saved over `sector`: during the erase or during the write. */
  ghost predicate CutSave(sector: seq<byte>, d: Device, left: seq<byte>)
    requires Storable(d)
    ensures CutSave(sector, d, left) ==> |left| == SPI_FLASH_SEC_SIZE
  {
    Torn(sector, Blank(), left) || Torn(Blank(), Written(d), left)
  }

  /** `s` has, from position `at` on, all the bits of `low`. */
  ghost predicate Covers(s: seq<byte>, low: seq<byte>, at: nat)
    requires at + |s| <= |low|
  {
    forall i :: 0 <= i < |s| ==> And(low[at + i], s[i]) == low[at + i]
  }

  /** A cut erase has lost no set bit, a cut write none that it was to keep. */
  lemma TornIff(low: seq<byte>, left: seq<byte>)
    requires |low| == |left| == SPI_FLASH_SEC_SIZE
    ensures Torn(low, Blank(), left) <==> Covers(left, low, 0)
    ensures Torn(Blank(), low, left) <==> Covers(left, low, 0)
  {
    hide And, Between;
    forall i | 0 <= i < SPI_FLASH_SEC_SIZE
      ensures Between(low[i], left[i], Blank()[i]) <==> And(low[i], left[i]) == low[i]
      ensures Between(Blank()[i], left[i], low[i]) <==> And(low[i], left[i]) == low[i]
    {
      BetweenErase(low[i], left[i]);
      BetweenWrite(left[i], low[i]);
    }
    if Covers(left, low, 0) {
      forall i | 0 <= i < SPI_FLASH_SEC_SIZE
        ensures And(low[i], left[i]) == low[i]
      {
        assert And(low[0 + i], left[i]) == low[0 + i];
      }
    }
  }

  // ----- what may be read after a cut

  /** Bits of `low` that the bytes read back do not have rule an outcome out. */
  ghost predicate Possible(low: seq<byte>, o: Loaded)
    requires |low| == SPI_FLASH_SEC_SIZE
  {
    match o
    case Absent => true
    case Oversized(n) =>
      Word32(n) && !Fits(n) && Covers(Le32(GUARD_VALUE), low, 0) && Covers(Le32(n), low, 72)
    case Found(d) => Storable(d) && Covers(Front(d), low, 0)
  }

  lemma SubCovers(s: seq<byte>, low: seq<byte>, i: nat, j: nat)
    requires i <= j <= |s| == |low| && Covers(s, low, 0)
    ensures Covers(s[i..j], low, i)
  {
    hide And;
    forall k | 0 <= k < j - i
      ensures And(low[i + k], s[i..j][k]) == low[i + k]
    {
      assert And(low[0 + (i + k)], s[i + k]) == low[0 + (i + k)];
    }
  }

  lemma OnlyPossible(low: seq<byte>, left: seq<byte>)
    requires |low| == |left| == SPI_FLASH_SEC_SIZE && Covers(left, low, 0)
    ensures Possible(low, Load(left))
  {
    hide Covers, Le32, Front, Guarded, DataLen, Decoded, Load;
    match Load(left) {
      case Absent =>
      case Oversized(n) =>
        OversizedIff(left, n);
        SubCovers(left, low, 0, 4);
        SubCovers(left, low, 72, 76);
        assert left[0..4] == left[..4];
      case Found(d) =>
        FoundIff(left, d);
        SubCovers(left, low, 0, DATA_AT + |d.data|);
        assert left[0..DATA_AT + |d.data|] == left[..DATA_AT + |d.data|];
    }
  }

  /** `s` put over `low` at `at`. */
  function Patched(low: seq<byte>, at: nat, s: seq<byte>): (r: seq<byte>)
    requires at + |s| <= |low|
    ensures |r| == |low| && r[at..at + |s|] == s
    ensures forall i :: 0 <= i < |low| && (i < at || i >= at + |s|) ==> r[i] == low[i]
    ensures forall i :: 0 <= i < |s| ==> r[at + i] == s[i]
  {
    var r := low[..at] + s + low[at + |s|..];
    assert r[at..at + |s|] == s;
    r
  }

  lemma PatchCovers(low: seq<byte>, base: seq<byte>, at: nat, s: seq<byte>)
    requires at + |s| <= |low| == |base| && Covers(base, low, 0) && Covers(s, low, at)
    ensures Covers(Patched(base, at, s), low, 0)
  {
    hide And;
    var r := Patched(base, at, s);
    forall i | 0 <= i < |r|
      ensures And(low[0 + i], r[i]) == low[0 + i]
    {
      if at <= i < at + |s| {
        assert r[at + (i - at)] == s[i - at] && And(low[at + (i - at)], s[i - at]) == low[at + (i - at)];
      } else {
        assert And(low[0 + i], base[i]) == low[0 + i];
      }
    }
  }

  lemma CoversSelf(low: seq<byte>)
    ensures Covers(low, low, 0)
  {
    hide And;
    forall i | 0 <= i < |low|
      ensures And(low[0 + i], low[i]) == low[0 + i]
    {
      AndSelf(low[i]);
    }
  }

  lemma BlankCovers(low: seq<byte>)
    requires |low| == SPI_FLASH_SEC_SIZE
    ensures Covers(Blank(), low, 0) && Load(Blank()) == Absent
  {
    assert Blank()[..4] == [0xFF, 0xFF, 0xFF, 0xFF];
    hide And;
    forall i | 0 <= i < |low|
      ensures And(low[0 + i], Blank()[i]) == low[0 + i]
    {
      Erased(low[i]);
    }
  }

  /** Every possible outcome occurs. */
  lemma AllPossible(low: seq<byte>, o: Loaded) returns (left: seq<byte>)
    requires |low| == SPI_FLASH_SEC_SIZE && Possible(low, o)
    ensures |left| == SPI_FLASH_SEC_SIZE && Covers(left, low, 0) && Load(left) == o
  {
    hide Covers, Le32, Front, Guarded, DataLen, Decoded, Load;
    CoversSelf(low);
    match o {
      case Absent =>
        BlankCovers(low);
        left := Blank();
      case Oversized(n) =>
        var guarded := Patched(low, 0, Le32(GUARD_VALUE));
        PatchCovers(low, low, 0, Le32(GUARD_VALUE));
        PatchCovers(low, guarded, 72, Le32(n));
        left := Patched(guarded, 72, Le32(n));
        assert left[..4] == guarded[0..0 + 4];
        OversizedIff(left, n);
      case Found(d) =>
        PatchCovers(low, low, 0, Front(d));
        left := Patched(low, 0, Front(d));
        assert left[..DATA_AT + |d.data|] == left[0..0 + |Front(d)|];
        FoundIff(left, d);
    }
  }

  /** Exactly what may be read after a save of `d` over `sector` was cut: nothing; a device
      whose bytes have all the bits of the old sector (cut erase) or of the new layout (cut
      write); or a length that does not fit, likewise. */
  lemma CutSaveLoadsIff(sector: seq<byte>, d: Device, o: Loaded)
    requires |sector| == SPI_FLASH_SEC_SIZE && Storable(d)
    ensures (exists left :: CutSave(sector, d, left) && Load(left) == o)
       <==> Possible(sector, o) || Possible(Written(d), o)
  {
    hide Load, Possible, Covers, Torn, Written;
    if left :| CutSave(sector, d, left) && Load(left) == o {
      TornIff(sector, left);
      TornIff(Written(d), left);
      if Torn(sector, Blank(), left) {
        OnlyPossible(sector, left);
      } else {
        OnlyPossible(Written(d), left);
      }
    }
    if Possible(sector, o) {
      var left := AllPossible(sector, o);
      TornIff(sector, left);
      assert CutSave(sector, d, left);
    }
    if Possible(Written(d), o) {
      var left := AllPossible(Written(d), o);
      TornIff(Written(d), left);
      assert CutSave(sector, d, left);
    }
  }

  /** Given what a cut left, the old device, the new one or none is read exactly if its
      layout, or no guard, stands at the start of the sector. */
  lemma AfterCut(sector: seq<byte>, d: Device, left: seq<byte>, was: Device)
    requires |sector| == SPI_FLASH_SEC_SIZE && Storable(d) && CutSave(sector, d, left)
    requires Storable(was) && Load(sector) == Found(was)
    ensures Load(left) == Found(was) <==> left[..|Front(was)|] == sector[..|Front(was)|]
    ensures Load(left) == Found(d) <==> left[..|Front(d)|] == Front(d)
    ensures Load(left) == Absent <==> left[..4] != sector[..4]
  {
    hide CutSave, Load, Le32, Front;
    FoundIff(sector, was);
    FoundIff(left, was);
    FoundIff(left, d);
    AbsentIff(left);
    AbsentIff(sector);
  }

  /** A save cut between its two commands leaves no device. */
  lemma ErasedIsUnset(f: Sectors)
    requires Usable(f)
    ensures Usable(After(f, Erase(SECTOR))) && Stored(After(f, Erase(SECTOR))) == UNSET
  {
    assert Blank()[..4] == [0xFF, 0xFF, 0xFF, 0xFF];
  }

  /** No save is atomic: the device can be gone, or be loaded with a byte of its name changed
      to any value that has more bits. */
  lemma CutCanForgetOrAlter(sector: seq<byte>, d: Device, was: Device, i: nat, b: byte)
    requires |sector| == SPI_FLASH_SEC_SIZE && Storable(d) && Load(sector) == Found(was)
    requires i < NAME_SIZE && |was.name| == NAME_SIZE && And(was.name[i], b) == was.name[i]
    ensures exists left :: CutSave(sector, d, left) && Load(left) == Absent
    ensures exists left :: CutSave(sector, d, left) && Load(left) == Found(was.(name := was.name[i := b]))
  {
    hide Load, CutSave, Covers, Front, FixedPart, And;
    var altered := was.(name := was.name[i := b]);
    CutSaveLoadsIff(sector, d, Absent);
    FoundIff(sector, was);
    NameByte(was, i, b);
    CoversSelf(sector);
    PrefixCovers(sector, Front(was), i + 4, b, Front(altered));
    CutSaveLoadsIff(sector, d, Found(altered));
  }

  lemma NameByte(d: Device, i: nat, b: byte)
    requires Storable(d) && i < NAME_SIZE
    ensures var e := d.(name := d.name[i := b]);
            Storable(e) && Front(e) == Front(d)[i + 4 := b] && Front(d)[i + 4] == d.name[i]
  {
    hide Le32;
    var e := d.(name := d.name[i := b]);
    var (g, k, n) := (Le32(GUARD_VALUE), Le32(d.kind), Le32(|d.data|));
    assert FixedPart(d) == g + d.name + (d.room + k + n) && FixedPart(e) == g + e.name + (d.room + k + n);
    assert g + d.name[i := b] == (g + d.name)[i + 4 := b];
  }

  lemma PrefixCovers(low: seq<byte>, s: seq<byte>, i: nat, b: byte, changed: seq<byte>)
    requires i < |s| <= |low| && low[..|s|] == s && And(s[i], b) == s[i] && changed == s[i := b]
    ensures Covers(changed, low, 0)
  {
    hide And;
    forall k | 0 <= k < |changed|
      ensures And(low[0 + k], changed[k]) == low[0 + k]
    {
      assert low[k] == low[..|s|][k] == s[k];
      AndSelf(s[k]);
    }
  }
}
