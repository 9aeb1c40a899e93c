/** The device configuration in one flash sector (user/device_config.c, user/flash.c). */
module DeviceConfig {
  import opened Octets
  import opened SpiFlash

  const SECTOR: nat := 0x3C // DEVICE_CONFIG_GUARD_ADDR >> 12
  const GUARD_VALUE: nat := 0xDEADBEEF
  const NAME_SIZE: nat := 32
  const FIXED_LEN: nat := 72

  /** Guard and fixed fields. */
  const DATA_AT: nat := 4 + FIXED_LEN

  const NONE: nat := 0
  const CAMERA: nat := 4

  datatype Device = Device(name: seq<byte>, room: seq<byte>, kind: nat, data: seq<byte>)

  const UNSET: Device := Device(Zeros(NAME_SIZE), Zeros(NAME_SIZE), NONE, [])

  /** FLASH_ALIGN_LEN. */
  function AlignLen(n: nat): (r: nat)
    ensures n <= r < n + 4 && r % 4 == 0
  {
    (n + 3) / 4 * 4
  }

  /** The sector holds it. */
  predicate Fits(n: nat) {
    DATA_AT + AlignLen(n) <= SPI_FLASH_SEC_SIZE
  }

  predicate Storable(d: Device) {
    |d.name| == NAME_SIZE && |d.room| == NAME_SIZE && Word32(d.kind) && Fits(|d.data|)
  }

  // ----- layout

  function Layout(d: Device): (buf: seq<byte>)
    requires Storable(d)
    ensures |buf| == DATA_AT + AlignLen(|d.data|)
  {
    FixedPart(d) + d.data + Zeros(AlignLen(|d.data|) - |d.data|)
  }

  /** The guard and the fixed fields. */
  function FixedPart(d: Device): (buf: seq<byte>)
    requires Storable(d)
    ensures |buf| == DATA_AT
  {
    Le32(GUARD_VALUE) + d.name + d.room + Le32(d.kind) + Le32(|d.data|)
  }

  /** The bytes written: guard, name, room, type and length, lowest byte first, data, and zeros up
      to a whole word. */
  lemma LayoutBytes(d: Device)
    requires Storable(d)
    ensures var (b, n) := (Layout(d), |d.data|);
            && |b| % 4 == 0 && 76 + n <= |b| < 80 + n
            && b[..4] == [0xEF, 0xBE, 0xAD, 0xDE] && b[4..36] == d.name && b[36..68] == d.room
            && b[68..72] == [d.kind % 256, d.kind / 256 % 256, d.kind / 65536 % 256, d.kind / 16777216 % 256]
            && b[72..76] == [n % 256, n / 256 % 256, n / 65536 % 256, n / 16777216 % 256]
            && b[76..76 + n] == d.data && forall i :: 76 + n <= i < |b| ==> b[i] == 0
  {
    var (b, h) := (Layout(d), FixedPart(d));
    assert Le32(GUARD_VALUE) == [0xEF, 0xBE, 0xAD, 0xDE];
    assert b[..76] == h;
    assert b[..4] == h[..4] && b[4..36] == h[4..36] == d.name && b[36..68] == h[36..68] == d.room;
    assert b[68..72] == h[68..72] == Le32(d.kind) && b[72..76] == h[72..76] == Le32(|d.data|);
  }

  predicate Guarded(sector: seq<byte>)
    requires |sector| == SPI_FLASH_SEC_SIZE
  {
    FromLe32(sector[..4]) == GUARD_VALUE
  }

  function DataLen(sector: seq<byte>): nat
    requires |sector| == SPI_FLASH_SEC_SIZE
  {
    FromLe32(sector[72..76])
  }

  function Decoded(sector: seq<byte>): Device
    requires |sector| == SPI_FLASH_SEC_SIZE && Fits(DataLen(sector))
  {
    Device(sector[4..36], sector[36..68], FromLe32(sector[68..72]), sector[76..76 + DataLen(sector)])
  }

  lemma LayoutReadsBack(sector: seq<byte>, d: Device)
    requires |sector| == SPI_FLASH_SEC_SIZE && Storable(d) && sector[..|Layout(d)|] == Layout(d)
    ensures Guarded(sector) && Fits(DataLen(sector)) && Decoded(sector) == d
  {
    var b, h, n := Layout(d), FixedPart(d), |d.data|;
    Le32RoundTrip(GUARD_VALUE);
    Le32RoundTrip(d.kind);
    Le32RoundTrip(n);
    Within(sector, b, 0, 76);
    Within(sector, b, 76, 76 + n);
    Middle(h, d.data, Zeros(AlignLen(n) - n));
    hide Le32, FromLe32, Zeros, AlignLen, Layout;
    assert sector[..4] == h[..4] == Le32(GUARD_VALUE);
    assert sector[4..36] == h[4..36] == d.name;
    assert sector[36..68] == h[36..68] == d.room;
    assert sector[68..72] == h[68..72] == Le32(d.kind);
    assert sector[72..76] == h[72..76] == Le32(n);
  }

  lemma Within(s: seq<byte>, b: seq<byte>, i: nat, j: nat)
    requires i <= j <= |b| <= |s| && s[..|b|] == b
    ensures s[i..j] == b[i..j]
  {
    assert forall t :: 0 <= t < |b| ==> s[t] == s[..|b|][t];
  }

  lemma Middle(a: seq<byte>, b: seq<byte>, c: seq<byte>)
    ensures (a + b + c)[..|a|] == a && (a + b + c)[0..|a|] == a && (a + b + c)[|a|..|a| + |b|] == b
  {
  }

  // ----- the device on flash

  /** A guarded sector was written by this code. */
  ghost predicate Usable(f: Sectors) {
    Whole(f) && SECTOR in f && (Guarded(f[SECTOR]) ==> Fits(DataLen(f[SECTOR])))
  }

  function Stored(f: Sectors): (d: Device)
    requires Usable(f)
    ensures Storable(d)
  {
    if Guarded(f[SECTOR]) then Decoded(f[SECTOR]) else UNSET
  }

  function WordOf(a: byte, b: byte, c: byte, d: byte): nat {
    a as nat + 0x100 * b as nat + 0x1_0000 * c as nat + 0x100_0000 * d as nat
  }

  /** Which bytes of the sector are read: behind the guard 0xDEADBEEF, lowest byte first, name,
      room, type, length and data. Without the guard the device has no name, room, type or data. */
  lemma StoredBytes(f: Sectors)
    requires Usable(f)
    ensures var (s, d) := (f[0x3C], Stored(f));
            if s[0] == 0xEF && s[1] == 0xBE && s[2] == 0xAD && s[3] == 0xDE then
              && d.name == s[4..36] && d.room == s[36..68]
              && d.kind == WordOf(s[68], s[69], s[70], s[71])
              && |d.data| == WordOf(s[72], s[73], s[74], s[75]) <= 4020
              && d.data == s[76..76 + |d.data|]
            else
              && |d.name| == |d.room| == 32 && d.kind == 0 && d.data == []
              && forall i :: 0 <= i < 32 ==> d.name[i] == d.room[i] == 0
  {
    var s := f[0x3C];
    GuardIs(s[..4]);
  }

  lemma GuardIs(s: seq<byte>)
    requires |s| == 4
    ensures FromLe32(s) == 0xDEADBEEF <==> s == [0xEF, 0xBE, 0xAD, 0xDE]
  {
    FromLe32RoundTrip(s);
    assert Le32(0xDEADBEEF) == [0xEF, 0xBE, 0xAD, 0xDE];
    Le32RoundTrip(0xDEADBEEF);
  }

  // ----- what the setters mean

  datatype Op =
    | SetName(name: seq<byte>)
    | SetRoom(room: seq<byte>)
    | SetType(kind: nat, camera: seq<byte>) // with the default data of a camera
    | SetData(data: seq<byte>)

  /** At most 31 characters, filled up with NULs. */
  function Field(s: seq<byte>): (r: seq<byte>)
    ensures |r| == NAME_SIZE && r[NAME_SIZE - 1] == 0
  {
    if |s| < NAME_SIZE - 1 then s + Zeros(NAME_SIZE - |s|) else s[..NAME_SIZE - 1] + [0]
  }

  function DefaultData(kind: nat, camera: seq<byte>): seq<byte> {
    if kind == CAMERA then camera else []
  }

  predicate Legal(op: Op) {
    match op
    case SetType(kind, camera) => Word32(kind) && Fits(|camera|)
    case SetData(data) => Fits(|data|)
    case _ => true
  }

  function Applied(d: Device, op: Op): Device {
    match op
    case SetName(name) => d.(name := Field(name))
    case SetRoom(room) => d.(room := Field(room))
    case SetType(kind, camera) => if kind == d.kind then d else d.(kind := kind, data := DefaultData(kind, camera))
    case SetData(data) => d.(data := data)
  }

  /** Which fields an operation may change: the name, the room, or type and data. */
  function Part(op: Op): nat {
    match op
    case SetName(_) => 0
    case SetRoom(_) => 1
    case _ => 2
  }

  function AppliedAll(d: Device, ops: seq<Op>): Device {
    if ops == [] then d else Applied(AppliedAll(d, ops[..|ops| - 1]), ops[|ops| - 1])
  }

  function Only(ops: seq<Op>, part: nat): seq<Op> {
    if ops == [] then [] else
      var front := Only(ops[..|ops| - 1], part);
      if Part(ops[|ops| - 1]) == part then front + [ops[|ops| - 1]] else front
  }

  predicate Agree(d: Device, e: Device, part: nat) {
    if part == 0 then d.name == e.name else if part == 1 then d.room == e.room else d.kind == e.kind && d.data == e.data
  }

  lemma SetterKeepsOthers(d: Device, e: Device, op: Op, part: nat)
    requires Agree(d, e, part) && part <= 2
    ensures Agree(Applied(d, op), if Part(op) == part then Applied(e, op) else e, part)
  {
    hide Field, DefaultData;
  }

  /** Over any sequence of setters, each part is what its own setters make it. */
  lemma {:induction false} FieldsAreIndependent(d: Device, ops: seq<Op>, part: nat)
    requires part <= 2
    ensures Agree(AppliedAll(d, ops), AppliedAll(d, Only(ops, part)), part)
    decreases |ops|
  {
    hide Applied;
    if ops != [] {
      var op, front := ops[|ops| - 1], ops[..|ops| - 1];
      FieldsAreIndependent(d, front, part);
      var own := Only(front, part);
      assert (own + [op])[..|own|] == own;
      SetterKeepsOthers(AppliedAll(d, front), AppliedAll(d, own), op, part);
    }
  }

  class DeviceStore {
    const flash: Flash

    ghost predicate Valid()
      reads this, flash
    {
      Usable(flash.sectors)
    }

    constructor (flash: Flash)
      requires Usable(flash.sectors)
      ensures Valid() && this.flash == flash
    {
      this.flash := flash;
    }

    method AlreadyExists() returns (b: bool)
      requires Valid()
      ensures b <==> Guarded(flash.sectors[SECTOR])
    {
      var guard := flash.ReadSector(SECTOR, 0, 4);
      assert flash.sectors[SECTOR][0..4] == flash.sectors[SECTOR][..4];
      b := FromLe32(guard) == GUARD_VALUE;
    }

    /** Fills a zeroed buffer field by field, erases the sector and writes the buffer. */
    method SaveConfig(d: Device)
      requires Valid() && Storable(d)
      modifies flash
      ensures Valid() && Stored(flash.sectors) == d && Guarded(flash.sectors[SECTOR])
      ensures flash.log == old(flash.log) + [Erase(SECTOR), Write(SECTOR, Layout(d))]
      ensures flash.sectors.Keys == old(flash.sectors).Keys
      ensures forall s :: s in old(flash.sectors) && s != SECTOR ==> flash.sectors[s] == old(flash.sectors[s])
    {
      hide Layout, After, Guarded, DataLen, Decoded;
      var buf := FillBuffer(d);
      EraseThenWrite(flash.sectors, SECTOR, buf[..]);
      flash.EraseSector(SECTOR);
      flash.WriteSector(SECTOR, buf[..]);
      LayoutReadsBack(flash.sectors[SECTOR], d);
    }

    method ReadConfig() returns (d: Device)
      requires Valid() && Guarded(flash.sectors[SECTOR])
      ensures d == Stored(flash.sectors)
    {
      var name := flash.ReadSector(SECTOR, 4, 32);
      var room := flash.ReadSector(SECTOR, 36, 32);
      var kind := flash.ReadSector(SECTOR, 68, 4);
      var len := flash.ReadSector(SECTOR, 72, 4);
      var dataLen := FromLe32(len);
      var data := [];
      if dataLen != 0 {
        data := flash.ReadSector(SECTOR, 76, AlignLen(dataLen));
      }
      d := Device(name, room, FromLe32(kind), data[..dataLen]);
    }

    /** What every setter starts from. */
    method Current() returns (d: Device)
      requires Valid()
      ensures d == Stored(flash.sectors) && Storable(d)
    {
      d := UNSET;
      var exists' := AlreadyExists();
      if exists' {
        d := ReadConfig();
      }
    }

    method SetDeviceName(name: seq<byte>)
      requires Valid()
      modifies flash
      ensures forall t :: t in old(flash.sectors) && t != SECTOR ==>
                t in flash.sectors && flash.sectors[t] == old(flash.sectors[t])
      ensures Valid() && Stored(flash.sectors) == Applied(old(Stored(flash.sectors)), SetName(name))
      ensures var (d, was) := (Stored(flash.sectors), old(Stored(flash.sectors)));
              && d.room == was.room && d.kind == was.kind && d.data == was.data
              && var n := if |name| < 31 then |name| else 31;
                 d.name[..n] == name[..n] && forall i :: n <= i < 32 ==> d.name[i] == 0
    {
      var d := Current();
      d := d.(name := Field(name));
      SaveConfig(d);
    }

    method SetDeviceRoom(room: seq<byte>)
      requires Valid()
      modifies flash
      ensures forall t :: t in old(flash.sectors) && t != SECTOR ==>
                t in flash.sectors && flash.sectors[t] == old(flash.sectors[t])
      ensures Valid() && Stored(flash.sectors) == Applied(old(Stored(flash.sectors)), SetRoom(room))
      ensures var (d, was) := (Stored(flash.sectors), old(Stored(flash.sectors)));
              && d.name == was.name && d.kind == was.kind && d.data == was.data
              && var n := if |room| < 31 then |room| else 31;
                 d.room[..n] == room[..n] && forall i :: n <= i < 32 ==> d.room[i] == 0
    {
      var d := Current();
      d := d.(room := Field(room));
      SaveConfig(d);
    }

    /** Setting the type that the device already has writes nothing. */
    method SetDeviceType(kind: nat, camera: seq<byte>)
      requires Valid() && Legal(SetType(kind, camera))
      modifies flash
      ensures forall t :: t in old(flash.sectors) && t != SECTOR ==>
                t in flash.sectors && flash.sectors[t] == old(flash.sectors[t])
      ensures Valid() && Stored(flash.sectors) == Applied(old(Stored(flash.sectors)), SetType(kind, camera))
      ensures var (d, was) := (Stored(flash.sectors), old(Stored(flash.sectors)));
              && d.name == was.name && d.room == was.room && d.kind == kind
              && d.data == if kind == was.kind then was.data else if kind == 4 then camera else []
      ensures kind == old(Stored(flash.sectors)).kind ==> flash.sectors == old(flash.sectors)
    {
      var d := Current();
      if kind == d.kind {
        return;
      }
      d := d.(data := DefaultData(kind, camera));
      d := d.(kind := kind);
      SaveConfig(d);
    }

    method SetDeviceData(data: seq<byte>)
      requires Valid() && Legal(SetData(data))
      modifies flash
      ensures forall t :: t in old(flash.sectors) && t != SECTOR ==>
                t in flash.sectors && flash.sectors[t] == old(flash.sectors[t])
      ensures Valid() && Stored(flash.sectors) == Applied(old(Stored(flash.sectors)), SetData(data))
      ensures Stored(flash.sectors) == old(Stored(flash.sectors)).(data := data)
    {
      var d := Current();
      d := d.(data := data);
      SaveConfig(d);
    }
  }

  // ----- the buffer

  /** os_memcpy to offset `at`. */
  method Memcpy(buf: array<byte>, at: nat, data: seq<byte>)
    requires at + |data| <= buf.Length
    modifies buf
    ensures buf[..] == old(buf[..at]) + data + old(buf[at + |data|..])
  {
    forall i | 0 <= i < |data| {
      buf[at + i] := data[i];
    }
  }

  /** Copying behind what is already filled in. */
  method Fill(buf: array<byte>, ghost front: seq<byte>, at: nat, data: seq<byte>)
    requires |front| == at && at + |data| <= buf.Length && buf[..] == front + Zeros(buf.Length - at)
    modifies buf
    ensures buf[..] == front + data + Zeros(buf.Length - at - |data|)
  {
    ghost var m := buf.Length - at;
    assert buf[..][..at] == front && buf[..at] == buf[..][..at];
    assert buf[at + |data|..] == buf[..][at + |data|..] == Zeros(m - |data|);
    Memcpy(buf, at, data);
  }

  method FillBuffer(d: Device) returns (buf: array<byte>)
    requires Storable(d)
    ensures fresh(buf) && buf[..] == Layout(d)
  {
    var (guard, kind, len) := (Le32(GUARD_VALUE), Le32(d.kind), Le32(|d.data|));
    buf := new byte[DATA_AT + AlignLen(|d.data|)](_ => 0);
    hide Le32, Fits, AlignLen, Zeros;
    assert buf[..] == [] + Zeros(buf.Length);
    assert [] + guard == guard;
    Fill(buf, [], 0, guard);
    Fill(buf, guard, 4, d.name);
    Fill(buf, guard + d.name, 36, d.room);
    Fill(buf, guard + d.name + d.room, 68, kind);
    Fill(buf, guard + d.name + d.room + kind, 72, len);
    assert guard + d.name + d.room + kind + len + [] == guard + d.name + d.room + kind + len;
    if |d.data| != 0 {
      Fill(buf, guard + d.name + d.room + kind + len, 76, d.data);
    }
  }
}
