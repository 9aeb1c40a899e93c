/** Firmware images (esp_mqtt/tools/esptool.py): saving and loading, and what the loader
    makes of damaged files. */
module FirmwareImage {
  import opened Octets

  const ESP_IMAGE_MAGIC: byte := 0xE9
  const ESP_CHECKSUM_MAGIC: byte := 0xEF

  // ----- checksum

  function Xor(a: nat, b: nat): nat
    decreases a + b
  {
    if a == 0 && b == 0 then 0 else 2 * Xor(a / 2, b / 2) + (a + b) % 2
  }

  lemma {:induction false} XorBound(a: nat, b: nat, limit: nat, n: nat)
    requires a < limit && b < limit && limit == Two(n)
    ensures Xor(a, b) < limit
    decreases n
  {
    if a + b > 0 {
      var half := Two(n - 1);
      assert limit == 2 * half && a / 2 < half && b / 2 < half;
      XorBound(a / 2, b / 2, half, n - 1);
      assert Xor(a, b) == 2 * Xor(a / 2, b / 2) + (a + b) % 2;
    }
  }

  function Two(n: nat): nat {
    if n == 0 then 1 else 2 * Two(n - 1)
  }

  lemma {:induction false} XorInjective(a: nat, b: nat, c: nat)
    requires Xor(a, c) == Xor(b, c)
    ensures a == b
    decreases a + b + c
  {
    if a + b + c > 0 {
      assert Xor(a, c) == 2 * Xor(a / 2, c / 2) + (a + c) % 2;
      assert Xor(b, c) == 2 * Xor(b / 2, c / 2) + (b + c) % 2;
      XorInjective(a / 2, b / 2, c / 2);
    }
  }

  lemma {:induction false} XorCommutes(a: nat, b: nat)
    ensures Xor(a, b) == Xor(b, a)
    decreases a + b
  {
    if a + b > 0 {
      XorCommutes(a / 2, b / 2);
    }
  }

  function XorBytes(a: byte, b: byte): byte {
    assert Two(8) == 256;
    XorBound(a, b, 256, 8);
    Xor(a, b)
  }

  function Checksum(data: seq<byte>, state: byte): byte {
    if data == [] then state else XorBytes(Checksum(data[..|data| - 1], state), data[|data| - 1])
  }

  lemma {:induction false} ChecksumConcat(a: seq<byte>, b: seq<byte>, state: byte)
    ensures Checksum(a + b, state) == Checksum(b, Checksum(a, state))
    decreases |b|
  {
    if b == [] {
      assert a + b == a;
    } else {
      assert (a + b)[..|a + b| - 1] == a + b[..|b| - 1];
      ChecksumConcat(a, b[..|b| - 1], state);
    }
  }

  /** Changing one byte changes the checksum. */
  lemma {:induction false} ChecksumSeesEveryByte(data: seq<byte>, i: nat, x: byte, state: byte)
    requires i < |data|
    ensures Checksum(data[i := x], state) == Checksum(data, state) <==> x == data[i]
    decreases |data|
  {
    var n := |data| - 1;
    var (was, new') := (Checksum(data[..n], state), Checksum(data[i := x][..n], state));
    if i < n {
      assert data[i := x][..n] == data[..n][i := x];
      ChecksumSeesEveryByte(data[..n], i, x, state);
      if Checksum(data[i := x], state) == Checksum(data, state) {
        XorInjective(new', was, data[n]);
      }
    } else {
      assert data[i := x][..n] == data[..n];
      if Checksum(data[i := x], state) == Checksum(data, state) {
        XorCommutes(was, x);
        XorCommutes(was, data[n]);
        XorInjective(x, data[n], was);
      }
      assert x == data[n] ==> data[i := x] == data;
    }
  }

  function BitAt(n: nat, k: nat): nat {
    if k == 0 then n % 2 else BitAt(n / 2, k - 1)
  }

  lemma XorStep(a: nat, b: nat)
    ensures Xor(a, b) == 2 * Xor(a / 2, b / 2) + (a + b) % 2
  {
  }

  lemma Halved(n: nat, x: nat, y: nat)
    requires n == 2 * x + y % 2
    ensures n / 2 == x && n % 2 == y % 2
  {
  }

  lemma {:induction false} XorBit(a: nat, b: nat, k: nat)
    ensures BitAt(Xor(a, b), k) == (BitAt(a, k) + BitAt(b, k)) % 2
    decreases k
  {
    XorStep(a, b);
    hide Xor;
    Halved(Xor(a, b), Xor(a / 2, b / 2), a + b);
    if k > 0 {
      XorBit(a / 2, b / 2, k - 1);
    }
  }

  /** How many bytes have bit `k` set. */
  function BitCount(data: seq<byte>, k: nat): nat {
    if data == [] then 0 else BitCount(data[..|data| - 1], k) + BitAt(data[|data| - 1], k)
  }

  /** The checksum is the parity of each bit over all bytes, starting from 239. */
  lemma {:induction false} ChecksumIsParity(data: seq<byte>, k: nat)
    requires k < 8
    ensures BitAt(Checksum(data, ESP_CHECKSUM_MAGIC), k) == ((if k == 4 then 0 else 1) + BitCount(data, k)) % 2
  {
    hide BitAt, Xor;
    if data == [] {
      MagicBits();
    } else {
      var (front, last) := (data[..|data| - 1], data[|data| - 1]);
      ChecksumIsParity(front, k);
      XorBit(Checksum(front, ESP_CHECKSUM_MAGIC), last, k);
      ParityAdds(if k == 4 then 0 else 1, BitCount(front, k), BitAt(last, k));
    }
  }

  lemma ParityAdds(a: nat, b: nat, c: nat)
    ensures ((a + b) % 2 + c) % 2 == (a + (b + c)) % 2
  {
  }

  lemma MagicBits()
    ensures forall k :: 0 <= k < 8 ==> BitAt(ESP_CHECKSUM_MAGIC, k) == if k == 4 then 0 else 1
  {
    assert BitAt(239, 0) == 1 && BitAt(239, 1) == 1 && BitAt(239, 2) == 1 && BitAt(239, 3) == 1;
    assert BitAt(14, 0) == 0 && BitAt(14, 1) == 1 && BitAt(14, 2) == 1 && BitAt(14, 3) == 1;
    forall k | 0 <= k < 8
      ensures BitAt(ESP_CHECKSUM_MAGIC, k) == if k == 4 then 0 else 1
    {
      if k >= 4 {
        assert BitAt(239, k) == BitAt(119, k - 1) == BitAt(59, k - 2) == BitAt(29, k - 3) == BitAt(14, k - 4);
      }
    }
  }

  // ----- saving

  datatype Segment = Segment(offset: int, size: int, data: seq<byte>)

  /** What struct.pack accepts; anything else raises. */
  predicate Packable(segments: seq<Segment>, entrypoint: int) {
    |segments| < 256 && Word32(entrypoint)
    && forall i :: 0 <= i < |segments| ==> Word32(segments[i].offset) && Word32(segments[i].size)
  }

  function Header(n: byte, entrypoint: int): (r: seq<byte>)
    requires Word32(entrypoint)
    ensures |r| == 8
  {
    [ESP_IMAGE_MAGIC, n, 0, 0] + Le32(entrypoint)
  }

  function Block(s: Segment): seq<byte>
    requires Word32(s.offset) && Word32(s.size)
  {
    Le32(s.offset) + Le32(s.size) + s.data
  }

  /** Header and segments. */
  function Body(segments: seq<Segment>, n: byte, entrypoint: int): (r: seq<byte>)
    requires Packable(segments, entrypoint)
    ensures |r| >= 8
  {
    if segments == [] then Header(n, entrypoint)
    else Body(segments[..|segments| - 1], n, entrypoint) + Block(segments[|segments| - 1])
  }

  function AllData(segments: seq<Segment>): seq<byte> {
    if segments == [] then [] else AllData(segments[..|segments| - 1]) + segments[|segments| - 1].data
  }

  /** Zeros up to the last byte of a block of 16, which holds the checksum. */
  function Sealed(body: seq<byte>, checksum: byte): (r: seq<byte>)
    ensures |r| % 16 == 0 && |r| - 16 <= |body| < |r|
    ensures body <= r && r[|r| - 1] == checksum
  {
    body + Zeros(15 - |body| % 16) + [checksum]
  }

  function File(segments: seq<Segment>, entrypoint: int): seq<byte>
    requires Packable(segments, entrypoint)
  {
    Sealed(Body(segments, |segments|, entrypoint), Checksum(AllData(segments), ESP_CHECKSUM_MAGIC))
  }

  // ----- loading

  datatype LoadError = Truncated | InvalidImage | SuspiciousSegment

  datatype Result<+T> = Ok(value: T) | Err(error: LoadError)

  datatype Image = Image(segments: seq<Segment>, entrypoint: int, checksum: byte)

  predicate InRange(offset: int, size: int) {
    0x3ffe0000 <= offset <= 0x40200000 && size <= 65536
  }

  /** The segment at `pos`, and where it ends; a file that ends early yields less data. */
  function OneSegment(file: seq<byte>, pos: nat): (r: Result<(Segment, nat)>)
    requires pos <= |file|
    ensures r.Ok? ==> pos + 8 <= r.value.1 <= |file|
  {
    if pos + 8 > |file| then Err(Truncated) else
      var (offset, size) := (FromLe32(file[pos..pos + 4]), FromLe32(file[pos + 4..pos + 8]));
      if !InRange(offset, size) then Err(SuspiciousSegment) else
        var end := if pos + 8 + size <= |file| then pos + 8 + size else |file|;
        Ok((Segment(offset, size, file[pos + 8..end]), end))
  }

  function Segments(file: seq<byte>, n: nat): (r: Result<(seq<Segment>, nat)>)
    requires |file| >= 8
    ensures r.Ok? ==> |r.value.0| == n && r.value.1 <= |file|
  {
    if n == 0 then Ok(([], 8)) else
      match Segments(file, n - 1)
      case Err(e) => Err(e)
      case Ok((segments, pos)) =>
        match OneSegment(file, pos)
        case Err(e) => Err(e)
        case Ok((s, end)) => Ok((segments + [s], end))
  }

  function Loaded(file: seq<byte>): Result<Image> {
    if |file| < 8 then Err(Truncated)
    else if file[0] != ESP_IMAGE_MAGIC || file[1] > 16 then Err(InvalidImage)
    else
      match Segments(file, file[1])
      case Err(e) => Err(e)
      case Ok((segments, pos)) =>
        var at := pos + (15 - pos % 16);
        if at < |file| then Ok(Image(segments, FromLe32(file[4..8]), file[at])) else Err(Truncated)
  }

  // ----- loading what was saved

  /** What add_segment establishes. */
  predicate Sized(segments: seq<Segment>) {
    forall i :: 0 <= i < |segments| ==> segments[i].size == |segments[i].data|
  }

  predicate AllInRange(segments: seq<Segment>) {
    forall i :: 0 <= i < |segments| ==> InRange(segments[i].offset, segments[i].size)
  }

  /** `s` stands in `file` at `pos`. */
  ghost predicate StandsAt(file: seq<byte>, pos: nat, s: Segment) {
    Word32(s.offset) && Word32(s.size) && pos + |Block(s)| <= |file| && file[pos..pos + |Block(s)|] == Block(s)
  }

  lemma SliceOf(file: seq<byte>, pos: nat, b: seq<byte>, i: nat, j: nat)
    requires i <= j <= |b| && pos + |b| <= |file| && file[pos..pos + |b|] == b
    ensures file[pos + i..pos + j] == b[i..j]
  {
    forall t | i <= t < j
      ensures file[pos + t] == b[t]
    {
      assert file[pos..pos + |b|][t] == b[t];
    }
  }

  /** Where the parts of a segment stand. */
  lemma BlockParts(file: seq<byte>, pos: nat, s: Segment)
    requires StandsAt(file, pos, s)
    ensures |Block(s)| == 8 + |s.data| && pos + 8 + |s.data| <= |file|
    ensures file[pos..pos + 4] == Le32(s.offset) && file[pos + 4..pos + 8] == Le32(s.size)
    ensures file[pos + 8..pos + 8 + |s.data|] == s.data
  {
    hide Le32;
    var b := Block(s);
    assert b[0..4] == Le32(s.offset) && b[4..8] == Le32(s.size) && b[8..|b|] == s.data;
    SliceOf(file, pos, b, 0, 4);
    SliceOf(file, pos, b, 4, 8);
    SliceOf(file, pos, b, 8, |b|);
  }

  lemma BlockReadsBack(file: seq<byte>, pos: nat, s: Segment)
    requires StandsAt(file, pos, s) && s.size == |s.data|
    ensures OneSegment(file, pos)
         == if InRange(s.offset, s.size) then Ok((s, pos + |Block(s)|)) else Err(SuspiciousSegment)
  {
    BlockParts(file, pos, s);
    hide Le32, FromLe32, Block;
    Le32RoundTrip(s.offset);
    Le32RoundTrip(s.size);
  }

  /** In a file that starts with a body, the segments stand one behind the other. */
  lemma {:induction false} BlocksStand(segments: seq<Segment>, n: byte, entrypoint: int, file: seq<byte>, k: nat)
    requires Packable(segments, entrypoint) && Body(segments, n, entrypoint) <= file && k <= |segments|
    ensures Packable(segments[..k], entrypoint) && Body(segments[..k], n, entrypoint) <= file
    ensures k < |segments| ==>
              && StandsAt(file, |Body(segments[..k], n, entrypoint)|, segments[k])
              && |Body(segments[..k + 1], n, entrypoint)| == |Body(segments[..k], n, entrypoint)| + |Block(segments[k])|
    decreases |segments|
  {
    hide Block, Header;
    var m := |segments| - 1;
    if k <= m {
      var front := segments[..m];
      assert Body(segments, n, entrypoint) == Body(front, n, entrypoint) + Block(segments[m]);
      assert Body(front, n, entrypoint) <= file;
      BlocksStand(front, n, entrypoint, file, k);
      assert front[..k] == segments[..k];
      if k < m {
        assert front[..k + 1] == segments[..k + 1];
      } else {
        assert segments[..k + 1] == segments && segments[..k] == front;
        var pos := |Body(front, n, entrypoint)|;
        assert file[pos..pos + |Block(segments[m])|] == Body(segments, n, entrypoint)[pos..];
      }
    } else {
      assert segments[..k] == segments;
    }
  }

  /** The first `k` segments are read back if they are in range. */
  lemma {:induction false} SegmentsReadBack(segments: seq<Segment>, n: byte, entrypoint: int, file: seq<byte>, k: nat)
    requires Packable(segments, entrypoint) && Body(segments, n, entrypoint) <= file && k <= |segments|
    requires Sized(segments)
    ensures Packable(segments[..k], entrypoint)
    ensures Segments(file, k)
         == if AllInRange(segments[..k]) then Ok((segments[..k], |Body(segments[..k], n, entrypoint)|))
            else Err(SuspiciousSegment)
  {
    hide Block, StandsAt, InRange, AllInRange, Body, OneSegment, Packable, Segments;
    BlocksStand(segments, n, entrypoint, file, k);
    if k == 0 {
      assert segments[..k] == [];
      NothingRead(file, n, entrypoint);
    } else {
      var s, front := segments[k - 1], segments[..k - 1];
      SegmentsReadBack(segments, n, entrypoint, file, k - 1);
      BlocksStand(segments, n, entrypoint, file, k - 1);
      BlockReadsBack(file, |Body(front, n, entrypoint)|, s);
      assert segments[..k] == front + [s];
      AllInRangeAppend(front, s);
      SegmentsStep(file, k);
    }
  }

  lemma NothingRead(file: seq<byte>, n: byte, entrypoint: int)
    requires |file| >= 8 && Packable([], entrypoint)
    ensures Segments(file, 0) == Ok(([], 8)) && AllInRange([]) && |Body([], n, entrypoint)| == 8
  {
  }

  lemma SegmentsStep(file: seq<byte>, k: nat)
    requires |file| >= 8 && k > 0
    ensures Segments(file, k - 1).Err? ==> Segments(file, k) == Segments(file, k - 1)
    ensures Segments(file, k - 1).Ok? ==>
              var (front, pos) := Segments(file, k - 1).value;
              var one := OneSegment(file, pos);
              Segments(file, k) == if one.Ok? then Ok((front + [one.value.0], one.value.1)) else Err(one.error)
  {
    hide OneSegment;
  }

  lemma AllInRangeAppend(segments: seq<Segment>, s: Segment)
    ensures AllInRange(segments + [s]) <==> AllInRange(segments) && InRange(s.offset, s.size)
  {
    hide InRange;
    var all := segments + [s];
    assert all[|segments|] == s && forall i :: 0 <= i < |segments| ==> all[i] == segments[i];
    if AllInRange(all) {
      assert forall i :: 0 <= i < |segments| ==> InRange(all[i].offset, all[i].size);
      assert InRange(all[|segments|].offset, all[|segments|].size);
    }
  }

  lemma {:induction false} BodyHeader(segments: seq<Segment>, n: byte, entrypoint: int)
    requires Packable(segments, entrypoint)
    ensures Header(n, entrypoint) <= Body(segments, n, entrypoint)
  {
    if segments != [] {
      BodyHeader(segments[..|segments| - 1], n, entrypoint);
    }
  }

  lemma HeaderReadsBack(segments: seq<Segment>, n: byte, entrypoint: int, file: seq<byte>)
    requires Packable(segments, entrypoint) && Body(segments, n, entrypoint) <= file
    ensures |file| >= 8 && file[0] == ESP_IMAGE_MAGIC && file[1] == n && FromLe32(file[4..8]) == entrypoint
  {
    hide Body, Le32, FromLe32;
    BodyHeader(segments, n, entrypoint);
    var h := Header(n, entrypoint);
    assert h <= file;
    assert file[0] == h[0] && file[1] == h[1];
    assert file[4..8] == h[4..8] == Le32(entrypoint);
    Le32RoundTrip(entrypoint);
  }

  /** Where segment `k` starts in a file. */
  function At(segments: seq<Segment>, k: nat): nat
    requires k <= |segments|
  {
    if k == 0 then 8 else At(segments, k - 1) + 8 + |segments[k - 1].data|
  }

  lemma {:induction false} BodyLength(segments: seq<Segment>, n: byte, entrypoint: int, file: seq<byte>, k: nat)
    requires Packable(segments, entrypoint) && Body(segments, n, entrypoint) <= file && k <= |segments|
    ensures Packable(segments[..k], entrypoint) && |Body(segments[..k], n, entrypoint)| == At(segments, k)
  {
    hide Body, Packable;
    BlocksStand(segments, n, entrypoint, file, k);
    if k == 0 {
      assert segments[..k] == [];
      NothingRead(file, n, entrypoint);
    } else {
      BodyLength(segments, n, entrypoint, file, k - 1);
      BlocksStand(segments, n, entrypoint, file, k - 1);
    }
  }

  /** The words of a file are stored lowest byte first. */
  function WordBytes(n: int): seq<byte>
    requires Word32(n)
  {
    [n % 256, n / 256 % 256, n / 65536 % 256, n / 16777216 % 256]
  }

  /** The file byte for byte: magic 0xE9, number of segments, two zeros, entry point; behind the
      segments zeros, and the checksum at the end of a block of 16... */
  lemma SavedBytes(segments: seq<Segment>, entrypoint: int)
    requires Packable(segments, entrypoint)
    ensures var (f, end) := (File(segments, entrypoint), At(segments, |segments|));
            && |f| == (end / 16 + 1) * 16
            && f[..8] == [0xE9, |segments|, 0, 0] + WordBytes(entrypoint)
            && (forall i :: end <= i < |f| - 1 ==> f[i] == 0)
            && f[|f| - 1] == Checksum(AllData(segments), 0xEF)
  {
    FileParts(segments, entrypoint);
    hide *;
    var (n, body) := (|segments|, Body(segments, |segments|, entrypoint));
    SealedParts(body, Checksum(AllData(segments), ESP_CHECKSUM_MAGIC));
    HeaderBytes(n, entrypoint);
    FrontOf(Header(n, entrypoint), body, File(segments, entrypoint));
  }

  lemma FileParts(segments: seq<Segment>, entrypoint: int)
    requires Packable(segments, entrypoint)
    ensures |segments| < 256 && Word32(entrypoint)
    ensures var body := Body(segments, |segments|, entrypoint);
            && File(segments, entrypoint) == Sealed(body, Checksum(AllData(segments), ESP_CHECKSUM_MAGIC))
            && Header(|segments|, entrypoint) <= body && |body| == At(segments, |segments|)
  {
    hide Body, AllData, Checksum, At, Sealed, Header;
    var (n: nat, body) := (|segments|, Body(segments, |segments|, entrypoint));
    BodyHeader(segments, n, entrypoint);
    BodyLength(segments, n, entrypoint, body, n);
    assert segments[..n] == segments;
  }

  lemma HeaderBytes(n: byte, entrypoint: int)
    requires Word32(entrypoint)
    ensures Header(n, entrypoint) == [0xE9, n, 0, 0] + WordBytes(entrypoint)
  {
  }

  lemma SealedParts(body: seq<byte>, checksum: byte)
    ensures var f := Sealed(body, checksum);
            && |f| == (|body| / 16 + 1) * 16 && body <= f && f[|f| - 1] == checksum
            && forall i :: |body| <= i < |f| - 1 ==> f[i] == 0
  {
  }

  lemma FrontOf(h: seq<byte>, body: seq<byte>, f: seq<byte>)
    requires h <= body <= f && |h| == 8
    ensures f[..8] == h
  {
  }

  /** ...and each segment: offset, size and data. */
  lemma SegmentBytes(segments: seq<Segment>, entrypoint: int, k: nat)
    requires Packable(segments, entrypoint) && k < |segments|
    ensures var (f, p, s) := (File(segments, entrypoint), At(segments, k), segments[k]);
            && |f| >= p + 8 + |s.data|
            && f[p..p + 4] == WordBytes(s.offset) && f[p + 4..p + 8] == WordBytes(s.size)
            && f[p + 8..p + 8 + |s.data|] == s.data
  {
    hide Body, AllData, Checksum, At, Block, Sealed;
    var (n, f) := (|segments|, File(segments, entrypoint));
    BodyLength(segments, n, entrypoint, f, k);
    BlocksStand(segments, n, entrypoint, f, k);
    BlockParts(f, At(segments, k), segments[k]);
    assert Le32(segments[k].offset) == WordBytes(segments[k].offset);
    assert Le32(segments[k].size) == WordBytes(segments[k].size);
  }

  /** A saved image is loaded unchanged, with its checksum, exactly when it keeps the
      loader's limits; otherwise the loader names the limit. */
  lemma LoadsWhatWasSaved(segments: seq<Segment>, entrypoint: int)
    requires Packable(segments, entrypoint) && Sized(segments)
    ensures Loaded(File(segments, entrypoint))
         == if |segments| > 16 then Err(InvalidImage)
            else if forall i :: 0 <= i < |segments| ==>
                           0x3ffe0000 <= segments[i].offset <= 0x40200000 && segments[i].size <= 65536 then
              Ok(Image(segments, entrypoint, Checksum(AllData(segments), ESP_CHECKSUM_MAGIC)))
            else Err(SuspiciousSegment)
    ensures |File(segments, entrypoint)| % 16 == 0
  {
    hide Body, Checksum, AllData, FromLe32, Segments;
    var n := |segments|;
    var file := File(segments, entrypoint);
    HeaderReadsBack(segments, n, entrypoint, file);
    SegmentsReadBack(segments, n, entrypoint, file, n);
    assert segments[..n] == segments;
  }

  // ----- a file that lost its end

  lemma CutSegment(file: seq<byte>, pos: nat, s: Segment, c: nat)
    requires StandsAt(file, pos, s) && s.size == |s.data| && pos <= c <= |file|
    ensures var r := OneSegment(file[..c], pos); r.Ok? ==> r.value.1 == pos + |Block(s)| || r.value.1 == c
  {
    hide Le32, FromLe32;
    var b, cut := Block(s), file[..c];
    if pos + 8 <= c {
      assert cut[pos + 4..pos + 8] == file[pos + 4..pos + 8] == file[pos..pos + |b|][4..8] == Le32(s.size);
      Le32RoundTrip(s.size);
    }
  }

  lemma NothingLeft(file: seq<byte>)
    ensures OneSegment(file, |file|).Err?
  {
  }

  /** Reading a cut file goes as before, or has come to its end. */
  lemma {:induction false} CutSegments(segments: seq<Segment>, n: byte, entrypoint: int,
                                          file: seq<byte>, c: nat, k: nat)
    requires Packable(segments, entrypoint) && Body(segments, n, entrypoint) <= file && k <= |segments|
    requires Sized(segments) && 8 <= c <= |file|
    ensures Packable(segments[..k], entrypoint)
    ensures var r := Segments(file[..c], k);
            r.Ok? ==> r.value.1 == |Body(segments[..k], n, entrypoint)| || r.value.1 == c
  {
    hide Block, StandsAt, OneSegment;
    if k > 0 {
      CutSegments(segments, n, entrypoint, file, c, k - 1);
      BlocksStand(segments, n, entrypoint, file, k - 1);
      var r := Segments(file[..c], k - 1);
      if r.Ok? {
        if r.value.1 == c {
          NothingLeft(file[..c]);
        } else {
          CutSegment(file, r.value.1, segments[k - 1], c);
        }
      }
    }
  }

  /** No proper prefix of a saved image loads. */
  lemma CutFileIsRejected(segments: seq<Segment>, entrypoint: int, c: nat)
    requires Packable(segments, entrypoint) && Sized(segments) && c < |File(segments, entrypoint)|
    ensures Loaded(File(segments, entrypoint)[..c]).Err?
  {
    hide Body, Checksum, AllData, FromLe32, Segments;
    var n := |segments|;
    var file := File(segments, entrypoint);
    HeaderReadsBack(segments, n, entrypoint, file);
    if 8 <= c {
      CutSegments(segments, n, entrypoint, file, c, n);
      assert segments[..n] == segments;
    }
  }

  // ----- the code

  /** A binary file with a position. */
  class FileHandle {
    var bytes: seq<byte>
    var pos: nat

    constructor (bytes: seq<byte>)
      ensures this.bytes == bytes && pos == 0
    {
      this.bytes, pos := bytes, 0;
    }

    method Read(n: nat) returns (data: seq<byte>)
      modifies `pos
      ensures pos == old(pos) + |data|
      ensures if old(pos) + n <= |bytes| then data == bytes[old(pos)..old(pos) + n]
              else data == if old(pos) <= |bytes| then bytes[old(pos)..] else []
    {
      if pos + n <= |bytes| {
        data := bytes[pos..pos + n];
      } else {
        data := if pos <= |bytes| then bytes[pos..] else [];
      }
      pos := pos + |data|;
    }

    method Skip(n: nat)
      modifies `pos
      ensures pos == old(pos) + n
    {
      pos := pos + n;
    }

    /** Writing behind the end fills the gap with zeros. */
    method Write(data: seq<byte>)
      requires pos >= |bytes|
      modifies this
      ensures bytes == old(bytes + Zeros(pos - |bytes|)) + data && pos == |bytes|
    {
      bytes := bytes + Zeros(pos - |bytes|) + data;
      pos := |bytes|;
    }
  }

  method ChecksumOf(data: seq<byte>, initial: byte) returns (state: byte)
    ensures state == Checksum(data, initial)
  {
    state := initial;
    for i := 0 to |data|
      invariant state == Checksum(data[..i], initial)
    {
      assert data[..i + 1][..i] == data[..i];
      state := XorBytes(state, data[i]);
    }
    assert data[..|data|] == data;
  }

  class ESPFirmwareImage {
    var segments: seq<Segment>
    var entrypoint: int
    var checksum: byte

    constructor ()
      ensures segments == [] && entrypoint == 0
    {
      segments, entrypoint, checksum := [], 0, 0;
    }

    /** Reads the file from its start; an error stands for an exception. */
    method Load(f: FileHandle) returns (r: Result<Image>)
      requires f.pos == 0 && segments == []
      modifies this, f`pos
      ensures r == Loaded(f.bytes)
      ensures r.Ok? ==> r.value == Image(segments, entrypoint, checksum)
    {
      hide FromLe32, OneSegment;
      var header := f.Read(8);
      if |header| < 8 {
        return Err(Truncated);
      }
      entrypoint := FromLe32(header[4..8]);
      assert header[4..8] == f.bytes[4..8];
      if header[0] != 0xE9 || header[1] > 16 {
        return Err(InvalidImage);
      }
      var loaded := LoadSegments(f, header[1]);
      if loaded.Err? {
        return Err(loaded.error);
      }
      f.Skip(15 - f.pos % 16);
      var last := f.Read(1);
      if |last| == 0 {
        return Err(Truncated);
      }
      checksum := last[0];
      r := Ok(Image(segments, entrypoint, checksum));
    }

    method LoadSegments(f: FileHandle, n: nat) returns (r: Result<bool>)
      requires |f.bytes| >= 8 && f.pos == 8 && segments == []
      modifies `segments, f`pos
      ensures match Segments(f.bytes, n)
              case Err(e) => r == Err(e)
              case Ok((read, pos)) => r == Ok(true) && segments == read && f.pos == pos
    {
      hide OneSegment;
      var i := 0;
      while i < n
        invariant i <= n && Segments(f.bytes, i) == Ok((segments, f.pos))
      {
        ErrorStays(f.bytes, i + 1, n);
        var s := LoadSegment(f);
        if s.Err? {
          return Err(s.error);
        }
        segments := segments + [s.value];
        i := i + 1;
      }
      r := Ok(true);
    }

    method LoadSegment(f: FileHandle) returns (r: Result<Segment>)
      requires f.pos <= |f.bytes|
      modifies f`pos
      ensures r == match OneSegment(f.bytes, old(f.pos)) case Err(e) => Err(e) case Ok((s, _)) => Ok(s)
      ensures r.Ok? ==> f.pos == OneSegment(f.bytes, old(f.pos)).value.1
    {
      hide FromLe32;
      var header := f.Read(8);
      if |header| < 8 {
        return Err(Truncated);
      }
      var offset, size := FromLe32(header[..4]), FromLe32(header[4..]);
      ghost var p := old(f.pos);
      assert header[..4] == f.bytes[p..p + 4] && header[4..] == f.bytes[p + 4..p + 8];
      if offset > 0x40200000 || offset < 0x3ffe0000 || size > 65536 {
        return Err(SuspiciousSegment);
      }
      var data := f.Read(size);
      assert data == f.bytes[p + 8..f.pos];
      r := Ok(Segment(offset, size, data));
    }

    /** Pads the data with zeros to whole words. */
    method AddSegment(addr: int, data: seq<byte>)
      modifies `segments
      ensures |segments| == |old(segments)| + 1 && segments[..|old(segments)|] == old(segments)
      ensures var s := segments[|old(segments)|];
              && s.offset == addr && s.size == |s.data| && |s.data| % 4 == 0 && |s.data| < |data| + 4
              && data <= s.data && forall i :: |data| <= i < |s.data| ==> s.data[i] == 0
      ensures old(Sized(segments)) ==> Sized(segments)
    {
      var l, padded := |data|, data;
      if l % 4 != 0 {
        padded := data + Zeros(4 - l % 4);
      }
      segments := segments + [Segment(addr, |padded|, padded)];
    }

    /** Writes an empty file; packing a number that does not fit raises. */
    method Save(f: FileHandle) returns (ok: bool)
      requires f.bytes == [] && f.pos == 0
      modifies f
      ensures ok <==> Packable(segments, entrypoint)
      ensures ok ==> f.bytes == File(segments, entrypoint)
    {
      hide Body, AllData, Checksum, Header, Block;
      if |segments| > 255 || !Word32(entrypoint) {
        return false;
      }
      f.Write(Header(|segments|, entrypoint));
      var sum: byte := ESP_CHECKSUM_MAGIC;
      BodyStep(segments, |segments|, entrypoint, 0);
      for i := 0 to |segments|
        invariant Packable(segments[..i], entrypoint)
        invariant f.bytes == Body(segments[..i], |segments|, entrypoint) && f.pos == |f.bytes|
        invariant sum == Checksum(AllData(segments[..i]), ESP_CHECKSUM_MAGIC)
      {
        var s := segments[i];
        if !Word32(s.offset) || !Word32(s.size) {
          return false;
        }
        BodyStep(segments, |segments|, entrypoint, i);
        f.Write(Block(s));
        sum := ChecksumOf(s.data, sum);
      }
      assert segments[..|segments|] == segments;
      f.Skip(15 - f.pos % 16);
      f.Write([sum]);
      ok := true;
    }
  }

  lemma BodyStep(segments: seq<Segment>, n: byte, entrypoint: int, i: nat)
    requires i <= |segments| < 256 && Word32(entrypoint) && Packable(segments[..i], entrypoint)
    ensures i == 0 ==> Body(segments[..i], n, entrypoint) == Header(n, entrypoint) && AllData(segments[..i]) == []
    ensures i == 0 ==> Checksum(AllData(segments[..i]), ESP_CHECKSUM_MAGIC) == ESP_CHECKSUM_MAGIC
    ensures i < |segments| && Word32(segments[i].offset) && Word32(segments[i].size) ==>
              && Packable(segments[..i + 1], entrypoint)
              && Body(segments[..i + 1], n, entrypoint) == Body(segments[..i], n, entrypoint) + Block(segments[i])
              && Checksum(AllData(segments[..i + 1]), ESP_CHECKSUM_MAGIC)
              == Checksum(segments[i].data, Checksum(AllData(segments[..i]), ESP_CHECKSUM_MAGIC))
  {
    hide Block, Header;
    if i < |segments| {
      assert segments[..i + 1][..i] == segments[..i];
      ChecksumConcat(AllData(segments[..i]), segments[i].data, ESP_CHECKSUM_MAGIC);
    }
  }

  lemma {:induction false} ErrorStays(file: seq<byte>, n: nat, m: nat)
    requires |file| >= 8 && n <= m
    ensures Segments(file, n).Err? ==> Segments(file, m) == Segments(file, n)
    decreases m
  {
    if n < m {
      ErrorStays(file, n, m - 1);
    }
  }
}
