/** The software UART (user/software_uart.c): the line as a level per timer tick, the sender
    that drives it and the interrupt handler that samples it, with an ideal clock. */
module SoftUart {
  import opened Octets

  const BITS_IN_BYTE: nat := 8

  type bit = x: int | 0 <= x < 2

  /** Microseconds to timer ticks. */
  function ToTicks(x: nat): nat {
    x * 5 / 16
  }

  /** How long the handler waits before its first sample. */
  function FirstWait(d: nat): nat {
    ToTicks(d + d / 2)
  }

  /** The level of the line; it idles high. */
  function Level(wave: seq<bit>, t: nat): bit {
    if t < |wave| then wave[t] else 1
  }

  // ----- what is sent

  /** `b` shifted right `i` times. */
  function Shifted(b: byte, i: nat): byte {
    if i == 0 then b else Shifted(b, i - 1) / 2
  }

  function Bit(b: byte, i: nat): bit {
    Shifted(b, i) % 2
  }

  /** Start bit, data bits from the lowest, stop bit. */
  function Frame(b: byte): (r: seq<bit>)
    ensures |r| == 10 && r[0] == 0 && r[9] == 1
    ensures forall i {:trigger Bit(b, i)} :: 0 <= i < 8 ==> r[i + 1] == Bit(b, i)
  {
    [0] + seq(BITS_IN_BYTE, i requires 0 <= i => Bit(b, i)) + [1]
  }

  function Held(level: bit, ticks: nat): (r: seq<bit>)
    ensures |r| == ticks && forall i :: 0 <= i < ticks ==> r[i] == level
  {
    seq(ticks, _ => level)
  }

  /** A byte of the line lasts ten bits. */
  function Span(ticks: nat, n: nat): (r: nat) {
    if n == 0 then 0 else Span(ticks, n - 1) + 10 * ticks
  }

  /** The ticks of `n` bits. */
  function Times(n: nat, ticks: nat): nat {
    if n == 0 then 0 else Times(n - 1, ticks) + ticks
  }

  lemma {:induction false} TimesMonotone(k: nat, n: nat, ticks: nat)
    requires k <= n
    ensures Times(k, ticks) <= Times(n, ticks)
  {
    if k < n {
      TimesMonotone(k, n - 1, ticks);
    }
  }

  lemma FewTimes(ticks: nat)
    ensures Times(0, ticks) == 0 && Times(8, ticks) == 8 * ticks
    ensures Times(9, ticks) == 9 * ticks && Times(10, ticks) == 10 * ticks
  {
    assert Times(1, ticks) == ticks;
    assert Times(3, ticks) == 3 * ticks;
    assert Times(5, ticks) == 5 * ticks;
    assert Times(7, ticks) == 7 * ticks;
  }

  /** Every bit held for `ticks` ticks. */
  function Stretched(bits: seq<bit>, ticks: nat): (r: seq<bit>)
    ensures |r| == Times(|bits|, ticks)
  {
    if bits == [] then [] else Stretched(bits[..|bits| - 1], ticks) + Held(bits[|bits| - 1], ticks)
  }

  function Waveform(bytes: seq<byte>, ticks: nat): (r: seq<bit>)
    ensures |r| == Span(ticks, |bytes|)
  {
    FewTimes(ticks);
    if bytes == [] then [] else Waveform(bytes[..|bytes| - 1], ticks) + Stretched(Frame(bytes[|bytes| - 1]), ticks)
  }

  // ----- what is received

  /** `n` samples, `ticks` apart from time `t`, shifted in from the top. */
  function Sampled(wave: seq<bit>, t: nat, ticks: nat, n: nat): byte {
    if n == 0 then 0 else Sampled(wave, t, ticks, n - 1) / 2 + 128 * Level(wave, t + Times(n - 1, ticks))
  }

  predicate Falling(wave: seq<bit>, t: nat) {
    Level(wave, t) == 0 && (t == 0 || Level(wave, t - 1) == 1)
  }

  /** The bytes that the handler stores from time `t` on: it starts at a falling edge, and
      edges before it returns are lost. */
  function Received(wave: seq<bit>, t: nat, d: nat, size: nat): seq<byte>
    decreases size, |wave| - t
  {
    if size == 0 || t >= |wave| then []
    else if Falling(wave, t) then
      [Sampled(wave, t + FirstWait(d), ToTicks(d), BITS_IN_BYTE)]
      + Received(wave, t + FirstWait(d) + BITS_IN_BYTE * ToTicks(d), d, size - 1)
    else Received(wave, t + 1, d, size)
  }

  /** The bit delays at which every sample falls into its bit. */
  predicate Samples(d: nat) {
    d == 4 || d == 7 || d == 8 || d >= 10
  }

  lemma SamplesIff(d: nat)
    ensures Samples(d) <==> ToTicks(d) <= FirstWait(d) < 2 * ToTicks(d)
    ensures !Samples(d) && ToTicks(d) > 0 ==> FirstWait(d) == 2 * ToTicks(d)
  {
  }

  // ----- the line

  lemma {:induction false} StretchedAt(bits: seq<bit>, ticks: nat, j: nat, r: nat)
    requires j < |bits| && r < ticks
    ensures Times(j, ticks) + r < Times(|bits|, ticks) && Stretched(bits, ticks)[Times(j, ticks) + r] == bits[j]
    decreases |bits|
  {
    var n := |bits| - 1;
    if j < n {
      TimesMonotone(j + 1, n, ticks);
      StretchedAt(bits[..n], ticks, j, r);
    }
  }

  lemma {:induction false} ByteAt(bytes: seq<byte>, ticks: nat, k: nat, at: nat)
    requires k < |bytes| && at < 10 * ticks
    ensures Level(Waveform(bytes, ticks), Span(ticks, k) + at) == Stretched(Frame(bytes[k]), ticks)[at]
    decreases |bytes|
  {
    hide Frame, Stretched;
    var n := |bytes| - 1;
    if k < n {
      SpanMonotone(ticks, k + 1, n);
      ByteAt(bytes[..n], ticks, k, at);
    }
  }

  /** Tick `r` of bit `j` of byte `k`. */
  lemma WaveAt(bytes: seq<byte>, ticks: nat, k: nat, j: nat, r: nat)
    requires k < |bytes| && j < 10 && r < ticks
    ensures Level(Waveform(bytes, ticks), Span(ticks, k) + Times(j, ticks) + r) == Frame(bytes[k])[j]
  {
    hide *;
    FewTimes(ticks);
    StretchedAt(Frame(bytes[k]), ticks, j, r);
    ByteAt(bytes, ticks, k, Times(j, ticks) + r);
  }

  lemma {:induction false} SpanMonotone(ticks: nat, k: nat, n: nat)
    requires k <= n
    ensures Span(ticks, k) <= Span(ticks, n)
    decreases n
  {
    if k < n {
      SpanMonotone(ticks, k, n - 1);
    }
  }

  // ----- one byte

  lemma Halving(b: byte, i: nat)
    ensures Shifted(b, i) == 2 * Shifted(b, i + 1) as nat + Bit(b, i) as nat
  {
  }

  lemma SumOfBits(b: byte)
    ensures b == Bit(b, 0) as nat + 2 * Bit(b, 1) as nat + 4 * Bit(b, 2) as nat + 8 * Bit(b, 3) as nat
                 + 16 * Bit(b, 4) as nat + 32 * Bit(b, 5) as nat + 64 * Bit(b, 6) as nat + 128 * Bit(b, 7) as nat
  {
    assert Shifted(b, 0) == b;
    hide Bit, Shifted;
    Halving(b, 0);
    Halving(b, 1);
    Halving(b, 2);
    Halving(b, 3);
    Halving(b, 4);
    Halving(b, 5);
    Halving(b, 6);
    Halving(b, 7);
  }

  /** Start bit, the bits of the byte from the lowest, stop bit. */
  lemma FrameBits(b: byte)
    ensures Frame(b)
         == [0, b % 2, b / 2 % 2, b / 4 % 2, b / 8 % 2, b / 16 % 2, b / 32 % 2, b / 64 % 2, b / 128 % 2, 1]
  {
    var f := Frame(b);
    assert Shifted(b, 0) == b && Shifted(b, 1) == b / 2 && Shifted(b, 2) == b / 4 && Shifted(b, 3) == b / 8;
    assert Shifted(b, 4) == b / 16 && Shifted(b, 5) == b / 32;
    assert Shifted(b, 6) == b / 64 && Shifted(b, 7) == b / 128;
    assert f[1] == Bit(b, 0) && f[2] == Bit(b, 1) && f[3] == Bit(b, 2) && f[4] == Bit(b, 3);
    assert f[5] == Bit(b, 4) && f[6] == Bit(b, 5) && f[7] == Bit(b, 6) && f[8] == Bit(b, 7);
  }

  /** Shifting eight samples in from the top puts the first one at the bottom. */
  lemma ShiftedIn(wave: seq<bit>, t: nat, ticks: nat, b: byte)
    requires forall i {:trigger Bit(b, i)} :: 0 <= i < 8 ==> Level(wave, t + Times(i, ticks)) == Bit(b, i)
    ensures Sampled(wave, t, ticks, 8) == b
  {
    SumOfBits(b);
    hide Level, Bit;
    var (x0: int, x1: int, x2: int, x3: int) := (Bit(b, 0), Bit(b, 1), Bit(b, 2), Bit(b, 3));
    var (x4: int, x5: int, x6: int, x7: int) := (Bit(b, 4), Bit(b, 5), Bit(b, 6), Bit(b, 7));
    assert t + Times(0, ticks) == t;
    assert Sampled(wave, t, ticks, 1) == 128 * x0;
    assert Sampled(wave, t, ticks, 2) == 64 * x0 + 128 * x1;
    assert Sampled(wave, t, ticks, 3) == 32 * x0 + 64 * x1 + 128 * x2;
    assert Sampled(wave, t, ticks, 4) == 16 * x0 + 32 * x1 + 64 * x2 + 128 * x3;
    assert Sampled(wave, t, ticks, 5) == 8 * x0 + 16 * x1 + 32 * x2 + 64 * x3 + 128 * x4;
    assert Sampled(wave, t, ticks, 6) == 4 * x0 + 8 * x1 + 16 * x2 + 32 * x3 + 64 * x4 + 128 * x5;
    assert Sampled(wave, t, ticks, 7) == 2 * x0 + 4 * x1 + 8 * x2 + 16 * x3 + 32 * x4 + 64 * x5 + 128 * x6;
    assert Sampled(wave, t, ticks, 8) == x0 + 2 * x1 + 4 * x2 + 8 * x3 + 16 * x4 + 32 * x5 + 64 * x6 + 128 * x7;
  }

  // ----- a message

  function Min(a: nat, b: nat): nat {
    if a <= b then a else b
  }

  /** One byte of the line: its samples, and the level from the handler's return to the
      end of the stop bit. */
  lemma ByteReceived(bytes: seq<byte>, d: nat, k: nat)
    requires Samples(d) && k < |bytes|
    ensures var (wave, at, ticks) := (Waveform(bytes, ToTicks(d)), Span(ToTicks(d), k), ToTicks(d));
            && Sampled(wave, at + FirstWait(d), ticks, 8) == bytes[k]
            && forall t :: at + FirstWait(d) + 8 * ticks <= t < at + 10 * ticks ==> Level(wave, t) == 1
  {
    hide *;
    var (wave, at, ticks) := (Waveform(bytes, ToTicks(d)), Span(ToTicks(d), k), ToTicks(d));
    SamplesIff(d);
    BitsSampled(bytes, ticks, k, FirstWait(d));
    FewTimes(ticks);
    ShiftedIn(wave, at + FirstWait(d), ticks, bytes[k]);
    forall t | at + FirstWait(d) + 8 * ticks <= t < at + 10 * ticks
      ensures Level(wave, t) == 1
    {
      WaveAt(bytes, ticks, k, 9, t - at - 9 * ticks);
    }
  }

  /** Samples taken `ticks` apart from within the first data bit see the data bits. */
  lemma BitsSampled(bytes: seq<byte>, ticks: nat, k: nat, wait: nat)
    requires k < |bytes| && ticks <= wait < 2 * ticks
    ensures forall i {:trigger Bit(bytes[k], i)} :: 0 <= i < 8 ==>
              Level(Waveform(bytes, ticks), Span(ticks, k) + wait + Times(i, ticks)) == Bit(bytes[k], i)
  {
    hide Level, Waveform, Span, Frame;
    forall i {:trigger Bit(bytes[k], i)} | 0 <= i < 8
      ensures Level(Waveform(bytes, ticks), Span(ticks, k) + wait + Times(i, ticks)) == Bit(bytes[k], i)
    {
      WaveAt(bytes, ticks, k, i + 1, wait - ticks);
    }
  }

  lemma ByteStartsLow(bytes: seq<byte>, ticks: nat, k: nat)
    requires k < |bytes| && ticks > 0
    ensures Level(Waveform(bytes, ticks), Span(ticks, k)) == 0
  {
    hide *;
    FewTimes(ticks);
    WaveAt(bytes, ticks, k, 0, 0);
  }

  lemma ByteEndsHigh(bytes: seq<byte>, ticks: nat, k: nat)
    requires k < |bytes| && ticks > 0
    ensures Level(Waveform(bytes, ticks), Span(ticks, k) + 10 * ticks - 1) == 1
  {
    hide *;
    FewTimes(ticks);
    WaveAt(bytes, ticks, k, 9, ticks - 1);
  }

  lemma EdgeAt(bytes: seq<byte>, ticks: nat, k: nat)
    requires k < |bytes| && ticks > 0
    ensures Falling(Waveform(bytes, ticks), Span(ticks, k))
  {
    hide Level, Waveform, Frame, Times;
    ByteStartsLow(bytes, ticks, k);
    if k > 0 {
      ByteEndsHigh(bytes, ticks, k - 1);
    }
  }

  /** Nothing is received while the line is high. */
  lemma {:induction false} Quiet(wave: seq<bit>, t: nat, u: nat, d: nat, size: nat)
    requires t <= u <= |wave| && forall v :: t <= v < u ==> Level(wave, v) == 1
    ensures Received(wave, t, d, size) == Received(wave, u, d, size)
    decreases u - t
  {
    if t < u {
      Quiet(wave, t + 1, u, d, size);
    }
  }

  /** The handler takes byte `k` and has returned when the next one starts. */
  lemma OneByte(bytes: seq<byte>, d: nat, k: nat, size: nat)
    requires Samples(d) && k < |bytes| && size > 0
    ensures var (wave, ticks) := (Waveform(bytes, ToTicks(d)), ToTicks(d));
            Received(wave, Span(ticks, k), d, size) == [bytes[k]] + Received(wave, Span(ticks, k + 1), d, size - 1)
  {
    var (wave, at, ticks) := (Waveform(bytes, ToTicks(d)), Span(ToTicks(d), k), ToTicks(d));
    SamplesIff(d);
    hide Level, Falling, Waveform, Samples, FirstWait, ToTicks, Sampled;
    SpanMonotone(ticks, k + 1, |bytes|);
    ByteReceived(bytes, d, k);
    EdgeAt(bytes, ticks, k);
    Quiet(wave, at + FirstWait(d) + 8 * ticks, at + 10 * ticks, d, size - 1);
  }

  /** From the start of byte `k` on, exactly the bytes from `k` on are received. */
  lemma {:induction false} ReceivedFrom(bytes: seq<byte>, d: nat, k: nat, size: nat)
    requires Samples(d) && k <= |bytes|
    ensures Received(Waveform(bytes, ToTicks(d)), Span(ToTicks(d), k), d, size) == bytes[k..k + Min(size, |bytes| - k)]
    decreases |bytes| - k
  {
    hide Level, Falling, Samples, FirstWait, ToTicks, Sampled;
    if size > 0 && k < |bytes| {
      OneByte(bytes, d, k, size);
      ReceivedFrom(bytes, d, k + 1, size - 1);
    } else {
      hide Waveform;
    }
  }

  /** The receiver gets what was sent, up to its buffer size, exactly at these delays. */
  lemma ReceivesIff(d: nat)
    ensures (forall bytes, size :: Received(Waveform(bytes, ToTicks(d)), 0, d, size) == bytes[..Min(size, |bytes|)])
       <==> Samples(d)
  {
    if Samples(d) {
      forall bytes, size
        ensures Received(Waveform(bytes, ToTicks(d)), 0, d, size) == bytes[..Min(size, |bytes|)]
      {
        ReceivedFrom(bytes, d, 0, size);
      }
    } else {
      SentOneIsNotReceived(d);
      assert Received(Waveform([1], ToTicks(d)), 0, d, 1) != [1][..Min(1, |[1 as byte]|)];
    }
  }

  /** At the other delays the samples come one bit late, or nothing is sent at all. */
  lemma SentOneIsNotReceived(d: nat)
    requires !Samples(d)
    ensures Received(Waveform([1], ToTicks(d)), 0, d, 1) != [1]
  {
    var (wave, ticks) := (Waveform([1], ToTicks(d)), ToTicks(d));
    SamplesIff(d);
    if ticks > 0 {
      assert Span(ticks, 0) == 0;
      WaveAt([1], ticks, 0, 0, 0);
      WaveAt([1], ticks, 0, 2, 0);
    }
  }

  /** The baud rates whose bit delay works. */
  lemma WorkingBauds(baud: nat)
    requires baud > 0
    ensures Samples(1000000 / baud)
       <==> baud <= 100000 || 111111 < baud <= 142857 || 200000 < baud <= 250000
  {
    var d := 1000000 / baud;
    assert d * baud <= 1000000 < (d + 1) * baud;
  }

  // ----- the code

  class SoftwareUart {
    var baudRate: nat
    var bitDelay: nat
    var byteCount: nat
    var buffer: array<byte>
    var enabled: bool // the receive interrupt
    var rxPin: nat
    var txPin: nat
    var rxEdge: bool  // the receive pin interrupts at falling edges

    ghost predicate Valid()
      reads this
    {
      byteCount <= buffer.Length && (enabled ==> byteCount < buffer.Length)
    }

    ghost function Stored(): seq<byte>
      requires Valid()
      reads this, buffer
    {
      buffer[..byteCount]
    }

    constructor (buffer: array<byte>)
      requires buffer.Length > 0
      ensures Valid() && this.buffer == buffer && Stored() == [] && enabled && bitDelay == 26
    {
      baudRate, bitDelay, byteCount, enabled := 38400, 26, 0, true;
      txPin, rxPin, rxEdge := 4, 5, true;
      this.buffer := buffer;
    }

    method Config(baud: nat, rx: nat, tx: nat)
      modifies `baudRate, `bitDelay, `rxPin, `txPin
      ensures if baud == 0 then (baudRate, bitDelay, rxPin, txPin) == old((baudRate, bitDelay, rxPin, txPin))
              else (baudRate, bitDelay, rxPin, txPin) == (baud, 1000000 / baud, rx, tx)
    {
      if baud == 0 {
        return;
      }
      baudRate := baud;
      bitDelay := 1000000 / baud;
      rxPin, txPin := rx, tx;
    }

    /** Drives the line until the clock has advanced by one bit. */
    method Drive(level: bit) returns (wave: seq<bit>)
      ensures wave == Held(level, ToTicks(bitDelay))
    {
      var clock, now: nat := 0, 0;
      wave := [];
      while now - clock < ToTicks(bitDelay)
        invariant clock == 0 && now <= ToTicks(bitDelay) && wave == Held(level, now)
      {
        wave := wave + [level];
        now := now + 1;
      }
    }

    method SendByte(b: byte) returns (wave: seq<bit>)
      ensures wave == Stretched(Frame(b), ToTicks(bitDelay))
    {
      ghost var ticks := ToTicks(bitDelay);
      var bits: byte, j: nat := b, 0;
      wave := Drive(0);
      StretchedStep(Frame(b), ticks, 0);
      while j < 8
        invariant 0 <= j <= 8 && bits == Shifted(b, j)
        invariant wave == Stretched(Frame(b)[..j + 1], ticks)
      {
        var more := Drive(bits % 2);
        StretchedStep(Frame(b), ticks, j + 1);
        wave := wave + more;
        bits := bits / 2;
        j := j + 1;
      }
      var stop := Drive(1);
      StretchedStep(Frame(b), ticks, 9);
      assert Frame(b)[..10] == Frame(b);
      wave := wave + stop;
    }

    /** The receive pin is deaf while sending, and listens afterwards even if it did not before. */
    method Send(data: seq<byte>) returns (wave: seq<bit>)
      modifies `rxEdge
      ensures wave == Waveform(data, ToTicks(bitDelay)) && rxEdge
    {
      rxEdge := false;
      var i := 0;
      wave := [];
      while i < |data|
        invariant 0 <= i <= |data| && wave == Waveform(data[..i], ToTicks(bitDelay))
      {
        var more := SendByte(data[i]);
        assert data[..i + 1][..i] == data[..i];
        wave := wave + more;
        i := i + 1;
      }
      assert data[..i] == data;
      rxEdge := true;
    }

    /** Waits for a number of ticks. */
    method Wait(clock: nat, ticks: nat) returns (now: nat)
      ensures now == clock + ticks
    {
      now := clock;
      while now - clock < ticks
        invariant clock <= now <= clock + ticks
      {
        now := now + 1;
      }
    }

    /** bit_bang_read_byte, entered at time `at` with the interrupt status read; returns the
        time at which it is left, and whether the buffer's callback is due. */
    method ReadByte(wave: seq<bit>, at: nat, gpioStatus: nat) returns (now: nat, full: bool)
      requires Valid() && enabled
      modifies `byteCount, `enabled, `rxEdge, buffer
      ensures Valid() && enabled == (byteCount < buffer.Length) && full == !enabled && (full ==> !rxEdge)
      ensures if gpioStatus == 0 then now == at && byteCount == old(byteCount) && Stored() == old(Stored())
              else
                && now == at + FirstWait(bitDelay) + BITS_IN_BYTE * ToTicks(bitDelay)
                && byteCount == old(byteCount) + 1
                && Stored()
                   == old(Stored()) + [Sampled(wave, at + FirstWait(bitDelay), ToTicks(bitDelay), BITS_IN_BYTE)]
    {
      if gpioStatus == 0 {
        return at, false;
      }
      hide Sampled, FirstWait, ToTicks;
      var b;
      b, now := SampleByte(wave, at);
      buffer[byteCount] := b;
      byteCount := byteCount + 1;
      full := byteCount == buffer.Length;
      if full {
        enabled, rxEdge := false, false;
      }
    }

    method SampleByte(wave: seq<bit>, at: nat) returns (b: byte, now: nat)
      ensures now == at + FirstWait(bitDelay) + BITS_IN_BYTE * ToTicks(bitDelay)
      ensures b == Sampled(wave, at + FirstWait(bitDelay), ToTicks(bitDelay), BITS_IN_BYTE)
    {
      var i: nat := 0;
      b := 0;
      now := Wait(at, ToTicks(bitDelay + bitDelay / 2));
      ghost var first := now;
      while i < BITS_IN_BYTE
        invariant 0 <= i <= BITS_IN_BYTE && now == first + Times(i, ToTicks(bitDelay))
        invariant b == Sampled(wave, first, ToTicks(bitDelay), i)
      {
        b := b / 2 + 128 * Level(wave, now);
        now := Wait(now, ToTicks(bitDelay));
        i := i + 1;
      }
      FewTimes(ToTicks(bitDelay));
    }

    /** The line raises the interrupt at each falling edge that finds it enabled. */
    method Listen(wave: seq<bit>) returns (full: bool)
      requires Valid() && enabled
      modifies `byteCount, `enabled, `rxEdge, buffer
      ensures Valid() && full == (byteCount == buffer.Length)
      ensures Stored() == old(Stored()) + Received(wave, 0, bitDelay, buffer.Length - old(byteCount))
    {
      hide Sampled, Falling, FirstWait, ToTicks;
      var t: nat := 0;
      full := false;
      ghost var all := Received(wave, 0, bitDelay, buffer.Length - byteCount);
      while enabled && t < |wave|
        invariant Valid() && (enabled <==> byteCount < buffer.Length) && full == !enabled
        invariant Stored() + Received(wave, t, bitDelay, buffer.Length - byteCount) == old(Stored()) + all
        decreases buffer.Length - byteCount, |wave| - t
      {
        if Falling(wave, t) {
          t, full := ReadByte(wave, t, 1);
        } else {
          t := t + 1;
        }
      }
    }
  }

  lemma StretchedStep(bits: seq<bit>, ticks: nat, j: nat)
    requires j < |bits|
    ensures Stretched(bits[..j + 1], ticks) == Stretched(bits[..j], ticks) + Held(bits[j], ticks)
    ensures j == 0 ==> Stretched(bits[..1], ticks) == Held(bits[0], ticks)
  {
    assert bits[..j + 1][..j] == bits[..j];
  }
}
