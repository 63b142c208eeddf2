/// Frame codec of the actuator link: the CRC-16/MODBUS checksum (section 2.5.1.2
/// and Appendix B of the MODBUS over Serial Line Specification V1.02) and the
/// two-byte trailer that carries it, low byte first.
module Codec {

  /** The conventional optional value. */
  datatype Option<+T> = None | Some(value: T)

  /** One octet on the wire. */
  type Byte = bv8

  /** An ordered byte sequence as written to, or read from, the serial link. */
  type Frame = seq<Byte>

  // ---------------------------------------------------------------------------
  // CRC-16/MODBUS: reflected, polynomial 0xA001, initial value 0xFFFF, no final xor
  // ---------------------------------------------------------------------------

  /** One of the eight shift steps per byte: shift right, and xor the reflected
      polynomial in when a one was shifted out. */
  function ShiftStep(c: bv16): bv16 {
    if c & 1 == 1 then (c >> 1) ^ 0xA001 else c >> 1
  }

  /** `n` shift steps. */
  function Shifts(c: bv16, n: nat): bv16 {
    if n == 0 then c else ShiftStep(Shifts(c, n - 1))
  }

  /** The register after one data byte has been folded in. */
  function UpdateByte(c: bv16, b: Byte): bv16 {
    Shifts(c ^ (b as bv16), 8)
  }

  /** The register after folding in `data` left to right, starting from `c`. */
  function CrcOver(c: bv16, data: seq<Byte>): bv16
    decreases |data|
  {
    if data == [] then c else UpdateByte(CrcOver(c, data[..|data| - 1]), data[|data| - 1])
  }

  /** The CRC-16/MODBUS of `data`. */
  function Crc16(data: seq<Byte>): bv16 {
    CrcOver(0xFFFF, data)
  }

  /** The checksum computation as the controller performs it: a byte loop with
      the eight shift steps as an inner loop. */
  method Crc16Modbus(data: seq<Byte>) returns (crc: bv16)
    ensures crc == Crc16(data)
  {
    crc := 0xFFFF;
    for i := 0 to |data|
      invariant crc == CrcOver(0xFFFF, data[..i])
    {
      crc := crc ^ (data[i] as bv16);
      ghost var folded := crc;
      for j := 0 to 8
        invariant crc == Shifts(folded, j)
      {
        if crc & 0x0001 == 1 {
          crc := (crc >> 1) ^ 0xA001;
        } else {
          crc := crc >> 1;
        }
      }
      assert data[..i + 1][..i] == data[..i];
    }
    assert data[..|data|] == data;
  }

  // ---------------------------------------------------------------------------
  // The checksum trailer
  // ---------------------------------------------------------------------------

  /** The byte sent first: the low half of the register. */
  function LowByte(c: bv16): Byte {
    (c & 0xFF) as bv8
  }

  /** The byte sent second: the high half of the register. */
  function HighByte(c: bv16): Byte {
    (c >> 8) as bv8
  }

  /** The 16-bit value a receiver reassembles from a trailer sent low byte first. */
  function Received(lo: Byte, hi: Byte): bv16 {
    (lo as bv16) | ((hi as bv16) << 8)
  }

  /** `f` followed by its checksum trailer. */
  function WithCrc(f: Frame): (g: Frame)
    ensures |g| == |f| + 2 && g[..|f|] == f
    ensures Received(g[|f|], g[|f| + 1]) == Crc16(f)
  {
    var c := Crc16(f);
    ReceivedOfCrc(c);
    f + [LowByte(c), HighByte(c)]
  }

  /** Appends the checksum trailer to a frame being built. */
  method AppendCrc(frame: Frame) returns (out: Frame)
    ensures out == WithCrc(frame)
  {
    var crc := Crc16Modbus(frame);
    out := frame + [LowByte(crc)];
    out := out + [HighByte(crc)];
  }

  /** The trailing two bytes of `f` equal the CRC of everything before them. */
  predicate CrcMatches(f: Frame)
    requires |f| >= 2
  {
    Crc16(f[..|f| - 2]) == Received(f[|f| - 2], f[|f| - 1])
  }

  /** Checksum validation of a received frame: frames shorter than four bytes
      are refused outright. */
  predicate ValidateCrc(f: Frame): (ok: bool)
    ensures |f| < 4 ==> !ok
  {
    |f| >= 4 && CrcMatches(f)
  }

  // ---------------------------------------------------------------------------
  // Properties of the trailer
  // ---------------------------------------------------------------------------

  lemma ReceivedOfCrc(c: bv16)
    ensures Received(LowByte(c), HighByte(c)) == c
  {
  }

  lemma ReceivedInjective(lo1: Byte, hi1: Byte, lo2: Byte, hi2: Byte)
    requires Received(lo1, hi1) == Received(lo2, hi2)
    ensures lo1 == lo2 && hi1 == hi2
  {
  }

  /** Trailers that differ in either byte carry different checksums. */
  lemma ReceivedDiffers(lo1: Byte, hi1: Byte, lo2: Byte, hi2: Byte)
    requires lo1 != lo2 || hi1 != hi2
    ensures Received(lo1, hi1) != Received(lo2, hi2)
  {
  }

  /** A frame with an appended trailer validates exactly when the frame it was
      computed over has at least two bytes. */
  lemma ValidateWithCrc(f: Frame)
    ensures ValidateCrc(WithCrc(f)) <==> |f| >= 2
  {
    var g := WithCrc(f);
    assert g[..|g| - 2] == f;
  }

  /** A frame validates exactly when it is at least four bytes long and is
      its own first part followed by that part's trailer. */
  lemma ValidateIffTrailer(g: Frame)
    ensures ValidateCrc(g) <==> |g| >= 4 && g == WithCrc(g[..|g| - 2])
  {
    if |g| >= 4 {
      var f := g[..|g| - 2];
      var c := Crc16(f);
      ReceivedOfCrc(c);
      if CrcMatches(g) {
        ReceivedInjective(g[|g| - 2], g[|g| - 1], LowByte(c), HighByte(c));
        assert g == f + [g[|g| - 2], g[|g| - 1]];
      }
    }
  }

  // ---------------------------------------------------------------------------
  // Error detection: every single-byte change of a checked frame is caught
  // ---------------------------------------------------------------------------

  lemma ShiftStepInjective(x: bv16, y: bv16)
    requires ShiftStep(x) == ShiftStep(y)
    ensures x == y
  {
  }

  lemma {:induction false} ShiftsInjective(x: bv16, y: bv16, n: nat)
    requires Shifts(x, n) == Shifts(y, n)
    ensures x == y
  {
    if n > 0 {
      ShiftStepInjective(Shifts(x, n - 1), Shifts(y, n - 1));
      ShiftsInjective(x, y, n - 1);
    }
  }

  /** For a fixed data byte, distinct registers stay distinct. */
  lemma UpdateByteInjectiveInRegister(c1: bv16, c2: bv16, b: Byte)
    requires UpdateByte(c1, b) == UpdateByte(c2, b)
    ensures c1 == c2
  {
    ShiftsInjective(c1 ^ (b as bv16), c2 ^ (b as bv16), 8);
  }

  /** For a fixed register, distinct data bytes give distinct registers. */
  lemma UpdateByteInjectiveInByte(c: bv16, b1: Byte, b2: Byte)
    requires UpdateByte(c, b1) == UpdateByte(c, b2)
    ensures b1 == b2
  {
    ShiftsInjective(c ^ (b1 as bv16), c ^ (b2 as bv16), 8);
  }

  lemma CrcOverSnoc(c: bv16, p: seq<Byte>, b: Byte)
    ensures CrcOver(c, p + [b]) == UpdateByte(CrcOver(c, p), b)
  {
    assert (p + [b])[..|p|] == p;
  }

  lemma {:induction false} CrcOverAppend(c: bv16, p: seq<Byte>, q: seq<Byte>)
    ensures CrcOver(c, p + q) == CrcOver(CrcOver(c, p), q)
    decreases |q|
  {
    if q == [] {
      assert p + q == p;
    } else {
      var q' := q[..|q| - 1];
      var b := q[|q| - 1];
      assert p + q == (p + q') + [b];
      assert q == q' + [b];
      CrcOverSnoc(c, p + q', b);
      CrcOverAppend(c, p, q');
      CrcOverSnoc(CrcOver(c, p), q', b);
    }
  }

  /** Folding the same bytes into two distinct registers keeps them distinct. */
  lemma {:induction false} CrcOverInjective(c1: bv16, c2: bv16, q: seq<Byte>)
    requires CrcOver(c1, q) == CrcOver(c2, q)
    ensures c1 == c2
    decreases |q|
  {
    if q != [] {
      var q' := q[..|q| - 1];
      UpdateByteInjectiveInRegister(CrcOver(c1, q'), CrcOver(c2, q'), q[|q| - 1]);
      CrcOverInjective(c1, c2, q');
    }
  }

  /** Changing any one byte of a frame that carries its trailer, payload or
      trailer alike, makes validation fail. */
  lemma DetectsSingleByteChange(f: Frame, k: nat, b: Byte)
    requires k < |f| + 2
    requires b != WithCrc(f)[k]
    ensures !ValidateCrc(WithCrc(f)[k := b])
  {
    var g := WithCrc(f);
    var n := |f|;
    var h := g[k := b];
    var c := Crc16(f);
    ReceivedOfCrc(c);
    if n >= 2 {
      if k < n {
        var f' := f[k := b];
        assert h[..n] == f';
        assert h[n] == g[n] && h[n + 1] == g[n + 1];
        var p := f[..k];
        var q := f[k + 1..];
        assert f == (p + [f[k]]) + q;
        assert f' == (p + [b]) + q;
        CrcOverAppend(0xFFFF, p + [f[k]], q);
        CrcOverAppend(0xFFFF, p + [b], q);
        CrcOverSnoc(0xFFFF, p, f[k]);
        CrcOverSnoc(0xFFFF, p, b);
        if Crc16(f') == c {
          CrcOverInjective(UpdateByte(CrcOver(0xFFFF, p), b), UpdateByte(CrcOver(0xFFFF, p), f[k]), q);
          UpdateByteInjectiveInByte(CrcOver(0xFFFF, p), b, f[k]);
        }
      } else {
        assert h[..n] == f;
        ReceivedDiffers(h[n], h[n + 1], g[n], g[n + 1]);
      }
    }
  }

  // ---------------------------------------------------------------------------
  // Integers on the wire
  // ---------------------------------------------------------------------------

  /** A number below 256 survives the trip through a byte unchanged. */
  lemma ByteValue(y: int)
    requires 0 <= y < 256
    ensures (y as Byte) as int == y
  {
    // Splitting on the top three bits leaves the solver eight easy cases.
    var h, l := y / 32, y % 32;
    assert y == 32 * h + l;
    assert h == 0 || h == 1 || h == 2 || h == 3 || h == 4 || h == 5 || h == 6 || h == 7;
  }

  /** The low eight bits of `x`, as `static_cast<unsigned char>(x & 0xFF)`
      keeps them (the Euclidean remainder agrees with the two's-complement mask
      for every integer). */
  function ByteOf(x: int): Byte { (x % 256) as Byte }

  /** A big-endian 16-bit register. */
  function Be16(hi: Byte, lo: Byte): int { hi as int * 256 + lo as int }

  /** What a `uint16_t` cast keeps of `x`: the representative of `x` modulo
      2^16 in [0, 2^16). */
  function Wrap16(x: int): (w: int)
    ensures 0 <= w < 0x10000 && (x - w) % 0x10000 == 0
    ensures 0 <= x < 0x10000 ==> w == x
  {
    x % 0x10000
  }

  /** The high byte of a register value: `(v >> 8) & 0xFF`. */
  function HiByte(v: int): Byte { ByteOf(v / 256) }

  /** The low byte of a register value: `v & 0xFF`. */
  function LoByte(v: int): Byte { ByteOf(v) }

  lemma ByteOfValue(x: int)
    ensures ByteOf(x) as int == x % 256
  {
    ByteValue(x % 256);
  }

  lemma DivModSplit(v: int)
    ensures v % 0x10000 == 256 * ((v / 256) % 256) + v % 256
  {
    var q, r := v / 256, v % 256;
    assert v == 256 * q + r;
    var q1, q0 := q / 256, q % 256;
    assert q == 256 * q1 + q0;
    assert v == 0x10000 * q1 + (256 * q0 + r);
    assert 0 <= 256 * q0 + r < 0x10000;
  }

  /** Splitting a value into its high and low byte and reading them back as a
      register gives the value modulo 2^16. */
  lemma Be16OfSplit(v: int)
    ensures Be16(HiByte(v), LoByte(v)) == Wrap16(v)
  {
    ByteOfValue(v / 256);
    ByteOfValue(v);
    DivModSplit(v);
  }

  // ---------------------------------------------------------------------------
  // Evaluation helpers for checksums of literal frames
  // ---------------------------------------------------------------------------

  lemma ShiftsEight(x: bv16)
    ensures Shifts(x, 8) == ShiftStep(ShiftStep(ShiftStep(ShiftStep(ShiftStep(ShiftStep(ShiftStep(ShiftStep(x))))))))
  {
    assert Shifts(x, 1) == ShiftStep(x);
    assert Shifts(x, 2) == ShiftStep(Shifts(x, 1));
    assert Shifts(x, 3) == ShiftStep(Shifts(x, 2));
    assert Shifts(x, 4) == ShiftStep(Shifts(x, 3));
    assert Shifts(x, 5) == ShiftStep(Shifts(x, 4));
    assert Shifts(x, 6) == ShiftStep(Shifts(x, 5));
    assert Shifts(x, 7) == ShiftStep(Shifts(x, 6));
  }

  /** One concrete byte step of a checksum evaluation: `r` is what the eight
      shift steps produce from `c` and `b`. */
  lemma UpdateByteIs(c: bv16, b: Byte, r: bv16)
    requires ShiftStep(ShiftStep(ShiftStep(ShiftStep(ShiftStep(ShiftStep(ShiftStep(ShiftStep(c ^ (b as bv16))))))))) == r
    ensures UpdateByte(c, b) == r
  {
    ShiftsEight(c ^ (b as bv16));
  }

  /** A frame followed by a trailer that reassembles to the frame's checksum
      validates. */
  lemma ValidateOfTrailer(d: Frame, lo: Byte, hi: Byte)
    requires |d| >= 2 && Received(lo, hi) == Crc16(d)
    ensures ValidateCrc(d + [lo, hi])
  {
    assert (d + [lo, hi])[..|d|] == d;
  }
}
