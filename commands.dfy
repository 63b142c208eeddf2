/// The command frames the controller writes: write-multiple-registers requests
/// (section 6.12 of the MODBUS Application Protocol Specification V1.1b3) that
/// carry a speed and a distance or target, the coil writes of sections 6.5 and
/// 6.11 that follow them, the speed clamps, and the targets the blocking moves
/// wait for.
module Commands {
  import opened Codec
  import opened Response

  // ---------------------------------------------------------------------------
  // Fixed frames
  // ---------------------------------------------------------------------------

  /** Read 16 holding registers from 0x9000: the position request, also sent
      as the probe that tells whether a port has the actuator behind it. */
  const ProbeFrame: Frame := [0x01, 0x03, 0x90, 0x00, 0x00, 0x10, 0x69, 0x06]

  /** Write 0x0100 into register 0x9100: starts the relative move just loaded. */
  const Trigger: Frame := [0x01, 0x10, 0x91, 0x00, 0x00, 0x01, 0x02, 0x01, 0x00, 0x27, 0x09]

  /** Coil 0x001A off. */
  const CoilOff: Frame := [0x01, 0x05, 0x00, 0x1a, 0x00, 0x00, 0xec, 0x0d]

  /** Coil 0x001A on. */
  const CoilOn: Frame := [0x01, 0x05, 0x00, 0x1a, 0xff, 0x00, 0xad, 0xfd]

  /** Coils 0x0010..0x0017 set to 0x01. */
  const CoilBlock: Frame := [0x01, 0x0f, 0x00, 0x10, 0x00, 0x08, 0x01, 0x01, 0xfe, 0x96]

  /** The coil sequence that executes an absolute move once its registers are loaded. */
  const AbsoluteTail: seq<Frame> := [CoilOff, CoilBlock, CoilOn, CoilOff]

  // ---------------------------------------------------------------------------
  // Integers on the wire
  // ---------------------------------------------------------------------------

  function Abs(x: int): nat { if x < 0 then -x else x }

  /** Four big-endian bytes (two registers) read as a signed 32-bit value. */
  function Int32BE(b: seq<Byte>): (v: int)
    requires |b| == 4
    ensures -0x8000_0000 <= v < 0x8000_0000
  {
    var u := Be16(b[0], b[1]) * 0x10000 + Be16(b[2], b[3]);
    if u >= 0x8000_0000 then u - 0x1_0000_0000 else u
  }

  // ---------------------------------------------------------------------------
  // Shapes of the requests
  // ---------------------------------------------------------------------------

  /** A write-multiple-registers request to device 1: `qty` registers from
      `start`, a byte count of twice `qty`, the values, and a valid checksum
      trailer. */
  predicate WriteRegistersRequest(f: Frame, start: int, qty: int) {
    qty >= 1 && |f| == 9 + 2 * qty &&
    f[0] == 0x01 && f[1] == 0x10 && Be16(f[2], f[3]) == start && Be16(f[4], f[5]) == qty &&
    f[6] as int == 2 * qty && ValidateCrc(f)
  }

  /** Register `k` of the values of a write-multiple-registers request. */
  function RegisterValue(f: Frame, k: nat): int
    requires 9 + 2 * k <= |f|
  {
    Be16(f[7 + 2 * k], f[8 + 2 * k])
  }

  /** A write-single-coil request to device 1 switching coil `addr`. */
  predicate WriteCoilRequest(f: Frame, addr: int, on: bool) {
    |f| == 8 && f[0] == 0x01 && f[1] == 0x05 && Be16(f[2], f[3]) == addr &&
    f[4] == (if on then 0xFF else 0x00) && f[5] == 0x00 && ValidateCrc(f)
  }

  /** A frame with its trailer keeps the bytes it was computed over. */
  lemma WithCrcAt(f: Frame, i: nat)
    requires i < |f|
    ensures WithCrc(f)[i] == f[i]
  {
    assert WithCrc(f)[..|f|] == f;
  }

  /** A register-write body of the right shape becomes, with its trailer, a
      well-formed request whose registers are the body's values. */
  lemma RequestOfBody(body: Frame, start: int, qty: int)
    requires qty >= 1 && |body| == 7 + 2 * qty
    requires body[0] == 0x01 && body[1] == 0x10 && Be16(body[2], body[3]) == start
    requires Be16(body[4], body[5]) == qty && body[6] as int == 2 * qty
    ensures WriteRegistersRequest(WithCrc(body), start, qty)
    ensures forall k: nat | k < qty :: RegisterValue(WithCrc(body), k) == Be16(body[7 + 2 * k], body[8 + 2 * k])
  {
    var f := WithCrc(body);
    ValidateWithCrc(body);
    assert f[..|body|] == body;
    forall k: nat | k < qty
      ensures RegisterValue(f, k) == Be16(body[7 + 2 * k], body[8 + 2 * k])
    {
      WithCrcAt(body, 7 + 2 * k);
      WithCrcAt(body, 8 + 2 * k);
    }
  }

  // ---------------------------------------------------------------------------
  // Checksums of the fixed frames
  // ---------------------------------------------------------------------------

  /** The checksum of the position request, and the request carries it. */
  lemma ProbeCrc()
    ensures Crc16([0x01, 0x03, 0x90, 0x00, 0x00, 0x10]) == 0x0669
  {
    var d0: Frame := [];
    UpdateByteIs(0xffff, 0x01, 0x807e);
    CrcOverSnoc(0xffff, d0, 0x01);
    var d1 := d0 + [0x01];
    UpdateByteIs(0x807e, 0x03, 0x2140);
    CrcOverSnoc(0xffff, d1, 0x03);
    var d2 := d1 + [0x03];
    UpdateByteIs(0x2140, 0x90, 0x9c20);
    CrcOverSnoc(0xffff, d2, 0x90);
    var d3 := d2 + [0x90];
    UpdateByteIs(0x9c20, 0x00, 0xd89d);
    CrcOverSnoc(0xffff, d3, 0x00);
    var d4 := d3 + [0x00];
    UpdateByteIs(0xd89d, 0x00, 0xa919);
    CrcOverSnoc(0xffff, d4, 0x00);
    var d5 := d4 + [0x00];
    UpdateByteIs(0xa919, 0x10, 0x0669);
    CrcOverSnoc(0xffff, d5, 0x10);
    var d6 := d5 + [0x10];
    assert d6 == [0x01, 0x03, 0x90, 0x00, 0x00, 0x10];
  }

  lemma ProbeChecked()
    ensures ValidateCrc(ProbeFrame)
  {
    ProbeCrc();
    assert Received(0x69, 0x06) == 0x0669;
    assert ProbeFrame == [0x01, 0x03, 0x90, 0x00, 0x00, 0x10] + [0x69, 0x06];
    ValidateOfTrailer([0x01, 0x03, 0x90, 0x00, 0x00, 0x10], 0x69, 0x06);
  }

  /** The checksum of the start-motion trigger, and the trigger carries it. */
  lemma TriggerCrc()
    ensures Crc16([0x01, 0x10, 0x91, 0x00, 0x00, 0x01, 0x02, 0x01, 0x00]) == 0x0927
  {
    var d0: Frame := [];
    UpdateByteIs(0xffff, 0x01, 0x807e);
    CrcOverSnoc(0xffff, d0, 0x01);
    var d1 := d0 + [0x01];
    UpdateByteIs(0x807e, 0x10, 0xec01);
    CrcOverSnoc(0xffff, d1, 0x10);
    var d2 := d1 + [0x10];
    UpdateByteIs(0xec01, 0x91, 0x6cec);
    CrcOverSnoc(0xffff, d2, 0x91);
    var d3 := d2 + [0x91];
    UpdateByteIs(0x6cec, 0x00, 0x8d6d);
    CrcOverSnoc(0xffff, d3, 0x00);
    var d4 := d3 + [0x00];
    UpdateByteIs(0x8d6d, 0x00, 0xed4c);
    CrcOverSnoc(0xffff, d4, 0x00);
    var d5 := d4 + [0x00];
    UpdateByteIs(0xed4c, 0x01, 0x352d);
    CrcOverSnoc(0xffff, d5, 0x01);
    var d6 := d5 + [0x01];
    UpdateByteIs(0x352d, 0x02, 0xdc74);
    CrcOverSnoc(0xffff, d6, 0x02);
    var d7 := d6 + [0x02];
    UpdateByteIs(0xdc74, 0x01, 0xe71d);
    CrcOverSnoc(0xffff, d7, 0x01);
    var d8 := d7 + [0x01];
    UpdateByteIs(0xe71d, 0x00, 0x0927);
    CrcOverSnoc(0xffff, d8, 0x00);
    var d9 := d8 + [0x00];
    assert d9 == [0x01, 0x10, 0x91, 0x00, 0x00, 0x01, 0x02, 0x01, 0x00];
  }

  lemma TriggerChecked()
    ensures ValidateCrc(Trigger)
  {
    TriggerCrc();
    assert Received(0x27, 0x09) == 0x0927;
    assert Trigger == [0x01, 0x10, 0x91, 0x00, 0x00, 0x01, 0x02, 0x01, 0x00] + [0x27, 0x09];
    ValidateOfTrailer([0x01, 0x10, 0x91, 0x00, 0x00, 0x01, 0x02, 0x01, 0x00], 0x27, 0x09);
  }

  /** The checksum of coil 0x001A off, and the frame carries it. */
  lemma CoilOffCrc()
    ensures Crc16([0x01, 0x05, 0x00, 0x1a, 0x00, 0x00]) == 0x0dec
  {
    var d0: Frame := [];
    UpdateByteIs(0xffff, 0x01, 0x807e);
    CrcOverSnoc(0xffff, d0, 0x01);
    var d1 := d0 + [0x01];
    UpdateByteIs(0x807e, 0x05, 0x23c0);
    CrcOverSnoc(0xffff, d1, 0x05);
    var d2 := d1 + [0x05];
    UpdateByteIs(0x23c0, 0x00, 0x5023);
    CrcOverSnoc(0xffff, d2, 0x00);
    var d3 := d2 + [0x00];
    UpdateByteIs(0x5023, 0x1a, 0x1290);
    CrcOverSnoc(0xffff, d3, 0x1a);
    var d4 := d3 + [0x1a];
    UpdateByteIs(0x1290, 0x00, 0x6c12);
    CrcOverSnoc(0xffff, d4, 0x00);
    var d5 := d4 + [0x00];
    UpdateByteIs(0x6c12, 0x00, 0x0dec);
    CrcOverSnoc(0xffff, d5, 0x00);
    var d6 := d5 + [0x00];
    assert d6 == [0x01, 0x05, 0x00, 0x1a, 0x00, 0x00];
  }

  lemma CoilOffChecked()
    ensures ValidateCrc(CoilOff)
  {
    CoilOffCrc();
    assert Received(0xec, 0x0d) == 0x0dec;
    assert CoilOff == [0x01, 0x05, 0x00, 0x1a, 0x00, 0x00] + [0xec, 0x0d];
    ValidateOfTrailer([0x01, 0x05, 0x00, 0x1a, 0x00, 0x00], 0xec, 0x0d);
  }

  /** The checksum of coil 0x001A on, and the frame carries it. */
  lemma CoilOnCrc()
    ensures Crc16([0x01, 0x05, 0x00, 0x1a, 0xff, 0x00]) == 0xfdad
  {
    var d0: Frame := [];
    UpdateByteIs(0xffff, 0x01, 0x807e);
    CrcOverSnoc(0xffff, d0, 0x01);
    var d1 := d0 + [0x01];
    UpdateByteIs(0x807e, 0x05, 0x23c0);
    CrcOverSnoc(0xffff, d1, 0x05);
    var d2 := d1 + [0x05];
    UpdateByteIs(0x23c0, 0x00, 0x5023);
    CrcOverSnoc(0xffff, d2, 0x00);
    var d3 := d2 + [0x00];
    UpdateByteIs(0x5023, 0x1a, 0x1290);
    CrcOverSnoc(0xffff, d3, 0x1a);
    var d4 := d3 + [0x1a];
    UpdateByteIs(0x1290, 0xff, 0x2c52);
    CrcOverSnoc(0xffff, d4, 0xff);
    var d5 := d4 + [0xff];
    UpdateByteIs(0x2c52, 0x00, 0xfdad);
    CrcOverSnoc(0xffff, d5, 0x00);
    var d6 := d5 + [0x00];
    assert d6 == [0x01, 0x05, 0x00, 0x1a, 0xff, 0x00];
  }

  lemma CoilOnChecked()
    ensures ValidateCrc(CoilOn)
  {
    CoilOnCrc();
    assert Received(0xad, 0xfd) == 0xfdad;
    assert CoilOn == [0x01, 0x05, 0x00, 0x1a, 0xff, 0x00] + [0xad, 0xfd];
    ValidateOfTrailer([0x01, 0x05, 0x00, 0x1a, 0xff, 0x00], 0xad, 0xfd);
  }

  /** The checksum of the eight-coil write, and the frame carries it. */
  lemma CoilBlockCrc()
    ensures Crc16([0x01, 0x0f, 0x00, 0x10, 0x00, 0x08, 0x01, 0x01]) == 0x96fe
  {
    var d0: Frame := [];
    UpdateByteIs(0xffff, 0x01, 0x807e);
    CrcOverSnoc(0xffff, d0, 0x01);
    var d1 := d0 + [0x01];
    UpdateByteIs(0x807e, 0x0f, 0x2440);
    CrcOverSnoc(0xffff, d1, 0x0f);
    var d2 := d1 + [0x0f];
    UpdateByteIs(0x2440, 0x00, 0xf025);
    CrcOverSnoc(0xffff, d2, 0x00);
    var d3 := d2 + [0x00];
    UpdateByteIs(0xf025, 0x10, 0x1730);
    CrcOverSnoc(0xffff, d3, 0x10);
    var d4 := d3 + [0x10];
    UpdateByteIs(0x1730, 0x00, 0x1417);
    CrcOverSnoc(0xffff, d4, 0x00);
    var d5 := d4 + [0x00];
    UpdateByteIs(0x1417, 0x08, 0xc855);
    CrcOverSnoc(0xffff, d5, 0x08);
    var d6 := d5 + [0x08];
    UpdateByteIs(0xc855, 0x01, 0xffc9);
    CrcOverSnoc(0xffff, d6, 0x01);
    var d7 := d6 + [0x01];
    UpdateByteIs(0xffc9, 0x01, 0x96fe);
    CrcOverSnoc(0xffff, d7, 0x01);
    var d8 := d7 + [0x01];
    assert d8 == [0x01, 0x0f, 0x00, 0x10, 0x00, 0x08, 0x01, 0x01];
  }

  lemma CoilBlockChecked()
    ensures ValidateCrc(CoilBlock)
  {
    CoilBlockCrc();
    assert Received(0xfe, 0x96) == 0x96fe;
    assert CoilBlock == [0x01, 0x0f, 0x00, 0x10, 0x00, 0x08, 0x01, 0x01] + [0xfe, 0x96];
    ValidateOfTrailer([0x01, 0x0f, 0x00, 0x10, 0x00, 0x08, 0x01, 0x01], 0xfe, 0x96);
  }
  // ---------------------------------------------------------------------------
  // Speeds
  // ---------------------------------------------------------------------------

  /** The speed of a plain relative move: clamped into [1, 30]. */
  function RelativeSpeed(s: int): (r: int)
    ensures 1 <= r <= 30
    ensures 1 <= s <= 30 ==> r == s
  {
    if s < 1 then 1 else if s > 30 then 30 else s
  }

  /** The clamp picks the admissible speed nearest to the one asked for. */
  lemma RelativeSpeedNearest(s: int, t: int)
    requires 1 <= t <= 30
    ensures Abs(RelativeSpeed(s) - s) <= Abs(t - s)
  {
  }

  /** The speed of an absolute or blocking move: raised to at least 1, never
      lowered. */
  function MinSpeed(s: int): (r: int)
    ensures r >= 1 && r >= s
    ensures s >= 1 ==> r == s
    ensures s < 1 ==> r == 1
  {
    if s < 1 then 1 else s
  }

  /** Clamping an already clamped speed changes nothing. */
  lemma MinSpeedIdempotent(s: int)
    ensures MinSpeed(MinSpeed(s)) == MinSpeed(s)
  {
  }

  // ---------------------------------------------------------------------------
  // Relative moves
  // ---------------------------------------------------------------------------

  /** The first nine bytes of a relative move: a write of sixteen registers
      (32 data bytes) from 0x9102, and the high byte of its first register. */
  const RelativeHead: Frame := [0x01, 0x10, 0x91, 0x02, 0x00, 0x10, 0x20, 0x00, 0x02]

  /** The last 24 bytes of a relative move: registers 7 to 15, fixed. */
  const RelativeRest: Frame :=
    [0x03, 0xe8, 0x03, 0xe8, 0x00, 0x00, 0x00, 0x00, 0x00, 0x01, 0x00, 0x64,
     0x00, 0x00, 0x00, 0x00, 0x00, 0x00, 0x00, 0x00, 0x00, 0x00, 0x00, 0x32]

  /** The 39-byte body loading a relative move: sixteen registers from 0x9102,
      the speed in register 1 (bytes 9-10), and the distance `m * 100` in
      registers 2-3 (bytes 11-14) as sign bytes 00 00 for a positive move or
      FF FF otherwise, followed by the low 16 bits of `m * 100`. */
  function RelativeBody(spd: int, m: int): (body: Frame)
    ensures |body| == 39
  {
    var w := Wrap16(m * 100);
    var sign: Byte := if m > 0 then 0x00 else 0xFF;
    RelativeHead + [HiByte(spd), LoByte(spd), sign, sign, HiByte(w), LoByte(w)] + RelativeRest
  }

  /** The frames a relative move writes, in order: the loaded body with its
      trailer, the trigger, and for a move that is not positive the coil-off
      tail. */
  function RelativeFrames(spd: int, m: int): (fs: seq<Frame>)
    ensures |fs| == (if m > 0 then 2 else 3)
    ensures fs[1] == Trigger && (m <= 0 ==> fs[2] == CoilOff)
  {
    var cmd := WithCrc(RelativeBody(spd, m));
    if m > 0 then [cmd, Trigger] else [cmd, Trigger, CoilOff]
  }

  /** The fields of the relative body, register by register. */
  lemma RelativeBodyFields(spd: int, m: int)
    ensures var b := RelativeBody(spd, m);
      b[0] == 0x01 && b[1] == 0x10 && Be16(b[2], b[3]) == 0x9102 &&
      Be16(b[4], b[5]) == 16 && b[6] as int == 32 &&
      Be16(b[7], b[8]) == 2 &&
      Be16(b[9], b[10]) == Wrap16(spd) &&
      Be16(b[11], b[12]) == (if m > 0 then 0 else 0xFFFF) &&
      Be16(b[13], b[14]) == Wrap16(m * 100)
  {
    var b := RelativeBody(spd, m);
    var w := Wrap16(m * 100);
    var sign: Byte := if m > 0 then 0x00 else 0xFF;
    var mid: Frame := [HiByte(spd), LoByte(spd), sign, sign, HiByte(w), LoByte(w)];
    assert b == RelativeHead + mid + RelativeRest;
    forall i | 0 <= i < 9 ensures b[i] == RelativeHead[i] { }
    forall i | 0 <= i < 6 ensures b[9 + i] == mid[i] { }
    Be16OfSplit(spd);
    Be16OfSplit(w);
  }

  /** Layout of a relative move: a checked sixteen-register write from 0x9102
      carrying the speed and the distance modulo 2^16 with the move's sign,
      then the trigger writing 0x0100 to 0x9100, then the tail only when the
      move is negative. */
  lemma RelativeFramesLayout(spd: int, m: int)
    requires m != 0
    ensures var fs := RelativeFrames(spd, m);
      |fs| == (if m > 0 then 2 else 3) &&
      WriteRegistersRequest(fs[0], 0x9102, 16) &&
      RegisterValue(fs[0], 0) == 2 &&
      RegisterValue(fs[0], 1) == Wrap16(spd) &&
      RegisterValue(fs[0], 2) == (if m > 0 then 0 else 0xFFFF) &&
      RegisterValue(fs[0], 3) == Wrap16(m * 100) &&
      WriteRegistersRequest(fs[1], 0x9100, 1) && RegisterValue(fs[1], 0) == 0x0100 &&
      (m < 0 ==> WriteCoilRequest(fs[2], 0x1a, false))
  {
    var body := RelativeBody(spd, m);
    RelativeBodyFields(spd, m);
    RequestOfBody(body, 0x9102, 16);
    TriggerChecked();
    CoilOffChecked();
  }

  /** The low 16 bits of a distance in device units give it back, offset by
      2^16 when negative, exactly when it lies within 655 units. */
  lemma WrapOfDistance(m: int)
    requires m != 0
    ensures m > 0 ==> (Wrap16(m * 100) == m * 100 <==> m <= 655)
    ensures m < 0 ==> (Wrap16(m * 100) - 0x10000 == m * 100 <==> m >= -655)
  {
    var w := Wrap16(m * 100);
    if m > 655 {
      assert m * 100 >= 65600;
    } else if m < -655 {
      assert m * 100 <= -65600;
      assert w - 0x10000 != m * 100;
    } else if m < 0 {
      assert w == m * 100 + 0x10000;
    }
  }

  /** Two registers whose high register is 0x0000 or 0xFFFF: the signed
      32-bit value is the low register, offset by 2^16 in the second case. */
  lemma Int32OfSignedPair(d: seq<Byte>)
    requires |d| == 4 && (Be16(d[0], d[1]) == 0 || Be16(d[0], d[1]) == 0xFFFF)
    ensures Int32BE(d) == if Be16(d[0], d[1]) == 0 then Be16(d[2], d[3]) else Be16(d[2], d[3]) - 0x10000
  {
  }

  /** The two distance registers hold `m * 100` as a signed 32-bit value
      exactly when the move is at most 655 units either way; beyond that only
      its low 16 bits arrive. */
  lemma RelativeDistanceExact(spd: int, m: int)
    requires m != 0
    ensures Int32BE(RelativeBody(spd, m)[11..15]) == m * 100 <==> -655 <= m <= 655
  {
    var b := RelativeBody(spd, m);
    RelativeBodyFields(spd, m);
    var d := b[11..15];
    assert d[0] == b[11] && d[1] == b[12] && d[2] == b[13] && d[3] == b[14];
    Int32OfSignedPair(d);
    WrapOfDistance(m);
  }

  // ---------------------------------------------------------------------------
  // Absolute moves
  // ---------------------------------------------------------------------------

  /** The target in device units: `position * 100` clamped into [0, 0xFFFF]. */
  function ScaledTarget(p: int): (s: int)
    ensures 0 <= s <= 0xFFFF
    ensures 0 <= p * 100 <= 0xFFFF ==> s == p * 100
    ensures p * 100 < 0 ==> s == 0
    ensures p * 100 > 0xFFFF ==> s == 0xFFFF
  {
    var scaled := p * 100;
    if scaled < 0 then 0 else if scaled > 0xFFFF then 0xFFFF else scaled
  }

  /** Load the speed into register 0x0411. */
  function SpeedBody(spd: int): Frame {
    [0x01, 0x10, 0x04, 0x11, 0x00, 0x01, 0x02, HiByte(spd), LoByte(spd)]
  }

  /** Load the target into registers 0x0412-0x0413, high register zero. */
  function PositionBody(scaled: int): Frame {
    [0x01, 0x10, 0x04, 0x12, 0x00, 0x02, 0x04, 0x00, 0x00, HiByte(scaled), LoByte(scaled)]
  }

  /** The frames an absolute move writes, in order. */
  function AbsoluteFrames(spd: int, scaled: int): (fs: seq<Frame>)
    ensures |fs| == 6 && fs[2..] == AbsoluteTail
  {
    [WithCrc(SpeedBody(spd)), WithCrc(PositionBody(scaled))] + AbsoluteTail
  }

  /** The speed frame: one register at 0x0411 holding the speed modulo 2^16. */
  lemma SpeedFrameLayout(spd: int)
    ensures var f := WithCrc(SpeedBody(spd));
      WriteRegistersRequest(f, 0x0411, 1) && RegisterValue(f, 0) == Wrap16(spd)
  {
    var b := SpeedBody(spd);
    assert b[0] == 0x01 && b[1] == 0x10 && b[2] == 0x04 && b[3] == 0x11;
    assert b[4] == 0x00 && b[5] == 0x01 && b[6] == 0x02;
    assert b[7] == HiByte(spd) && b[8] == LoByte(spd);
    Be16OfSplit(spd);
    RequestOfBody(b, 0x0411, 1);
  }

  /** The target frame: registers 0x0412-0x0413 holding a target in
      [0, 0xFFFF] as a 32-bit value. */
  lemma PositionFrameLayout(s: int)
    requires 0 <= s <= 0xFFFF
    ensures var f := WithCrc(PositionBody(s));
      WriteRegistersRequest(f, 0x0412, 2) && Int32BE(f[7..11]) == s
  {
    var b := PositionBody(s);
    assert b[0] == 0x01 && b[1] == 0x10 && b[2] == 0x04 && b[3] == 0x12;
    assert b[4] == 0x00 && b[5] == 0x02 && b[6] == 0x04;
    assert b[7] == 0x00 && b[8] == 0x00 && b[9] == HiByte(s) && b[10] == LoByte(s);
    Be16OfSplit(s);
    RequestOfBody(b, 0x0412, 2);
    var f := WithCrc(b);
    assert RegisterValue(f, 0) == Be16(b[7], b[8]) && RegisterValue(f, 1) == Be16(b[9], b[10]);
    TargetOfRegisters(f, s);
  }

  /** A high register of zero and a low register holding `s` read as the
      32-bit value `s`. */
  lemma TargetOfRegisters(f: Frame, s: int)
    requires |f| >= 11 && 0 <= s <= 0xFFFF
    requires RegisterValue(f, 0) == 0 && RegisterValue(f, 1) == s
    ensures Int32BE(f[7..11]) == s
  {
    var d := f[7..11];
    assert d[0] == f[7] && d[1] == f[8] && d[2] == f[9] && d[3] == f[10];
  }

  /** The coil sequence: 0x001A off, the eight-coil write, 0x001A on, 0x001A
      off, each with a valid checksum. */
  lemma AbsoluteTailLayout()
    ensures |AbsoluteTail| == 4
    ensures WriteCoilRequest(AbsoluteTail[0], 0x1a, false) && WriteCoilRequest(AbsoluteTail[2], 0x1a, true)
    ensures WriteCoilRequest(AbsoluteTail[3], 0x1a, false)
    ensures forall i | 0 <= i < 4 :: ValidateCrc(AbsoluteTail[i])
  {
    CoilOffChecked();
    CoilOnChecked();
    CoilBlockChecked();
  }

  /** Layout of an absolute move: the speed register, the two target registers
      holding the scaled target, then the coil sequence; every frame carries a
      valid checksum. */
  lemma AbsoluteFramesLayout(spd: int, p: int)
    ensures var fs := AbsoluteFrames(spd, ScaledTarget(p));
      |fs| == 6 &&
      WriteRegistersRequest(fs[0], 0x0411, 1) && RegisterValue(fs[0], 0) == Wrap16(spd) &&
      WriteRegistersRequest(fs[1], 0x0412, 2) && Int32BE(fs[1][7..11]) == ScaledTarget(p) &&
      fs[2..] == AbsoluteTail &&
      forall i | 0 <= i < |fs| :: ValidateCrc(fs[i])
  {
    var s := ScaledTarget(p);
    SpeedFrameLayout(spd);
    PositionFrameLayout(s);
    AbsoluteFramesOf(WithCrc(SpeedBody(spd)), WithCrc(PositionBody(s)), AbsoluteFrames(spd, s));
  }

  /** Two checked frames followed by the coil sequence are six checked
      frames. */
  lemma AbsoluteFramesOf(f0: Frame, f1: Frame, fs: seq<Frame>)
    requires fs == [f0, f1] + AbsoluteTail
    requires ValidateCrc(f0) && ValidateCrc(f1)
    ensures |fs| == 6 && fs[0] == f0 && fs[1] == f1 && fs[2..] == AbsoluteTail
    ensures forall i | 0 <= i < |fs| :: ValidateCrc(fs[i])
  {
    AbsoluteTailLayout();
    forall i | 2 <= i < |fs| ensures ValidateCrc(fs[i]) {
      assert fs[i] == AbsoluteTail[i - 2];
    }
  }

  /** The value an absolute blocking move waits for: the scaled target
      rounded back to external units. */
  function ExpectedAbsolute(p: int): (e: int)
    ensures 0 <= e <= 655
  {
    (ScaledTarget(p) + 50) / 100
  }

  /** The expected value is the requested position clamped into the range
      the 16-bit target register can express. */
  lemma ExpectedAbsoluteIsClamp(p: int)
    ensures ExpectedAbsolute(p) == if p < 0 then 0 else if p > 655 then 655 else p
  {
  }

  /** A device that reaches the loaded target register reads back, through
      the position decode, as exactly the expected value. */
  lemma ExpectedAbsoluteIsDecodedTarget(p: int)
    ensures RoundToUnits(ScaledTarget(p)) == ExpectedAbsolute(p)
  {
  }

  // ---------------------------------------------------------------------------
  // Relative blocking moves
  // ---------------------------------------------------------------------------

  /** The value a relative blocking move waits for: the start position moved
      by `m`, never below zero. */
  function ExpectedRelative(start: int, m: int): (e: int)
    ensures e >= 0 && e >= start + m
    ensures start + m >= 0 ==> e == start + m
    ensures start + m < 0 ==> e == 0
  {
    if start + m > 0 then start + m else 0
  }
}
