/// Decoding of the device's answers: the read-holding-registers response of
/// section 6.3 of the MODBUS Application Protocol Specification V1.1b3, and the
/// actuator position carried in it.
module Response {
  import opened Codec

  // ---------------------------------------------------------------------------
  // Reading one response off the link
  // ---------------------------------------------------------------------------

  /** A read-holding-registers response: address, function code, byte count,
      then exactly byteCount + 2 more bytes (the data and the checksum trailer). */
  predicate IsResponseFrame(f: Frame) {
    |f| >= 3 && |f| == 5 + f[2] as int
  }

  /** Reads one response from the finite sequence of bytes the link delivers:
      the 3-byte header first, then exactly byteCount + 2 more bytes. Running out
      of bytes in either read is a failed read. On success the frame and the
      bytes left unread are returned. */
  function ReadModbusResponse(input: seq<Byte>): (r: Option<(Frame, seq<Byte>)>)
    ensures r.Some? <==> |input| >= 3 && |input| >= 5 + input[2] as int
    ensures r.Some? ==> IsResponseFrame(r.value.0) && r.value.0 + r.value.1 == input
  {
    if |input| < 3 then None
    else
      var n := 5 + input[2] as int;
      if |input| < n then None else Some((input[..n], input[n..]))
  }

  /** A whole response followed by anything is read back as exactly that
      response, the rest left unread. */
  lemma ReadResponseOfFrame(f: Frame, rest: seq<Byte>)
    requires IsResponseFrame(f)
    ensures ReadModbusResponse(f + rest) == Some((f, rest))
  {
    var input := f + rest;
    assert input[2] == f[2];
    assert input[..|f|] == f && input[|f|..] == rest;
  }

  // ---------------------------------------------------------------------------
  // The position register
  // ---------------------------------------------------------------------------

  /** A big-endian 16-bit register read as a two's-complement signed value. */
  function Int16BE(hi: Byte, lo: Byte): (v: int)
    ensures -0x8000 <= v < 0x8000
  {
    var u := Be16(hi, lo);
    if u >= 0x8000 then u - 0x10000 else u
  }

  /** Integer division as C++ performs it: the quotient is truncated toward
      zero, so the remainder takes the sign of the dividend. */
  function TruncDiv(a: int, b: int): (q: int)
    requires b > 0
    ensures a >= 0 ==> 0 <= a - q * b < b
    ensures a < 0 ==> -b < a - q * b <= 0
  {
    if a >= 0 then a / b else -((-a) / b)
  }

  /** Device units (hundredths) to external units with the controller's
      sign-aware rounding: `(raw + 50) / 100` or `(raw - 50) / 100`, truncated.
      The result is the nearest integer, halves rounded away from zero. */
  function RoundToUnits(raw: int): (r: int)
    ensures raw >= 0 ==> 100 * r - 50 <= raw < 100 * r + 50
    ensures raw < 0 ==> 100 * r - 50 < raw <= 100 * r + 50
  {
    if raw >= 0 then TruncDiv(raw + 50, 100) else TruncDiv(raw - 50, 100)
  }

  /** Every 16-bit raw value rounds into [-328, 328]. */
  lemma RoundToUnitsRange(raw: int)
    requires -0x8000 <= raw < 0x8000
    ensures -328 <= RoundToUnits(raw) <= 328
  {
  }

  /** Rounding is symmetric about zero. */
  lemma RoundToUnitsOdd(raw: int)
    ensures RoundToUnits(-raw) == -RoundToUnits(raw)
  {
    var r := RoundToUnits(raw);
    var s := RoundToUnits(-raw);
    if raw > 0 {
      assert 100 * s - 50 < -raw <= 100 * s + 50;
    } else if raw < 0 {
      assert 100 * r - 50 < raw <= 100 * r + 50;
    }
  }

  lemma RoundToUnitsExamples()
    ensures RoundToUnits(150) == 2 && RoundToUnits(-150) == -2
    ensures RoundToUnits(49) == 0 && RoundToUnits(-49) == 0
    ensures RoundToUnits(50) == 1 && RoundToUnits(-50) == -1
  {
  }

  /** The position decode of a received response: 0 when it is shorter than
      five bytes or its checksum does not match, otherwise bytes 5 and 6 as a
      signed big-endian register rounded to external units (0 again if the
      frame stops before byte 6). */
  function DecodePosition(rx: Frame): (p: int)
    ensures -328 <= p <= 328
    ensures (|rx| < 7 || !ValidateCrc(rx)) ==> p == 0
  {
    if |rx| < 5 then 0
    else if !CrcMatches(rx) then 0
    else if |rx| >= 7 then
      var raw := Int16BE(rx[5], rx[6]);
      RoundToUnitsRange(raw);
      RoundToUnits(raw)
    else 0
  }

  /** The value a position read yields for the bytes the link delivers after
      the request: a failed read yields 0 as well. */
  function PositionOf(reply: seq<Byte>): (p: int)
    ensures -328 <= p <= 328
  {
    match ReadModbusResponse(reply)
    case None => 0
    case Some((rx, _)) => DecodePosition(rx)
  }

  /** A read that fails because the device sent too few bytes yields 0. */
  lemma PositionOfFailedRead(reply: seq<Byte>)
    requires ReadModbusResponse(reply).None?
    ensures PositionOf(reply) == 0
  {
  }

  // ---------------------------------------------------------------------------
  // The inverse: what a device at a given position answers
  // ---------------------------------------------------------------------------

  /** The response of a device standing at external position `p`, before its
      trailer: two registers holding `p * 100` as a signed 32-bit value, so
      that bytes 5 and 6 carry its low 16 bits. */
  function ReplyBody(p: int): (body: Frame)
    requires -327 <= p <= 327
    ensures |body| == 7 && body[2] == 0x04
    ensures Int16BE(body[5], body[6]) == p * 100
  {
    var raw := p * 100;
    var sign: Byte := if raw < 0 then 0xFF else 0x00;
    Int16BEOfSplit(raw);
    [0x01, 0x03, 0x04, sign, sign, HiByte(raw), LoByte(raw)]
  }

  /** The whole response of a device standing at `p`. */
  function PositionReply(p: int): (f: Frame)
    requires -327 <= p <= 327
    ensures IsResponseFrame(f) && ValidateCrc(f)
  {
    var body := ReplyBody(p);
    ValidateWithCrc(body);
    WithCrc(body)
  }

  /** Splitting a signed 16-bit value into two's-complement bytes and reading
      them back gives the value. */
  lemma Int16BEOfSplit(x: int)
    requires -0x8000 <= x < 0x8000
    ensures Int16BE(HiByte(x), LoByte(x)) == x
  {
    Be16OfSplit(x);
    SignedOfWrap(x);
  }

  /** The two's-complement reading of the low 16 bits of a signed 16-bit
      value is that value. */
  lemma SignedOfWrap(x: int)
    requires -0x8000 <= x < 0x8000
    ensures var u := Wrap16(x); (if u >= 0x8000 then u - 0x10000 else u) == x
  {
    if x < 0 {
      assert (x + 0x10000) % 0x10000 == x % 0x10000;
    }
  }

  /** A whole number of external units survives the rounding unchanged. */
  lemma RoundToUnitsOfMultiple(p: int)
    ensures RoundToUnits(p * 100) == p
  {
  }

  /** Bytes 5 and 6 of the response carry the low 16 bits of `p * 100`. */
  lemma PositionReplyRegister(p: int)
    requires -327 <= p <= 327
    ensures var f := PositionReply(p);
      |f| == 9 && Int16BE(f[5], f[6]) == p * 100
  {
    var body := ReplyBody(p);
    var f := WithCrc(body);
    assert f[..7] == body;
    assert f[5] == body[5] && f[6] == body[6];
  }

  /** The decode of a checked frame of at least seven bytes is its register
      rounded to units. */
  lemma DecodeChecked(rx: Frame)
    requires |rx| >= 7 && ValidateCrc(rx)
    ensures DecodePosition(rx) == RoundToUnits(Int16BE(rx[5], rx[6]))
  {
  }

  /** Reading the response of a device at `p` gives back `p`, whatever
      follows it on the link. */
  lemma PositionReplyRoundTrip(p: int, rest: seq<Byte>)
    requires -327 <= p <= 327
    ensures PositionOf(PositionReply(p) + rest) == p
  {
    var f := PositionReply(p);
    ReadResponseOfFrame(f, rest);
    PositionReplyRegister(p);
    DecodeChecked(f);
    RoundToUnitsOfMultiple(p);
  }
}
