/// The permissive hex-literal parser used for the controller's fixed command
/// tables: hexadecimal digits are paired into bytes, every other character
/// (whitespace included) is skipped, and a trailing unpaired digit is dropped.
module Hex {
  import opened Codec

  predicate IsHexDigit(c: char) {
    '0' <= c <= '9' || 'a' <= c <= 'f' || 'A' <= c <= 'F'
  }

  /** A four-bit value. */
  type Nibble = x: nat | x < 16

  /** The value of one hexadecimal digit, either case. */
  function HexValue(c: char): Nibble
    requires IsHexDigit(c)
  {
    if '0' <= c <= '9' then c as int - '0' as int
    else if 'a' <= c <= 'f' then 10 + (c as int - 'a' as int)
    else 10 + (c as int - 'A' as int)
  }

  /** The values of the hex digits of `s`, in order, all other characters skipped. */
  function HexDigits(s: string): seq<Nibble>
    decreases |s|
  {
    if s == [] then []
    else
      var last := s[|s| - 1];
      HexDigits(s[..|s| - 1]) + (if IsHexDigit(last) then [HexValue(last)] else [])
  }

  /** The byte with high nibble `hi` and low nibble `lo` (`(hi << 4) | lo`). */
  function Pack(hi: Nibble, lo: Nibble): Byte { (16 * hi + lo) as Byte }

  /** Consecutive digit pairs as bytes: digit 2k is the high nibble of byte
      k, digit 2k+1 its low nibble; an unpaired last digit is dropped. */
  function PairUp(d: seq<Nibble>): Frame {
    seq(|d| / 2, k requires 0 <= k < |d| / 2 => Pack(d[2 * k], d[2 * k + 1]))
  }

  /** The bytes a hex literal denotes. */
  function HexBytes(s: string): Frame {
    PairUp(HexDigits(s))
  }

  lemma HexDigitsSnoc(s: string, c: char)
    ensures HexDigits(s + [c]) == HexDigits(s) + (if IsHexDigit(c) then [HexValue(c)] else [])
  {
    assert (s + [c])[..|s|] == s;
  }

  /** A digit completing no pair adds no byte. */
  lemma PairUpEven(d: seq<Nibble>, x: Nibble)
    requires |d| % 2 == 0
    ensures PairUp(d + [x]) == PairUp(d)
  {
    var e := d + [x];
    assert |e| / 2 == |d| / 2;
    forall k | 0 <= k < |d| / 2
      ensures PairUp(e)[k] == PairUp(d)[k]
    {
      assert e[2 * k] == d[2 * k] && e[2 * k + 1] == d[2 * k + 1];
    }
  }

  /** A digit completing a pair adds the byte of that pair. */
  lemma PairUpOdd(d: seq<Nibble>, x: Nibble)
    requires |d| % 2 == 1
    ensures PairUp(d + [x]) == PairUp(d) + [Pack(d[|d| - 1], x)]
  {
    var e := d + [x];
    assert |e| / 2 == |d| / 2 + 1;
    forall k | 0 <= k < |d| / 2
      ensures PairUp(e)[k] == PairUp(d)[k]
    {
      assert e[2 * k] == d[2 * k] && e[2 * k + 1] == d[2 * k + 1];
    }
    var k := |d| / 2;
    assert 2 * k == |d| - 1 && 2 * k + 1 == |d|;
    assert PairUp(e)[k] == Pack(d[|d| - 1], x);
  }

  /** The parser as the controller runs it: a character loop carrying the
      pending high nibble (`-1` when there is none). */
  method HexToBytes(hex: string) returns (out: Frame)
    ensures out == HexBytes(hex)
  {
    out := [];
    var hi: int := -1;
    ghost var d: seq<Nibble> := [];
    for i := 0 to |hex|
      invariant d == HexDigits(hex[..i])
      invariant out == PairUp(d)
      invariant if |d| % 2 == 0 then hi == -1 else hi == d[|d| - 1]
    {
      var c := hex[i];
      assert hex[..i + 1] == hex[..i] + [c];
      HexDigitsSnoc(hex[..i], c);
      if c == ' ' || c == '\t' || c == '\r' || c == '\n' {
        continue;
      }
      var v: Nibble;
      if '0' <= c <= '9' {
        v := c as int - '0' as int;
      } else if 'a' <= c <= 'f' {
        v := 10 + (c as int - 'a' as int);
      } else if 'A' <= c <= 'F' {
        v := 10 + (c as int - 'A' as int);
      } else {
        continue;
      }
      if hi < 0 {
        PairUpEven(d, v);
        hi := v;
      } else {
        PairUpOdd(d, v);
        out := out + [Pack(hi, v)];
        hi := -1;
      }
      d := d + [v];
    }
    assert hex[..|hex|] == hex;
  }

  // ---------------------------------------------------------------------------
  // Properties of the parse
  // ---------------------------------------------------------------------------

  lemma {:induction false} HexDigitsAppend(a: string, b: string)
    ensures HexDigits(a + b) == HexDigits(a) + HexDigits(b)
    decreases |b|
  {
    if b == [] {
      assert a + b == a;
    } else {
      var b' := b[..|b| - 1];
      assert a + b == (a + b') + [b[|b| - 1]];
      assert (a + b)[..|a + b| - 1] == a + b';
      HexDigitsAppend(a, b');
    }
  }

  /** Inserting a character that is not a hex digit anywhere in a literal
      (a separator, a line break, punctuation) does not change its bytes. */
  lemma HexBytesIgnoresNonDigit(a: string, c: char, b: string)
    requires !IsHexDigit(c)
    ensures HexBytes(a + [c] + b) == HexBytes(a + b)
  {
    HexDigitsAppend(a + [c], b);
    HexDigitsAppend(a, [c]);
    HexDigitsAppend(a, b);
    assert HexDigits([c]) == HexDigits([]) + [];
  }

  /** A digit left without a partner at the end is dropped. */
  lemma HexBytesDropsUnpairedDigit(s: string, c: char)
    requires IsHexDigit(c) && |HexDigits(s)| % 2 == 0
    ensures HexBytes(s + [c]) == HexBytes(s) && |HexDigits(s + [c])| % 2 == 1
  {
    HexDigitsSnoc(s, c);
    PairUpEven(HexDigits(s), HexValue(c));
  }

  // ---------------------------------------------------------------------------
  // The inverse: writing bytes as a literal in the tables' own format
  // ---------------------------------------------------------------------------

  /** The lower-case digit for a nibble. */
  function HexChar(n: Nibble): (c: char)
    ensures IsHexDigit(c) && HexValue(c) == n
  {
    if n < 10 then ('0' as int + n) as char else ('a' as int + n - 10) as char
  }

  /** Two lower-case digits for one byte. */
  function ByteHex(b: Byte): string {
    [HexChar(b as int / 16), HexChar(b as int % 16)]
  }

  /** Bytes written as two-digit groups separated by single spaces, as the
      command tables spell them ("01 03 00 0e"). */
  function HexLiteral(bs: Frame): string
    decreases |bs|
  {
    if |bs| == 0 then ""
    else if |bs| == 1 then ByteHex(bs[0])
    else ByteHex(bs[0]) + " " + HexLiteral(bs[1..])
  }

  /** The nibbles of `bs`, high before low. */
  function Nibbles(bs: Frame): seq<Nibble> {
    seq(2 * |bs|, i requires 0 <= i < 2 * |bs| =>
      if i % 2 == 0 then bs[i / 2] as int / 16 else bs[i / 2] as int % 16)
  }

  lemma ByteHexDigits(b: Byte)
    ensures HexDigits(ByteHex(b)) == [b as int / 16, b as int % 16]
  {
    var s := ByteHex(b);
    assert s[..1][..0] == [];
    assert s[..|s| - 1] == s[..1];
    assert HexDigits(s[..1]) == [b as int / 16];
  }

  lemma PackOfByte(b: Byte)
    ensures Pack(b as int / 16, b as int % 16) == b
  {
  }

  lemma NibblesCons(bs: Frame)
    requires |bs| >= 1
    ensures Nibbles(bs) == [bs[0] as int / 16, bs[0] as int % 16] + Nibbles(bs[1..])
  {
    var t := bs[1..];
    forall i | 2 <= i < 2 * |bs|
      ensures Nibbles(bs)[i] == Nibbles(t)[i - 2]
    {
      assert bs[i / 2] == t[(i - 2) / 2];
    }
  }

  /** The separator contributes no digit between two groups. */
  lemma SeparatedDigits(a: string, b: string)
    ensures HexDigits(a + " " + b) == HexDigits(a) + HexDigits(b)
  {
    HexDigitsAppend(a + " ", b);
    HexDigitsSnoc(a, ' ');
  }

  lemma {:induction false} HexLiteralDigits(bs: Frame)
    ensures HexDigits(HexLiteral(bs)) == Nibbles(bs)
    decreases |bs|
  {
    if |bs| >= 1 {
      ByteHexDigits(bs[0]);
      NibblesCons(bs);
      if |bs| > 1 {
        HexLiteralDigits(bs[1..]);
        SeparatedDigits(ByteHex(bs[0]), HexLiteral(bs[1..]));
      } else {
        assert bs[1..] == [];
      }
    }
  }

  /** Pairing up the nibbles of some bytes gives those bytes back. */
  lemma PairUpNibbles(bs: Frame)
    ensures PairUp(Nibbles(bs)) == bs
  {
    var d := Nibbles(bs);
    var out := PairUp(d);
    assert |out| == |bs|;
    forall k | 0 <= k < |bs|
      ensures out[k] == bs[k]
    {
      var i, j := 2 * k, 2 * k + 1;
      assert i / 2 == k && i % 2 == 0 && j / 2 == k && j % 2 == 1;
      assert d[i] == bs[k] as int / 16 && d[j] == bs[k] as int % 16;
      PackOfByte(bs[k]);
    }
  }

  /** Parsing a literal written in the tables' format gives back its bytes. */
  lemma HexBytesOfLiteral(bs: Frame)
    ensures HexBytes(HexLiteral(bs)) == bs
  {
    HexLiteralDigits(bs);
    PairUpNibbles(bs);
  }

  /** Two literals joined by a separator are the literal of the joined bytes. */
  lemma {:induction false} HexLiteralJoin(a: Frame, b: Frame)
    requires |a| >= 1 && |b| >= 1
    ensures HexLiteral(a + b) == HexLiteral(a) + " " + HexLiteral(b)
    decreases |a|
  {
    assert (a + b)[0] == a[0];
    assert (a + b)[1..] == a[1..] + b;
    if |a| > 1 {
      HexLiteralJoin(a[1..], b);
    }
  }

  /** The first initialisation command, two groups at a time. */
  lemma InitCommandQuarters()
    ensures HexLiteral([0x01, 0x03]) == "01 03" && HexLiteral([0x00, 0x0e]) == "00 0e"
    ensures HexLiteral([0x00, 0x08]) == "00 08" && HexLiteral([0x25, 0xcf]) == "25 cf"
  {
  }

  /** How the pieces above make up the whole command and its text. */
  lemma InitCommandJoined()
    ensures "01 03" + " " + "00 0e" + " " + ("00 08" + " " + "25 cf") == "01 03 00 0e 00 08 25 cf"
    ensures var q0: Frame, q1: Frame, q2: Frame, q3: Frame := [0x01, 0x03], [0x00, 0x0e], [0x00, 0x08], [0x25, 0xcf];
      q0 + q1 + (q2 + q3) == [0x01, 0x03, 0x00, 0x0e, 0x00, 0x08, 0x25, 0xcf]
  {
  }

  /** The literal of the first initialisation command parses to the eight
      bytes it spells, beginning 0x01, 0x03. */
  lemma InitCommandLiteral()
    ensures HexBytes("01 03 00 0e 00 08 25 cf") == [0x01, 0x03, 0x00, 0x0e, 0x00, 0x08, 0x25, 0xcf]
  {
    var q0: Frame, q1: Frame := [0x01, 0x03], [0x00, 0x0e];
    var q2: Frame, q3: Frame := [0x00, 0x08], [0x25, 0xcf];
    InitCommandQuarters();
    HexLiteralJoin(q0, q1);
    HexLiteralJoin(q2, q3);
    HexLiteralJoin(q0 + q1, q2 + q3);
    InitCommandJoined();
    HexBytesOfLiteral(q0 + q1 + (q2 + q3));
  }
}
