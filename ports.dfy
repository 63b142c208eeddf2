/// Port discovery: the candidate list the controller scans, the device behind
/// each port as seen by the probe, and which port a connection attempt ends up
/// on, both as the controller is written and as it is evidently meant to work.
module Ports {
  import opened Codec
  import opened Response

  // ---------------------------------------------------------------------------
  // Decimal port numbers
  // ---------------------------------------------------------------------------

  predicate IsDigit(c: char) { '0' <= c <= '9' }

  function DigitChar(d: nat): (c: char)
    requires d < 10
    ensures IsDigit(c)
  {
    ('0' as int + d) as char
  }

  /** The decimal numeral of `n`, as `std::to_string` writes it. */
  function NatToString(n: nat): (s: string)
    ensures |s| >= 1 && forall i | 0 <= i < |s| :: IsDigit(s[i])
    ensures n >= 10 ==> |s| >= 2
    decreases n
  {
    if n < 10 then [DigitChar(n)] else NatToString(n / 10) + [DigitChar(n % 10)]
  }

  /** Distinct numbers have distinct numerals. */
  lemma {:induction false} NatToStringInjective(a: nat, b: nat)
    requires NatToString(a) == NatToString(b)
    ensures a == b
    decreases a
  {
    var s := NatToString(a);
    if a >= 10 && b >= 10 {
      assert s[|s| - 1] == DigitChar(a % 10) == DigitChar(b % 10);
      assert s[..|s| - 1] == NatToString(a / 10);
      assert NatToString(b)[..|s| - 1] == NatToString(b / 10);
      NatToStringInjective(a / 10, b / 10);
    }
  }

  // ---------------------------------------------------------------------------
  // The candidate list
  // ---------------------------------------------------------------------------

  /** `count` names `prefix` + number, numbered from `from`. */
  function Numbered(prefix: string, from: nat, count: nat): seq<string> {
    seq(count, i requires 0 <= i < count => prefix + NatToString(from + i))
  }

  /** The ports scanned, in order: COM1..COM32 on Windows; elsewhere
      /dev/ttyUSB0..9, then /dev/ttyS0..31, then /dev/tty0..63. */
  function MakePortList(windows: bool): (ports: seq<string>)
    ensures |ports| == (if windows then 32 else 106)
  {
    if windows then Numbered("COM", 1, 32)
    else Numbered("/dev/ttyUSB", 0, 10) + Numbered("/dev/ttyS", 0, 32) + Numbered("/dev/tty", 0, 64)
  }

  /** Names with a common prefix are equal only when their numbers are. */
  lemma NumberedInjective(prefix: string, a: nat, b: nat)
    requires prefix + NatToString(a) == prefix + NatToString(b)
    ensures a == b
  {
    assert (prefix + NatToString(a))[|prefix|..] == NatToString(a);
    assert (prefix + NatToString(b))[|prefix|..] == NatToString(b);
    NatToStringInjective(a, b);
  }

  /** No port is listed twice. */
  lemma NumberedDistinct(prefix: string, from: nat, count: nat)
    ensures var names := Numbered(prefix, from, count);
      forall i, j | 0 <= i < j < count :: names[i] != names[j]
  {
    var names := Numbered(prefix, from, count);
    forall i, j | 0 <= i < j < count
      ensures names[i] != names[j]
    {
      if names[i] == names[j] {
        NumberedInjective(prefix, from + i, from + j);
      }
    }
  }

  /** The candidate list has 32 entries on Windows and 106 elsewhere, no two
      alike. */
  lemma PortListDistinct(windows: bool)
    ensures var ports := MakePortList(windows);
      |ports| == (if windows then 32 else 106) &&
      forall i, j | 0 <= i < j < |ports| :: ports[i] != ports[j]
  {
    var ports := MakePortList(windows);
    if windows {
      NumberedDistinct("COM", 1, 32);
    } else {
      var usb, s, tty := Numbered("/dev/ttyUSB", 0, 10), Numbered("/dev/ttyS", 0, 32), Numbered("/dev/tty", 0, 64);
      NumberedDistinct("/dev/ttyUSB", 0, 10);
      NumberedDistinct("/dev/ttyS", 0, 32);
      NumberedDistinct("/dev/tty", 0, 64);
      forall i, j | 0 <= i < j < |ports|
        ensures ports[i] != ports[j]
      {
        if j < 10 {
          assert ports[i] == usb[i] && ports[j] == usb[j];
        } else if j < 42 {
          assert ports[j] == s[j - 10] && ports[j][8] == 'S';
          if i < 10 {
            assert ports[i] == usb[i] && ports[i][8] == 'U';
          } else {
            assert ports[i] == s[i - 10];
          }
        } else {
          var y := NatToString(j - 42);
          assert ports[j] == tty[j - 42] == "/dev/tty" + y;
          assert ports[j][8] == y[0] && IsDigit(y[0]);
          if i < 10 {
            assert ports[i] == usb[i] && ports[i][8] == 'U';
          } else if i < 42 {
            assert ports[i] == s[i - 10] && ports[i][8] == 'S';
          } else {
            assert ports[i] == tty[i - 42];
          }
        }
      }
    }
  }

  /** Every candidate names a device file. */
  lemma PortNamesNonEmpty(windows: bool)
    ensures forall n | n in MakePortList(windows) :: n != ""
  {
    var ports := MakePortList(windows);
    forall n | n in ports
      ensures n != ""
    {
      var i :| 0 <= i < |ports| && ports[i] == n;
      if windows {
        assert n == "COM" + NatToString(1 + i);
      } else if i < 10 {
        assert n == "/dev/ttyUSB" + NatToString(i);
      } else if i < 42 {
        assert n == "/dev/ttyS" + NatToString(i - 10);
      } else {
        assert n == "/dev/tty" + NatToString(i - 42);
      }
    }
  }

  /** The port tried before the scan: the requested one, or the platform's
      default when none was requested. */
  function Preferred(requested: string, windows: bool): (p: string)
    ensures p != ""
    ensures requested != "" ==> p == requested
  {
    if requested != "" then requested else if windows then "COM7" else "/dev/ttyUSB0"
  }

  /** The list's ends, and where the default ports sit in it. */
  lemma PortListEnds()
    ensures MakePortList(true)[0] == "COM1" && MakePortList(true)[31] == "COM32"
    ensures MakePortList(true)[6] == Preferred("", true)
    ensures MakePortList(false)[0] == "/dev/ttyUSB0" == Preferred("", false)
    ensures MakePortList(false)[10] == "/dev/ttyS0" && MakePortList(false)[42] == "/dev/tty0"
    ensures MakePortList(false)[105] == "/dev/tty63"
  {
    assert NatToString(32) == NatToString(3) + ['2'];
    assert NatToString(63) == NatToString(6) + ['3'];
    var l := MakePortList(false);
    var usb, s, tty := Numbered("/dev/ttyUSB", 0, 10), Numbered("/dev/ttyS", 0, 32), Numbered("/dev/tty", 0, 64);
    assert l[10] == s[0] && l[42] == tty[0] && l[105] == tty[63];
  }

  // ---------------------------------------------------------------------------
  // The device behind the ports
  // ---------------------------------------------------------------------------

  /** What each serial port has behind it: a name missing from the map cannot
      be opened; an openable port answers the probe with the bytes mapped to it
      (possibly too few, which is a failed read). */
  type Device = map<string, seq<Byte>>

  /** The port opens and its answer to the probe is a response whose checksum
      validates. */
  predicate Responds(dev: Device, name: string): (r: bool)
    ensures r ==> name in dev && |dev[name]| >= 5
  {
    name in dev &&
    var r := ReadModbusResponse(dev[name]);
    r.Some? && ValidateCrc(r.value.0)
  }

  /** Where a connection attempt ends up, and the ports it opened and probed, in
      order. */
  datatype Outcome = Outcome(port: Option<string>, probed: seq<string>)

  /** Candidate `j` is the first of `cands[s..]` that responds. */
  predicate FirstResponsive(dev: Device, cands: seq<string>, s: nat, j: nat) {
    s <= j < |cands| && Responds(dev, cands[j]) &&
    forall k | s <= k < j :: !Responds(dev, cands[k])
  }

  /** The scan from candidate `i` on. While the port is `held` open from an
      earlier attempt, the next candidate cannot be opened; it is skipped, and
      the port is closed after it. */
  function ScanFrom(dev: Device, cands: seq<string>, i: nat, held: bool): (o: Outcome)
    requires i <= |cands|
    ensures o.port.Some? ==> o.port.value in o.probed && Responds(dev, o.port.value)
    decreases |cands| - i
  {
    if i == |cands| then Outcome(None, [])
    else if held || cands[i] !in dev then ScanFrom(dev, cands, i + 1, false)
    else if Responds(dev, cands[i]) then Outcome(Some(cands[i]), [cands[i]])
    else
      var o := ScanFrom(dev, cands, i + 1, false);
      Outcome(o.port, [cands[i]] + o.probed)
  }

  /** The scan finds a port exactly when some candidate it can open responds,
      and then it is the first such candidate; it probes only ports that
      open. */
  lemma {:induction false} ScanFindsFirst(dev: Device, cands: seq<string>, i: nat, held: bool)
    requires i <= |cands|
    ensures var o, s := ScanFrom(dev, cands, i, held), if held && i < |cands| then i + 1 else i;
      (o.port.None? <==> forall k | s <= k < |cands| :: !Responds(dev, cands[k])) &&
      (o.port.Some? ==> exists j: nat :: FirstResponsive(dev, cands, s, j) && o.port.value == cands[j]) &&
      (o.port.Some? ==> o.port.value in cands) &&
      (forall n | n in o.probed :: n in dev)
    decreases |cands| - i
  {
    if i < |cands| {
      ScanFindsFirst(dev, cands, i + 1, false);
      var o := ScanFrom(dev, cands, i, held);
      if !held && cands[i] in dev && Responds(dev, cands[i]) {
        assert FirstResponsive(dev, cands, i, i);
      } else if o.port.Some? {
        var j: nat :| FirstResponsive(dev, cands, i + 1, j) && o.port.value == cands[j];
        assert FirstResponsive(dev, cands, if held then i + 1 else i, j);
      }
    }
  }

  /** The port a scan ends on is one of the candidates. */
  lemma {:induction false} ScanPicksCandidate(dev: Device, cands: seq<string>, i: nat, held: bool)
    requires i <= |cands|
    ensures var o := ScanFrom(dev, cands, i, held); o.port.Some? ==> o.port.value in cands
    decreases |cands| - i
  {
    if i < |cands| {
      ScanPicksCandidate(dev, cands, i + 1, false);
    }
  }

  /** A connection attempt as evidently intended: the preferred port first, and
      when it does not respond, a scan of every candidate with that port closed. */
  function Discover(dev: Device, pref: string, cands: seq<string>): (o: Outcome)
    ensures o.port.Some? ==> o.port.value in o.probed && Responds(dev, o.port.value)
  {
    if Responds(dev, pref) then Outcome(Some(pref), [pref])
    else
      var o := ScanFrom(dev, cands, 0, false);
      Outcome(o.port, (if pref in dev then [pref] else []) + o.probed)
  }

  /** The intended attempt connects exactly when the preferred port or some
      candidate responds: to the preferred port when it responds, otherwise
      to the first candidate that does. */
  lemma DiscoverFindsFirst(dev: Device, pref: string, cands: seq<string>)
    ensures var o := Discover(dev, pref, cands);
      (o.port.Some? <==> Responds(dev, pref) || exists k | 0 <= k < |cands| :: Responds(dev, cands[k])) &&
      (Responds(dev, pref) ==> o == Outcome(Some(pref), [pref])) &&
      (!Responds(dev, pref) && o.port.Some? ==>
        exists j: nat :: FirstResponsive(dev, cands, 0, j) && o.port.value == cands[j])
  {
    ScanFindsFirst(dev, cands, 0, false);
  }

  /** A connection attempt as the controller is written: a preferred port that
      opens but fails its probe is left open, so the scan's first candidate
      fails to open and is skipped. */
  function DiscoverAsWritten(dev: Device, pref: string, cands: seq<string>): (o: Outcome)
    ensures o.port.Some? ==> o.port.value in o.probed && Responds(dev, o.port.value)
  {
    if Responds(dev, pref) then Outcome(Some(pref), [pref])
    else
      var o := ScanFrom(dev, cands, 0, pref in dev);
      Outcome(o.port, (if pref in dev then [pref] else []) + o.probed)
  }

  /** Whatever port the written attempt ends on does respond, and it is the
      preferred port or a candidate. */
  lemma AsWrittenResponds(dev: Device, pref: string, cands: seq<string>)
    ensures var o := DiscoverAsWritten(dev, pref, cands);
      (Responds(dev, pref) ==> o == Outcome(Some(pref), [pref])) &&
      (o.port.Some? ==> Responds(dev, o.port.value) && (o.port.value == pref || o.port.value in cands))
  {
    ScanFindsFirst(dev, cands, 0, pref in dev);
  }

  // ---------------------------------------------------------------------------
  // The two compared
  // ---------------------------------------------------------------------------

  /** Holding the port open only matters when the skipped candidate would
      have responded. */
  lemma HeldScanAgrees(dev: Device, cands: seq<string>)
    requires |cands| > 0 && !Responds(dev, cands[0])
    ensures ScanFrom(dev, cands, 0, true).port == ScanFrom(dev, cands, 0, false).port
  {
  }

  /** The written and the intended attempt end on the same port unless the
      preferred port opens, fails its probe, and the first candidate responds. */
  lemma AsWrittenAgrees(dev: Device, pref: string, cands: seq<string>)
    requires pref !in dev || Responds(dev, pref) || |cands| == 0 || !Responds(dev, cands[0])
    ensures DiscoverAsWritten(dev, pref, cands).port == Discover(dev, pref, cands).port
  {
    if pref in dev && !Responds(dev, pref) && |cands| > 0 {
      HeldScanAgrees(dev, cands);
    }
  }

  /** When the preferred port opens but fails its probe and only the first
      candidate responds, the written attempt finds nothing while the intended
      one connects to that candidate. */
  lemma AsWrittenMissesFirst(dev: Device, pref: string, cands: seq<string>)
    requires pref in dev && !Responds(dev, pref)
    requires |cands| > 0 && Responds(dev, cands[0])
    requires forall k | 1 <= k < |cands| :: !Responds(dev, cands[k])
    ensures DiscoverAsWritten(dev, pref, cands).port == None
    ensures Discover(dev, pref, cands).port == Some(cands[0])
  {
    ScanFindsFirst(dev, cands, 0, false);
    ScanFindsFirst(dev, cands, 0, true);
    var o := ScanFrom(dev, cands, 0, false);
    if o.port.Some? {
      var j: nat :| FirstResponsive(dev, cands, 0, j) && o.port.value == cands[j];
      assert j == 0;
    }
  }

  /** The devices of the concrete case: the requested COM3 opens and answers
      a whole response whose checksum is wrong, and the actuator answers on
      COM1 from position 0. */
  function SkipExample(): Device {
    var f := PositionReply(0);
    map["COM3" := f[8 := f[8] ^ 1], "COM1" := f]
  }

  /** In the concrete case COM1 answers a well-formed reply, so its probe
      succeeds. */
  lemma SkipExampleCom1Responds()
    ensures Responds(SkipExample(), "COM1")
  {
    var f := PositionReply(0);
    ReadResponseOfFrame(f, []);
    assert f + [] == f;
  }

  /** In the concrete case COM3 answers a whole reply with one trailer bit
      flipped, so its probe fails on the checksum. */
  lemma SkipExampleCom3Fails()
    ensures !Responds(SkipExample(), "COM3")
  {
    var f := PositionReply(0);
    PositionReplyRegister(0);
    var bad := f[8 := f[8] ^ 1];
    DetectsSingleByteChange(ReplyBody(0), 8, f[8] ^ 1);
    assert IsResponseFrame(bad);
    ReadResponseOfFrame(bad, []);
    assert bad + [] == bad;
  }

  /** Requesting COM3 on Windows with the actuator on COM1: as written the
      attempt fails, as intended it connects on COM1. */
  lemma ConnectSkipsFirstCandidate()
    ensures var dev, ports := SkipExample(), MakePortList(true);
      DiscoverAsWritten(dev, Preferred("COM3", true), ports).port == None &&
      Discover(dev, Preferred("COM3", true), ports).port == Some("COM1")
  {
    var dev, ports := SkipExample(), MakePortList(true);
    SkipExampleCom1Responds();
    SkipExampleCom3Fails();
    PortListEnds();
    PortListDistinct(true);
    forall k | 1 <= k < |ports|
      ensures !Responds(dev, ports[k])
    {
      assert ports[k] != ports[0];
    }
    AsWrittenMissesFirst(dev, "COM3", ports);
  }
}
