/// The controller object: the link state it keeps (connected, port name, and
/// whether the serial handle is open), the frames it writes to the link, and
/// the answers it reads back. The serial device is an oracle from port name to
/// the bytes it answers the probe with; position reads take the bytes the
/// device sends as parameters.
module Controller {
  import opened Codec
  import opened Response
  import opened Commands
  import opened Ports

  /** `n` position requests. */
  function Probes(n: nat): seq<Frame> {
    seq(n, _ => ProbeFrame)
  }

  lemma ProbesSnoc(n: nat)
    ensures Probes(n + 1) == Probes(n) + [ProbeFrame]
  {
  }

  lemma ProbesAppend(a: nat, b: nat)
    ensures Probes(a) + Probes(b) == Probes(a + b)
  {
  }

  /** A position read that lands within `tolerance` of `expected`. */
  predicate Settles(reply: seq<Byte>, expected: int, tolerance: int) {
    Abs(PositionOf(reply) - expected) <= tolerance
  }

  /** The poll at which a blocking move stops: the first reading within
      tolerance, or none before the deadline. */
  function FirstSettled(expected: int, tolerance: int, replies: seq<seq<Byte>>): (r: Option<nat>)
    ensures r.Some? ==>
      r.value < |replies| && Settles(replies[r.value], expected, tolerance) &&
      (forall k | 0 <= k < r.value :: !Settles(replies[k], expected, tolerance))
    ensures r.None? <==> forall k | 0 <= k < |replies| :: !Settles(replies[k], expected, tolerance)
  {
    SettledFrom(expected, tolerance, replies, 0)
  }

  /** The first reading within tolerance at or after poll `i`. */
  function SettledFrom(expected: int, tolerance: int, replies: seq<seq<Byte>>, i: nat): (r: Option<nat>)
    requires i <= |replies|
    ensures r.Some? ==>
      i <= r.value < |replies| && Settles(replies[r.value], expected, tolerance) &&
      (forall k | i <= k < r.value :: !Settles(replies[k], expected, tolerance))
    ensures r.None? <==> forall k | i <= k < |replies| :: !Settles(replies[k], expected, tolerance)
    decreases |replies| - i
  {
    if i == |replies| then None
    else if Settles(replies[i], expected, tolerance) then Some(i)
    else SettledFrom(expected, tolerance, replies, i + 1)
  }

  function PollCount(expected: int, tolerance: int, replies: seq<seq<Byte>>): (n: nat)
    ensures n <= |replies|
  {
    match FirstSettled(expected, tolerance, replies)
    case Some(k) => k + 1
    case None => |replies|
  }

  /** The first reading within tolerance is the one the poll stops at. */
  lemma FirstSettledAt(expected: int, tolerance: int, replies: seq<seq<Byte>>, k: nat)
    requires k < |replies| && Settles(replies[k], expected, tolerance)
    requires forall j | 0 <= j < k :: !Settles(replies[j], expected, tolerance)
    ensures FirstSettled(expected, tolerance, replies) == Some(k)
  {
  }

  /** One step of the scan: a candidate that responds ends it; any other
      candidate is passed over, probed first when it opens. */
  lemma ScanAdvance(dev: Device, cands: seq<string>, i: nat, held: bool,
                    probed: seq<string>, total: Outcome)
    requires i < |cands|
    requires var o := ScanFrom(dev, cands, i, held);
      total == Outcome(o.port, probed + o.probed)
    ensures var p := if !held && cands[i] in dev then probed + [cands[i]] else probed;
      if !held && cands[i] in dev && Responds(dev, cands[i]) then
        total == Outcome(Some(cands[i]), p)
      else
        var r := ScanFrom(dev, cands, i + 1, false);
        total == Outcome(r.port, p + r.probed)
  {
    if !held && cands[i] in dev && !Responds(dev, cands[i]) {
      var r := ScanFrom(dev, cands, i + 1, false);
      assert probed + ([cands[i]] + r.probed) == (probed + [cands[i]]) + r.probed;
    }
  }

  class ActController {
    /** Whether the program is built for Windows; selects the port names. */
    const windows: bool
    /** The initialisation commands written once a port answers the probe. */
    const initFrames: seq<Frame>
    /** The reset commands. */
    const resetFrames: seq<Frame>

    var connected: bool
    var portName: string
    /** Whether the serial port handle is open. */
    var portOpen: bool
    /** Every frame written to the serial link, oldest first. */
    var written: seq<Frame>

    /** Between calls the port is open exactly while connected, and a port
        name is recorded exactly while connected. */
    predicate Valid()
      reads this
    {
      portOpen == connected && (connected <==> portName != "")
    }

    constructor(windows: bool, initFrames: seq<Frame>, resetFrames: seq<Frame>)
      ensures Valid() && !connected && portName == "" && !portOpen && written == []
      ensures this.windows == windows && this.initFrames == initFrames && this.resetFrames == resetFrames
    {
      this.windows := windows;
      this.initFrames := initFrames;
      this.resetFrames := resetFrames;
      connected := false;
      portName := "";
      portOpen := false;
      written := [];
    }

    // -------------------------------------------------------------------------
    // The serial port
    // -------------------------------------------------------------------------

    /** Opening a port fails when the handle is already open or the port does
        not exist; a handle that was open stays open. */
    method OpenAndConfigure(name: string, dev: Device) returns (threw: bool)
      modifies this
      ensures threw <==> old(portOpen) || name !in dev
      ensures portOpen == (old(portOpen) || !threw)
      ensures connected == old(connected) && portName == old(portName) && written == old(written)
    {
      if portOpen || name !in dev {
        threw := true;
      } else {
        portOpen := true;
        threw := false;
      }
    }

    method SafeClose()
      modifies this
      ensures !portOpen
      ensures connected == old(connected) && portName == old(portName) && written == old(written)
    {
      if portOpen {
        portOpen := false;
      }
    }

    method Write(f: Frame)
      requires portOpen
      modifies this
      ensures written == old(written) + [f]
      ensures connected == old(connected) && portName == old(portName) && portOpen
    {
      written := written + [f];
    }

    method WriteAll(frames: seq<Frame>)
      requires portOpen
      modifies this
      ensures written == old(written) + frames
      ensures connected == old(connected) && portName == old(portName) && portOpen
    {
      for i := 0 to |frames|
        invariant written == old(written) + frames[..i]
        invariant connected == old(connected) && portName == old(portName) && portOpen
      {
        Write(frames[i]);
        assert frames[..i + 1] == frames[..i] + [frames[i]];
      }
      assert frames[..|frames|] == frames;
    }

    /** Writes the probe on the port just opened and checks the answer. */
    method Probe(name: string, dev: Device) returns (ok: bool)
      requires portOpen && name in dev
      modifies this
      ensures ok == Responds(dev, name)
      ensures written == old(written) + [ProbeFrame]
      ensures connected == old(connected) && portName == old(portName) && portOpen
    {
      Write(ProbeFrame);
      var rx := ReadModbusResponse(dev[name]);
      ok := rx.Some? && ValidateCrc(rx.value.0);
    }

    // -------------------------------------------------------------------------
    // Connecting
    // -------------------------------------------------------------------------

    /** One candidate of the scan: open it and probe it, keeping the port
        open when it responds and closing it otherwise. A handle already
        open makes the open fail, and is closed. */
    method TryCandidate(cand: string, dev: Device) returns (ok: bool)
      modifies this
      ensures ok <==> !old(portOpen) && cand in dev && Responds(dev, cand)
      ensures written == old(written) + (if !old(portOpen) && cand in dev then [ProbeFrame] else [])
      ensures portOpen == ok && connected == old(connected) && portName == old(portName)
    {
      var threw := OpenAndConfigure(cand, dev);
      ok := false;
      if !threw {
        ok := Probe(cand, dev);
        if ok {
          return;
        }
      }
      SafeClose();
    }

    /** The scan over the candidate list: each candidate is opened and probed,
        the port closed after a candidate that fails; the scan stops, the port
        left open, at the first candidate that responds. A handle still open on
        entry makes the first candidate fail to open. `cands` is the list
        `MakePortList` gives. */
    method ScanPorts(dev: Device, cands: seq<string>) returns (found: Option<string>)
      requires !connected && portName == "" && |cands| > 0
      modifies this
      ensures var o := ScanFrom(dev, cands, 0, old(portOpen));
        found == o.port && written == old(written) + Probes(|o.probed|)
      ensures portOpen == found.Some? && !connected && portName == ""
    {
      found := None;
      ghost var probed: seq<string> := [];
      ghost var held0 := portOpen;
      ghost var total := ScanFrom(dev, cands, 0, held0);
      var i := 0;
      while i < |cands|
        invariant 0 <= i <= |cands|
        invariant !connected && portName == "" && found == None
        invariant i > 0 ==> !portOpen
        invariant i == 0 ==> portOpen == held0
        invariant var o := ScanFrom(dev, cands, i, portOpen);
          total == Outcome(o.port, probed + o.probed)
        invariant written == old(written) + Probes(|probed|)
      {
        ghost var held := portOpen;
        var ok := TryCandidate(cands[i], dev);
        ScanAdvance(dev, cands, i, held, probed, total);
        if !held && cands[i] in dev {
          ProbesSnoc(|probed|);
          probed := probed + [cands[i]];
        }
        if ok {
          found := Some(cands[i]);
          break;
        }
        i := i + 1;
      }
    }

    /** After the scan: the initialisation commands and the recorded port name
        when a port was found (0), nothing when none was (1). */
    method FinishScan(found: Option<string>) returns (rc: int)
      requires !connected && portName == "" && portOpen == found.Some?
      requires found.Some? ==> found.value != ""
      modifies this
      ensures Valid() && (rc == 0 <==> found.Some?) && (rc == 0 || rc == 1)
      ensures connected == found.Some? && portName == (if found.Some? then found.value else "")
      ensures written == old(written) + (if found.Some? then initFrames else [])
    {
      if found.None? {
        return 1;
      }
      WriteAll(initFrames);
      connected := true;
      portName := found.value;
      rc := 0;
    }

    /** Connects to the first port that answers the probe: the requested port
        (or the platform default) first, then the candidate list in order; the
        initialisation commands follow on the port found. Returns 0 on
        success and 1 when no port answers. The preferred port is closed
        before the scan when its probe fails. */
    method Connect(requested: string, dev: Device) returns (rc: int)
      requires Valid()
      modifies this
      ensures Valid()
      ensures old(connected) ==>
        rc == 0 && connected && portName == old(portName) && written == old(written)
      ensures !old(connected) ==>
        var o := Discover(dev, Preferred(requested, windows), MakePortList(windows));
        (rc == 0 <==> o.port.Some?) && (rc == 0 || rc == 1) &&
        connected == o.port.Some? &&
        portName == (if o.port.Some? then o.port.value else "") &&
        written == old(written) + Probes(|o.probed|) + (if o.port.Some? then initFrames else [])
    {
      if connected {
        return 0;
      }
      assert |MakePortList(windows)| > 0;
      PortNamesNonEmpty(windows);
      rc := ConnectVia(Preferred(requested, windows), MakePortList(windows), dev);
    }

    /** The attempt `Connect` makes once it knows it is not connected, with
        the preferred port `pref` and the candidate list `cands`. */
    method ConnectVia(pref: string, cands: seq<string>, dev: Device) returns (rc: int)
      requires Valid() && !connected && pref != "" && |cands| > 0
      requires forall n | n in cands :: n != ""
      modifies this
      ensures Valid()
      ensures var o := Discover(dev, pref, cands);
        (rc == 0 <==> o.port.Some?) && (rc == 0 || rc == 1) &&
        connected == o.port.Some? &&
        portName == (if o.port.Some? then o.port.value else "") &&
        written == old(written) + Probes(|o.probed|) + (if o.port.Some? then initFrames else [])
    {
      var threw := OpenAndConfigure(pref, dev);
      if !threw {
        var ok := Probe(pref, dev);
        if ok {
          WriteAll(initFrames);
          connected := true;
          portName := pref;
          return 0;
        }
        SafeClose();
      } else {
        SafeClose();
        connected := false;
        portName := "";
      }
      ghost var head: seq<string> := if pref in dev then [pref] else [];
      assert written == old(written) + Probes(|head|);
      var found := ScanPorts(dev, cands);
      ghost var o := ScanFrom(dev, cands, 0, false);
      ProbesAppend(|head|, |o.probed|);
      ScanPicksCandidate(dev, cands, 0, false);
      rc := FinishScan(found);
    }

    /** `Connect` as the controller is written: when the preferred port opens
        but its probe fails, the handle stays open into the scan. */
    method ConnectAsWritten(requested: string, dev: Device) returns (rc: int)
      requires Valid()
      modifies this
      ensures Valid()
      ensures old(connected) ==>
        rc == 0 && connected && portName == old(portName) && written == old(written)
      ensures !old(connected) ==>
        var o := DiscoverAsWritten(dev, Preferred(requested, windows), MakePortList(windows));
        (rc == 0 <==> o.port.Some?) && (rc == 0 || rc == 1) &&
        connected == o.port.Some? &&
        portName == (if o.port.Some? then o.port.value else "") &&
        written == old(written) + Probes(|o.probed|) + (if o.port.Some? then initFrames else [])
    {
      if connected {
        return 0;
      }
      assert |MakePortList(windows)| > 0;
      PortNamesNonEmpty(windows);
      rc := ConnectViaAsWritten(Preferred(requested, windows), MakePortList(windows), dev);
    }

    /** The attempt `ConnectAsWritten` makes once it knows it is not
        connected. */
    method ConnectViaAsWritten(pref: string, cands: seq<string>, dev: Device) returns (rc: int)
      requires Valid() && !connected && pref != "" && |cands| > 0
      requires forall n | n in cands :: n != ""
      modifies this
      ensures Valid()
      ensures var o := DiscoverAsWritten(dev, pref, cands);
        (rc == 0 <==> o.port.Some?) && (rc == 0 || rc == 1) &&
        connected == o.port.Some? &&
        portName == (if o.port.Some? then o.port.value else "") &&
        written == old(written) + Probes(|o.probed|) + (if o.port.Some? then initFrames else [])
    {
      var threw := OpenAndConfigure(pref, dev);
      if !threw {
        var ok := Probe(pref, dev);
        if ok {
          WriteAll(initFrames);
          connected := true;
          portName := pref;
          return 0;
        }
      } else {
        SafeClose();
        connected := false;
        portName := "";
      }
      assert !Responds(dev, pref);
      ghost var held := portOpen;
      assert held == (pref in dev);
      ghost var head: seq<string> := if pref in dev then [pref] else [];
      assert written == old(written) + Probes(|head|);
      var found := ScanPorts(dev, cands);
      ghost var o := ScanFrom(dev, cands, 0, held);
      assert DiscoverAsWritten(dev, pref, cands) == Outcome(o.port, head + o.probed);
      ProbesAppend(|head|, |o.probed|);
      ScanPicksCandidate(dev, cands, 0, held);
      rc := FinishScan(found);
    }

    /** Closes the port and forgets it. */
    method Disconnect()
      modifies this
      ensures Valid() && !connected && portName == "" && !portOpen
      ensures written == old(written)
    {
      SafeClose();
      connected := false;
      portName := "";
    }

    function IsConnected(): (b: bool)
      reads this
      requires Valid()
      ensures b <==> portName != ""
    {
      connected
    }

    function GetPortName(): (n: string)
      reads this
      requires Valid()
      ensures n == "" <==> !connected
    {
      portName
    }

    /** Writes the reset commands, when connected. */
    method Reset()
      requires Valid()
      modifies this
      ensures Valid() && connected == old(connected) && portName == old(portName)
      ensures written == old(written) + (if old(connected) then resetFrames else [])
    {
      if !connected {
        return;
      }
      WriteAll(resetFrames);
    }

    // -------------------------------------------------------------------------
    // Moving
    // -------------------------------------------------------------------------

    /** The frames of a relative move at speed `spd`. */
    method SendRelative(spd: int, magnitude: int)
      requires portOpen
      modifies this
      ensures written == old(written) + RelativeFrames(spd, magnitude)
      ensures connected == old(connected) && portName == old(portName) && portOpen
    {
      var command := AppendCrc(RelativeBody(spd, magnitude));
      Write(command);
      Write(Trigger);
      if magnitude <= 0 {
        Write(CoilOff);
      }
    }

    /** A relative move: nothing when disconnected or when the magnitude is 0,
        otherwise the relative frames at the speed clamped into [1, 30]. */
    method MoveRelative(magnitude: int, moveSpeed: int)
      requires Valid()
      modifies this
      ensures Valid() && connected == old(connected) && portName == old(portName)
      ensures written == old(written) +
        (if old(connected) && magnitude != 0 then RelativeFrames(RelativeSpeed(moveSpeed), magnitude) else [])
    {
      if !connected || magnitude == 0 {
        return;
      }
      SendRelative(RelativeSpeed(moveSpeed), magnitude);
    }

    /** An absolute move: nothing when disconnected, otherwise the speed frame
        (speed raised to at least 1), the target frame (scaled target) and the
        coil sequence. */
    method MoveAbsolute(position: int, speed: int)
      requires Valid()
      modifies this
      ensures Valid() && connected == old(connected) && portName == old(portName)
      ensures written == old(written) +
        (if old(connected) then AbsoluteFrames(MinSpeed(speed), ScaledTarget(position)) else [])
    {
      if !connected {
        return;
      }
      SendAbsolute(MinSpeed(speed), ScaledTarget(position));
    }

    /** The writes of an absolute move on an open port: speed, target, then
        the coil sequence. */
    method SendAbsolute(spd: int, scaled: int)
      requires portOpen
      modifies this
      ensures written == old(written) + AbsoluteFrames(spd, scaled)
      ensures connected == old(connected) && portName == old(portName) && portOpen
    {
      var speedFrame := AppendCrc(SpeedBody(spd));
      Write(speedFrame);
      var frame := AppendCrc(PositionBody(scaled));
      Write(frame);
      WriteAll(AbsoluteTail);
      assert written == old(written) + ([speedFrame, frame] + AbsoluteTail);
    }

    /** Moves to position 0 at the default speed 10. */
    method MoveToOrigin()
      requires Valid()
      modifies this
      ensures Valid() && connected == old(connected) && portName == old(portName)
      ensures written == old(written) + (if old(connected) then AbsoluteFrames(10, 0) else [])
    {
      MoveAbsolute(0, 10);
    }

    // -------------------------------------------------------------------------
    // Reading the position
    // -------------------------------------------------------------------------

    /** Reads the position: 0 when disconnected; otherwise writes the request
        and decodes the answer `reply` (the bytes the device sends once the
        link has been drained). */
    method GetCurrentPosition(reply: seq<Byte>) returns (pos: int)
      requires Valid()
      modifies this
      ensures Valid() && connected == old(connected) && portName == old(portName)
      ensures pos == (if old(connected) then PositionOf(reply) else 0)
      ensures written == old(written) + (if old(connected) then [ProbeFrame] else [])
    {
      if !connected {
        return 0;
      }
      Write(ProbeFrame);
      var r := ReadModbusResponse(reply);
      if r.None? {
        return 0;
      }
      pos := DecodeReply(r.value.0);
    }

    /** The decoding steps of a position read, in the order the controller
        takes them: the length check, the checksum computed by the byte loop
        `Crc16Modbus` and compared with the trailer, then the rounding. It
        reads no state; `DecodePosition` is its specification. */
    method DecodeReply(rx: Frame) returns (pos: int)
      ensures pos == DecodePosition(rx)
    {
      if |rx| < 5 {
        return 0;
      }
      var computed := Crc16Modbus(rx[..|rx| - 2]);
      var recv := Received(rx[|rx| - 2], rx[|rx| - 1]);
      if computed != recv {
        return 0;
      }
      if |rx| >= 7 {
        var raw := Int16BE(rx[5], rx[6]);
        if raw >= 0 {
          pos := TruncDiv(raw + 50, 100);
        } else {
          pos := TruncDiv(raw - 50, 100);
        }
        return;
      }
      return 0;
    }

    // -------------------------------------------------------------------------
    // Blocking moves
    // -------------------------------------------------------------------------

    /** Polls the position until a reading lands within `tolerance` of
        `expected`; `replies` are the answers to the polls made before the
        deadline. Returns 0 on the first reading within tolerance, 1 when none
        is. */
    method Poll(expected: int, tolerance: int, replies: seq<seq<Byte>>) returns (rc: int)
      requires Valid() && connected
      modifies this
      ensures Valid() && connected && portName == old(portName)
      ensures rc == (if FirstSettled(expected, tolerance, replies).Some? then 0 else 1)
      ensures written == old(written) + Probes(PollCount(expected, tolerance, replies))
    {
      var k := 0;
      while k < |replies|
        invariant 0 <= k <= |replies|
        invariant forall j | 0 <= j < k :: !Settles(replies[j], expected, tolerance)
        invariant written == old(written) + Probes(k)
        invariant Valid() && connected && portName == old(portName)
      {
        var actual := GetCurrentPosition(replies[k]);
        ProbesSnoc(k);
        if Abs(actual - expected) <= tolerance {
          FirstSettledAt(expected, tolerance, replies, k);
          return 0;
        }
        k := k + 1;
      }
      return 1;
    }

    /** A relative move that waits: 1 with nothing written when disconnected,
        when the magnitude is 0 or when the timeout is not positive; otherwise
        reads the start position (`startReply`), sends the relative frames at
        the speed raised to at least 1, and polls for the start position moved
        by `magnitude`, floored at 0. Returns 0 exactly when a reading lands
        within tolerance. */
    method MoveRelativeBlocking(magnitude: int, moveSpeed: int, timeoutSec: int, tolerance: int,
                                startReply: seq<Byte>, replies: seq<seq<Byte>>) returns (rc: int)
      requires Valid()
      modifies this
      ensures Valid() && connected == old(connected) && portName == old(portName)
      ensures var go := old(connected) && magnitude != 0 && timeoutSec > 0;
        var expected := ExpectedRelative(PositionOf(startReply), magnitude);
        (rc == 0 || rc == 1) &&
        (rc == 0 <==> go && exists k | 0 <= k < |replies| :: Settles(replies[k], expected, tolerance)) &&
        written == old(written) +
          (if go then [ProbeFrame] + RelativeFrames(MinSpeed(moveSpeed), magnitude) + Probes(PollCount(expected, tolerance, replies))
           else [])
    {
      if !connected || magnitude == 0 || timeoutSec <= 0 {
        return 1;
      }
      var start := GetCurrentPosition(startReply);
      var expected := ExpectedRelative(start, magnitude);
      SendRelative(MinSpeed(moveSpeed), magnitude);
      rc := Poll(expected, tolerance, replies);
    }

    /** An absolute move that waits: 1 with nothing written when disconnected
        or when the timeout is not positive; otherwise the absolute move and a
        poll for the scaled target rounded back to units. Returns 0 exactly
        when a reading lands within tolerance. */
    method MoveAbsoluteBlocking(position: int, speed: int, timeoutSec: int, tolerance: int,
                                replies: seq<seq<Byte>>) returns (rc: int)
      requires Valid()
      modifies this
      ensures Valid() && connected == old(connected) && portName == old(portName)
      ensures var go := old(connected) && timeoutSec > 0;
        var expected := ExpectedAbsolute(position);
        (rc == 0 || rc == 1) &&
        (rc == 0 <==> go && exists k | 0 <= k < |replies| :: Settles(replies[k], expected, tolerance)) &&
        written == old(written) +
          (if go then AbsoluteFrames(MinSpeed(speed), ScaledTarget(position)) + Probes(PollCount(expected, tolerance, replies))
           else [])
    {
      if !connected || timeoutSec <= 0 {
        return 1;
      }
      var spd := MinSpeed(speed);
      var expected := ExpectedAbsolute(position);
      MoveAbsolute(position, spd);
      rc := Poll(expected, tolerance, replies);
    }
  }
}
