/** The three readers of `ethtool` output (pkg/system/ethtool.go).  Running
    the command is outside the model: each reader receives the command's
    outcome, either a failure or the lines of its combined output. */
module Ethtool {
  import opened Common
  import opened GoText

  /** What `exec.Command(...).CombinedOutput()` produced: an error, or the
      output as the scanner splits it into lines. */
  datatype Command = Failed | Ran(lines: seq<string>)

  // ---------------------------------------------------------------------
  // ethtool -i: the driver name

  const DriverKey: string := "driver:"

  predicate IsDriverLine(line: string) {
    HasPrefix(line, DriverKey)
  }

  /** The driver `ethtool -i` reports, read line by line: the text after
      `driver:` on the first line that starts with it, with surrounding white
      space removed. */
  function DriverOf(lines: seq<string>): Option<string> {
    if lines == [] then None
    else if IsDriverLine(lines[0]) then Some(TrimSpace(lines[0][|DriverKey|..]))
    else DriverOf(lines[1..])
  }

  /** DriverOf fails exactly when no line starts with `driver:`, and
      otherwise answers from the first such line, whatever follows it. */
  lemma {:induction false} DriverOfFirstLine(lines: seq<string>)
    ensures DriverOf(lines).Some? <==> exists i :: 0 <= i < |lines| && IsDriverLine(lines[i])
    ensures DriverOf(lines).Some? ==> exists i :: (0 <= i < |lines| && IsDriverLine(lines[i])
      && (forall j :: 0 <= j < i ==> !IsDriverLine(lines[j]))
      && DriverOf(lines).value == TrimSpace(lines[i][|DriverKey|..]))
  {
    if lines != [] && !IsDriverLine(lines[0]) {
      var tail := lines[1..];
      DriverOfFirstLine(tail);
      if exists i :: 0 <= i < |lines| && IsDriverLine(lines[i]) {
        var i :| 0 <= i < |lines| && IsDriverLine(lines[i]);
        assert IsDriverLine(tail[i - 1]);
      }
      if DriverOf(tail).Some? {
        var i :| 0 <= i < |tail| && IsDriverLine(tail[i])
          && (forall j :: 0 <= j < i ==> !IsDriverLine(tail[j]))
          && DriverOf(tail).value == TrimSpace(tail[i][|DriverKey|..]);
        assert lines[i + 1] == tail[i];
        forall j | 0 <= j < i + 1
          ensures !IsDriverLine(lines[j])
        {
          if j > 0 {
            assert lines[j] == tail[j - 1];
          }
        }
      }
    }
  }

  /** On a line that starts with `driver:`, strings.SplitN(line, ":", 2)
      always yields two parts, the second being the text after the key. */
  lemma DriverLineSplit(line: string)
    requires IsDriverLine(line)
    ensures SplitN2(line, ':') == ["driver", line[|DriverKey|..]]
  {
    var parts := SplitN2(line, ':');
    assert line[..7] == DriverKey;
    assert line[6] == ':';
    assert line[..6] == "driver";
    assert |parts| == 2;
    var n := |parts[0]|;
    assert line == parts[0] + [':'] + parts[1];
    assert forall k :: 0 <= k < 6 ==> line[k] != ':';
    assert forall k :: 0 <= k < n ==> parts[0][k] == line[k];
    assert line[n] == ':';
    assert n == 6;
    assert parts[0] == line[..6];
    assert parts[1] == line[7..];
  }

  /** What GetDriverInfo answers for interface `name` given the command's
      outcome. */
  function DriverResult(name: string, out: Command): Result<string> {
    match out
    case Failed => Err(CommandFailed)
    case Ran(lines) =>
      match DriverOf(lines)
      case Some(d) => Ok(d)
      case None => Err(DriverNotFound(name))
  }

  /** ethtool.go's GetDriverInfo on the command's outcome: the scan stops at
      the first `driver:` line. */
  method GetDriverInfo(name: string, out: Command) returns (r: Result<string>)
    ensures r == DriverResult(name, out)
  {
    if out.Failed? {
      return Err(CommandFailed);
    }
    var lines := out.lines;
    var i := 0;
    while i < |lines|
      invariant 0 <= i <= |lines|
      invariant DriverOf(lines) == DriverOf(lines[i..])
    {
      var line := lines[i];
      assert lines[i..][0] == line && lines[i..][1..] == lines[i + 1..];
      if HasPrefix(line, DriverKey) {
        var parts := SplitN2(line, ':');
        DriverLineSplit(line);
        if |parts| == 2 {
          return Ok(TrimSpace(parts[1]));
        }
      }
      i := i + 1;
    }
    return Err(DriverNotFound(name));
  }

  /** Once a driver line has been seen, what follows it cannot change the
      answer. */
  lemma {:induction false} DriverIgnoresLaterLines(a: seq<string>, b: seq<string>)
    requires DriverOf(a).Some?
    ensures DriverOf(a + b) == DriverOf(a)
  {
    assert a != [];
    assert (a + b)[0] == a[0];
    if !IsDriverLine(a[0]) {
      assert (a + b)[1..] == a[1..] + b;
      DriverIgnoresLaterLines(a[1..], b);
    }
  }

  // ---------------------------------------------------------------------
  // ethtool: the link speed

  predicate IsSpeedLine(line: string) {
    Contains(line, "Speed:")
  }

  /** The number a `Speed:` line yields: the first run of digits anywhere on
      the line, if strconv.Atoi accepts it. */
  function LineSpeed(line: string): Option<int> {
    match FirstDigitRun(line)
    case None => None
    case Some(d) =>
      match ParseInt(d)
      case Parsed(v) => Some(v)
      case _ => None
  }

  /** A line yields a speed exactly when it holds a digit and its first
      digit run denotes a number below 2^63; the speed is that number. */
  lemma LineSpeedValue(line: string)
    ensures LineSpeed(line).Some? ==> (FirstDigitRun(line).Some?
      && LineSpeed(line).value == DigitsValue(FirstDigitRun(line).value))
    ensures LineSpeed(line).Some? <==> FirstDigitRun(line).Some? && DigitsValue(FirstDigitRun(line).value) <= MaxInt64
    ensures LineSpeed(line).Some? ==> 0 <= LineSpeed(line).value <= MaxInt64
  {
    if FirstDigitRun(line).Some? {
      DigitRunParse(FirstDigitRun(line).value);
    }
  }

  predicate GivesSpeed(line: string) {
    IsSpeedLine(line) && LineSpeed(line).Some?
  }

  /** The speed `ethtool` reports: that of the first `Speed:` line that
      yields a number; lines such as `Speed: Unknown!` are passed over. */
  function SpeedOf(lines: seq<string>): Option<int> {
    if lines == [] then None
    else if GivesSpeed(lines[0]) then LineSpeed(lines[0])
    else SpeedOf(lines[1..])
  }

  /** Line `i` gives a speed and no line before it does. */
  predicate FirstSpeedAt(lines: seq<string>, i: int) {
    0 <= i < |lines| && GivesSpeed(lines[i]) && forall j :: 0 <= j < i ==> !GivesSpeed(lines[j])
  }

  /** A speed is found exactly when some line gives one, and it is the
      speed of the first such line. */
  lemma {:induction false} SpeedOfFirstLine(lines: seq<string>)
    ensures SpeedOf(lines).Some? <==> exists i :: 0 <= i < |lines| && GivesSpeed(lines[i])
    ensures SpeedOf(lines).Some? ==>
      exists i :: FirstSpeedAt(lines, i) && SpeedOf(lines).value == LineSpeed(lines[i]).value
    decreases |lines|
  {
    if lines != [] && !GivesSpeed(lines[0]) {
      var tail := lines[1..];
      SpeedOfFirstLine(tail);
      if exists i :: 0 <= i < |lines| && GivesSpeed(lines[i]) {
        var i :| 0 <= i < |lines| && GivesSpeed(lines[i]);
        assert GivesSpeed(tail[i - 1]);
      }
      if SpeedOf(tail).Some? {
        var i :| FirstSpeedAt(tail, i) && SpeedOf(tail).value == LineSpeed(tail[i]).value;
        assert lines[i + 1] == tail[i];
        forall j | 0 <= j < i + 1
          ensures !GivesSpeed(lines[j])
        {
          if j > 0 {
            assert lines[j] == tail[j - 1];
          }
        }
        assert FirstSpeedAt(lines, i + 1);
      }
    } else if lines != [] {
      assert FirstSpeedAt(lines, 0);
    }
  }

  /** A reported speed is never negative and fits in a Go int. */
  lemma SpeedInRange(lines: seq<string>)
    requires SpeedOf(lines).Some?
    ensures 0 <= SpeedOf(lines).value <= MaxInt64
  {
    SpeedOfFirstLine(lines);
    var i :| FirstSpeedAt(lines, i) && SpeedOf(lines).value == LineSpeed(lines[i]).value;
    LineSpeedValue(lines[i]);
  }

  /** A line without a digit, such as the `Speed: Unknown!` line ethtool
      prints for a link that is down, yields no speed, and the scan passes
      over it to the lines that follow. */
  lemma UnknownSpeedSkipped(line: string, rest: seq<string>)
    requires forall i :: 0 <= i < |line| ==> !IsDigit(line[i])
    ensures !GivesSpeed(line)
    ensures SpeedOf([line] + rest) == SpeedOf(rest)
  {
    assert FirstDigitRun(line).None?;
    assert ([line] + rest)[1..] == rest;
  }

  /** In particular ethtool's `Speed: Unknown!` line is passed over. */
  lemma UnknownLineSkipped(rest: seq<string>)
    ensures SpeedOf(["\tSpeed: Unknown!"] + rest) == SpeedOf(rest)
  {
    var line := "\tSpeed: Unknown!";
    assert forall i :: 0 <= i < |line| ==> !IsDigit(line[i]);
    UnknownSpeedSkipped(line, rest);
  }

  /** What GetSpeed answers for interface `name` given the command's
      outcome. */
  function SpeedResult(name: string, out: Command): Result<int> {
    match out
    case Failed => Err(CommandFailed)
    case Ran(lines) =>
      match SpeedOf(lines)
      case Some(v) => Ok(v)
      case None => Err(SpeedNotFound(name))
  }

  /** ethtool.go's GetSpeed on the command's outcome. */
  method GetSpeed(name: string, out: Command) returns (r: Result<int>)
    ensures r == SpeedResult(name, out)
  {
    if out.Failed? {
      return Err(CommandFailed);
    }
    var lines := out.lines;
    var i := 0;
    while i < |lines|
      invariant 0 <= i <= |lines|
      invariant SpeedOf(lines) == SpeedOf(lines[i..])
    {
      var line := lines[i];
      assert lines[i..][0] == line && lines[i..][1..] == lines[i + 1..];
      if Contains(line, "Speed:") {
        var matches := FirstDigitRun(line);
        if matches.Some? {
          var speed := ParseInt(matches.value);
          if speed.Parsed? {
            return Ok(speed.value);
          }
        }
      }
      i := i + 1;
    }
    return Err(SpeedNotFound(name));
  }

  // ---------------------------------------------------------------------
  // ethtool -g: ring sizes

  const PresetHeader: string := "Pre-set maximums:"
  const CurrentHeader: string := "Current hardware settings:"

  /** The four ring sizes, in the order GetRingBufferSettings returns them. */
  datatype Ring = Ring(rxCur: int, txCur: int, rxMax: int, txMax: int)

  /** The scanner's state between two lines: the two section flags and the
      four sizes read so far. */
  datatype ScanState = ScanState(inPreset: bool, inCurrent: bool, ring: Ring)

  const Start: ScanState := ScanState(false, false, Ring(0, 0, 0, 0))

  predicate IsHeader(line: string) {
    Contains(line, PresetHeader) || Contains(line, CurrentHeader)
  }

  /** A size line's new value: Atoi of its second field with the error
      dropped, or the old value when the line has fewer than two fields. */
  function FieldValue(line: string, previous: int): int {
    var parts := Fields(line);
    if |parts| >= 2 then AtoiValue(parts[1]) else previous
  }

  /** One pass of the scanner loop body. */
  function Step(s: ScanState, line: string): ScanState
  {
    if Contains(line, PresetHeader) then s.(inPreset := true, inCurrent := false)
    else if Contains(line, CurrentHeader) then s.(inPreset := false, inCurrent := true)
    else if s.inPreset && HasPrefix(line, "RX:") then s.(ring := s.ring.(rxMax := FieldValue(line, s.ring.rxMax)))
    else if s.inPreset && HasPrefix(line, "TX:") then s.(ring := s.ring.(txMax := FieldValue(line, s.ring.txMax)))
    else if s.inCurrent && HasPrefix(line, "RX:") then s.(ring := s.ring.(rxCur := FieldValue(line, s.ring.rxCur)))
    else if s.inCurrent && HasPrefix(line, "TX:") then s.(ring := s.ring.(txCur := FieldValue(line, s.ring.txCur)))
    else s
  }

  /** What one line can do to the scanner: a header switches exactly one
      flag on and sets no size; any other line leaves the flags alone; a
      line outside both sections, one that does not start with `RX:` or
      `TX:`, or one with fewer than two fields sets no size. */
  lemma StepEffects(s: ScanState, line: string)
    ensures var r := Step(s, line);
      && (IsHeader(line) ==> r.ring == s.ring && r.inPreset != r.inCurrent)
      && (!IsHeader(line) ==> r.inPreset == s.inPreset && r.inCurrent == s.inCurrent)
      && (!s.inPreset && !s.inCurrent ==> r.ring == s.ring)
      && (!HasPrefix(line, "RX:") && !HasPrefix(line, "TX:") ==> r.ring == s.ring)
      && (|Fields(line)| < 2 ==> r.ring == s.ring)
  {
  }

  /** The scanner's state after the given lines. */
  function Scan(lines: seq<string>): ScanState
  {
    if lines == [] then Start else Step(Scan(lines[..|lines| - 1]), lines[|lines| - 1])
  }

  /** ethtool.go's GetRingBufferSettings on the command's outcome.  A
      command that ran never makes it fail: sizes it does not find stay 0. */
  method GetRingBufferSettings(out: Command) returns (rxCur: int, txCur: int, rxMax: int, txMax: int, err: Option<Error>)
    ensures out.Failed? ==> err == Some(CommandFailed) && Ring(rxCur, txCur, rxMax, txMax) == Ring(0, 0, 0, 0)
    ensures out.Ran? ==> err == None && Ring(rxCur, txCur, rxMax, txMax) == Scan(out.lines).ring
  {
    rxCur, txCur, rxMax, txMax := 0, 0, 0, 0;
    if out.Failed? {
      return 0, 0, 0, 0, Some(CommandFailed);
    }
    var lines := out.lines;
    var inPreset := false;
    var inCurrent := false;
    var i := 0;
    while i < |lines|
      invariant 0 <= i <= |lines|
      invariant ScanState(inPreset, inCurrent, Ring(rxCur, txCur, rxMax, txMax)) == Scan(lines[..i])
    {
      var line := lines[i];
      assert lines[..i + 1][..i] == lines[..i];
      ghost var next := Step(ScanState(inPreset, inCurrent, Ring(rxCur, txCur, rxMax, txMax)), line);
      assert Scan(lines[..i + 1]) == next;
      if Contains(line, PresetHeader) {
        inPreset := true;
        inCurrent := false;
      } else if Contains(line, CurrentHeader) {
        inPreset := false;
        inCurrent := true;
      } else if inPreset && HasPrefix(line, "RX:") {
        var parts := Fields(line);
        if |parts| >= 2 {
          rxMax := AtoiValue(parts[1]);
        }
      } else if inPreset && HasPrefix(line, "TX:") {
        var parts := Fields(line);
        if |parts| >= 2 {
          txMax := AtoiValue(parts[1]);
        }
      } else if inCurrent && HasPrefix(line, "RX:") {
        var parts := Fields(line);
        if |parts| >= 2 {
          rxCur := AtoiValue(parts[1]);
        }
      } else if inCurrent && HasPrefix(line, "TX:") {
        var parts := Fields(line);
        if |parts| >= 2 {
          txCur := AtoiValue(parts[1]);
        }
      }
      assert ScanState(inPreset, inCurrent, Ring(rxCur, txCur, rxMax, txMax)) == next;
      i := i + 1;
    }
    assert lines[..|lines|] == lines;
    err := None;
  }

  // --- An independent reading of the ring output -----------------------

  datatype Section = NoSection | Preset | Current

  /** The section a line belongs to: the one named by the last header line
      before it, or none before the first header. */
  function SectionOf(before: seq<string>): Section {
    if before == [] then NoSection
    else
      var last := before[|before| - 1];
      if Contains(last, PresetHeader) then Preset
      else if Contains(last, CurrentHeader) then Current
      else SectionOf(before[..|before| - 1])
  }

  /** The two flags track the section exactly, so they are never both set. */
  lemma {:induction false} FlagsTrackSection(lines: seq<string>)
    ensures Scan(lines).inPreset <==> SectionOf(lines) == Preset
    ensures Scan(lines).inCurrent <==> SectionOf(lines) == Current
    ensures !(Scan(lines).inPreset && Scan(lines).inCurrent)
    decreases |lines|
  {
    if lines != [] {
      FlagsTrackSection(lines[..|lines| - 1]);
    }
  }

  /** A line that follows `before` assigns the size selected by `sec` and
      `key` ("RX:" or "TX:") when it is not a header, lies in that section,
      starts with the key and has at least two fields. */
  predicate AssignsAfter(before: seq<string>, line: string, sec: Section, key: string) {
    !IsHeader(line) && SectionOf(before) == sec && HasPrefix(line, key) && |Fields(line)| >= 2
  }

  predicate Assigns(lines: seq<string>, i: int, sec: Section, key: string) {
    0 <= i < |lines| && AssignsAfter(lines[..i], lines[i], sec, key)
  }

  /** The value a size ends with under the reading "the last line that
      assigns it wins, 0 if none does". */
  function FinalValue(lines: seq<string>, sec: Section, key: string): int
  {
    if lines == [] then 0
    else
      var n := |lines| - 1;
      if AssignsAfter(lines[..n], lines[n], sec, key) then AtoiValue(Fields(lines[n])[1])
      else FinalValue(lines[..n], sec, key)
  }

  /** Removing the last line leaves the earlier lines' assignments as they
      were. */
  lemma AssignsInPrefix(lines: seq<string>, n: nat, sec: Section, key: string)
    requires n <= |lines|
    ensures forall i :: 0 <= i < n ==> Assigns(lines[..n], i, sec, key) == Assigns(lines, i, sec, key)
  {
    forall i | 0 <= i < n
      ensures Assigns(lines[..n], i, sec, key) == Assigns(lines, i, sec, key)
    {
      assert lines[..n][..i] == lines[..i];
    }
  }

  /** A size that no line assigns stays 0. */
  lemma {:induction false} FinalValueUnassigned(lines: seq<string>, sec: Section, key: string)
    requires forall i :: 0 <= i < |lines| ==> !Assigns(lines, i, sec, key)
    ensures FinalValue(lines, sec, key) == 0
    decreases |lines|
  {
    if lines != [] {
      var n := |lines| - 1;
      AssignsInPrefix(lines, n, sec, key);
      assert !Assigns(lines, n, sec, key);
      FinalValueUnassigned(lines[..n], sec, key);
    }
  }

  /** Otherwise the size holds the value of the last line that assigns it. */
  lemma {:induction false} FinalValueLastAssigned(lines: seq<string>, i: int, sec: Section, key: string)
    requires Assigns(lines, i, sec, key)
    requires forall j :: i < j < |lines| ==> !Assigns(lines, j, sec, key)
    ensures FinalValue(lines, sec, key) == AtoiValue(Fields(lines[i])[1])
    decreases |lines|
  {
    var n := |lines| - 1;
    if i < n {
      AssignsInPrefix(lines, n, sec, key);
      assert !Assigns(lines, n, sec, key);
      assert !AssignsAfter(lines[..n], lines[n], sec, key);
      assert FinalValue(lines, sec, key) == FinalValue(lines[..n], sec, key);
      FinalValueLastAssigned(lines[..n], i, sec, key);
      assert lines[..n][i] == lines[i];
    } else {
      assert i == n;
      assert AssignsAfter(lines[..n], lines[n], sec, key);
      assert FinalValue(lines, sec, key) == AtoiValue(Fields(lines[n])[1]);
    }
  }

  function Sizes(lines: seq<string>): Ring {
    Ring(FinalValue(lines, Current, "RX:"), FinalValue(lines, Current, "TX:"),
         FinalValue(lines, Preset, "RX:"), FinalValue(lines, Preset, "TX:"))
  }

  /** One line moves the scanner and the reference reading alike. */
  lemma StepAssigns(before: seq<string>, line: string)
    requires Scan(before).ring == Sizes(before)
    ensures Scan(before + [line]).ring == Sizes(before + [line])
  {
    var lines := before + [line];
    assert lines[..|before|] == before;
    FlagsTrackSection(before);
    if HasPrefix(line, "RX:") {
      assert line[0] == 'R';
    }
    if HasPrefix(line, "TX:") {
      assert line[0] == 'T';
    }
  }



  /** The flag-driven scanner computes exactly "the last assigning line of
      each section wins, 0 if there is none": header lines set no size,
      lines before any header set nothing, `RX Mini:`-style lines set
      nothing, a later line overrides an earlier one, a non-numeric value
      reads as 0 and a line with one field leaves the size as it was. */
  lemma {:induction false} ScanIsLastAssignment(lines: seq<string>)
    ensures Scan(lines).ring == Sizes(lines)
    decreases |lines|
  {
    if lines != [] {
      var n := |lines| - 1;
      ScanIsLastAssignment(lines[..n]);
      StepAssigns(lines[..n], lines[n]);
      assert lines[..n] + [lines[n]] == lines;
    }
  }

  /** Output with no `RX:` or `TX:` line at all (ethtool -g on a device
      without ring parameters, say) yields four zeros, not an error. */
  lemma {:induction false} NoSizeLinesAllZero(lines: seq<string>)
    requires forall i :: 0 <= i < |lines| ==> !HasPrefix(lines[i], "RX:") && !HasPrefix(lines[i], "TX:")
    ensures Scan(lines).ring == Ring(0, 0, 0, 0)
    decreases |lines|
  {
    if lines != [] {
      NoSizeLinesAllZero(lines[..|lines| - 1]);
    }
  }
}
