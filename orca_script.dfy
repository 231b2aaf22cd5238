/** BedCooldown_ORCA.py as a whole, on the text of the G-code file: the
    time-estimate detection, the cross-write of the other format, the
    validation and the marker substitution. The file is read as its
    '\n'-separated lines, the lines that `^` and `$` delimit in a Python
    re.MULTILINE pattern. */
module OrcaScript {
  import opened Wrappers
  import opened Text
  import opened Duration
  import opened OrcaParams
  import Command

  // ---------------------------------------------------------------------
  // Line recognisers and line-wise substitution (re.search / re.sub with
  // re.MULTILINE)

  predicate IsEstimateLine(line: string) { ParseEstimateLine(line).Some? }
  predicate IsTimeTagLine(line: string) { ParseTimeTag(line).Some? }

  /** `re.search`: the first line the recogniser accepts. */
  function FirstMatch(lines: seq<string>, accepts: string -> bool): (r: Option<nat>)
    ensures r.Some? ==> r.value < |lines| && accepts(lines[r.value])
    ensures r.Some? ==> forall j :: 0 <= j < r.value ==> !accepts(lines[j])
    ensures r.None? ==> forall j :: 0 <= j < |lines| ==> !accepts(lines[j])
  {
    if |lines| == 0 then None
    else if accepts(lines[0]) then Some(0)
    else match FirstMatch(lines[1..], accepts)
      case None => None
      case Some(i) => Some(i + 1)
  }

  /** `re.sub` with a fixed replacement: every accepted line is replaced. */
  function Substitute(lines: seq<string>, accepts: string -> bool, replacement: string): (r: seq<string>)
    ensures |r| == |lines|
    ensures forall i :: 0 <= i < |lines| ==> r[i] == if accepts(lines[i]) then replacement else lines[i]
  {
    seq(|lines|, i requires 0 <= i < |lines| => if accepts(lines[i]) then replacement else lines[i])
  }

  // ---------------------------------------------------------------------
  // Detection (lines 86-97 and 128-131)

  /** The matched line and what it says. */
  datatype Detected =
    | FormatA(line: string, c: Components)
    | FormatB(line: string, seconds: nat)

  /** Format A is searched first; `;TIME:N` only when no Format A line exists. */
  function Detect(lines: seq<string>): Option<Detected>
  {
    match FirstMatch(lines, IsEstimateLine)
    case Some(i) => Some(FormatA(lines[i], ParseEstimateLine(lines[i]).value))
    case None =>
      match FirstMatch(lines, IsTimeTagLine)
      case Some(i) => Some(FormatB(lines[i], ParseTimeTag(lines[i]).value))
      case None => None
  }

  /** SLICER_TIME_ESTIMATED as the file gives it. */
  function SlicerSeconds(d: Detected): nat
  {
    match d
    case FormatA(_, c) => TotalSeconds(c)
    case FormatB(_, s) => s
  }

  // ---------------------------------------------------------------------
  // The cross-write (lines 116-118 and 156-157)

  /** The text every matching line is replaced with: Format A lines become
      `;TIME:S` followed by the first match; `;TIME:N` lines become the
      first match followed by the synthesised estimate line. */
  function CrossLine(d: Detected): string
  {
    match d
    case FormatA(line, c) => TimeTagLine(TotalSeconds(c)) + "\n" + line
    case FormatB(line, s) => line + "\n" + EstimateLine(Rendered(Decompose(s)))
  }

  /** The lines the detected format's pattern rewrites. */
  function Recogniser(d: Detected): string -> bool
  {
    match d
    case FormatA(_, _) => IsEstimateLine
    case FormatB(_, _) => IsTimeTagLine
  }

  function CrossWrite(lines: seq<string>, d: Detected): string
  {
    Join(Substitute(lines, Recogniser(d), CrossLine(d)), '\n')
  }

  // ---------------------------------------------------------------------
  // The marker (lines 218-221)

  const Marker := "ENABLE_BED_COOLDOWN"

  /** `^;\s*?ENABLE_BED_COOLDOWN\s*?$` on one line (case-sensitive). */
  predicate IsMarkerLine(line: string)
  {
    |line| >= 1 && line[0] == ';' &&
    var r := SkipSpace(line[1..]);
    Marker <= r && AllSpace(r[|Marker|..])
  }

  function ReplaceMarkers(text: string, command: string): string
  {
    Join(Substitute(Split(text, '\n'), IsMarkerLine, command), '\n')
  }

  // ---------------------------------------------------------------------
  // The whole script

  /** What the script prints at lines 170-171. */
  datatype Report = Report(formatted: string, seconds: nat)

  /** How the script ends and what the file then holds. */
  datatype Outcome =
    | Unrecognized(file: string)
    | Rejected(failure: Failure, file: string, report: Report)
    | Completed(file: string, report: Report, params: Params)

  /** formatted_time: the Format A branch echoes with its own formatter,
      the Format B branch synthesises the estimate. */
  function Formatted(d: Detected): string
  {
    match d
    case FormatA(_, c) => if SecondsOnly(c) then NatToString(c.seconds) else Rendered(c)
    case FormatB(_, s) => Rendered(Decompose(s))
  }

  /** PARAMS as the validation sees it: the overlay, with SLICER_TIME_ESTIMATED
      set from the file (lines 97 and 131). */
  function Timed(argv: seq<string>, d: Detected): (p: Params)
    ensures Complete(p) && p[SlicerTimeEstimated] == Int(SlicerSeconds(d))
  {
    Overlaid(argv)[SlicerTimeEstimated := Int(SlicerSeconds(d))]
  }

  /** The script on command-line arguments argv and file content. */
  function Expected(argv: seq<string>, content: string): Outcome
  {
    var lines := Split(content, '\n');
    match Detect(lines)
    case None => Unrecognized(content)
    case Some(d) =>
      var written := CrossWrite(lines, d);
      var report := Report(Formatted(d), SlicerSeconds(d));
      var params := Timed(argv, d);
      match Validated(params)
      case Failure(f) => Rejected(f, written, report)
      case Success(p) => Completed(ReplaceMarkers(written, EnableCommand(p)), report, p)
  }

  /** The script run step by step: overlay, detection, formatting,
      cross-write, validation, marker substitution. */
  method Run(argv: seq<string>, content: string) returns (outcome: Outcome)
    ensures outcome == Expected(argv, content)
  {
    var params := Overlay(argv);
    OverlaidOf(argv, params);
    var lines := Split(content, '\n');
    var detected := Detect(lines);
    if detected.None? {
      return Unrecognized(content);
    }
    var d := detected.value;
    var formatted;
    match d {
      case FormatA(_, c) =>
        formatted := EchoEstimate(c);
      case FormatB(_, s) =>
        formatted := FormatEstimate(Decompose(s));
    }
    params := params[SlicerTimeEstimated := Int(SlicerSeconds(d))];
    var written := CrossWrite(lines, d);
    var report := Report(formatted, SlicerSeconds(d));
    var validated := Validate(params);
    if validated.Failure? {
      return Rejected(validated.error, written, report);
    }
    outcome := Completed(ReplaceMarkers(written, EnableCommand(validated.value)), report, validated.value);
  }

  // ---------------------------------------------------------------------
  // Properties of detection

  lemma FirstMatchAt(lines: seq<string>, accepts: string -> bool, i: nat)
    requires i < |lines| && accepts(lines[i])
    requires forall j :: 0 <= j < i ==> !accepts(lines[j])
    ensures FirstMatch(lines, accepts) == Some(i)
  {
  }

  /** The first Format A line decides, wherever `;TIME:` lines are. */
  lemma DetectFormatA(lines: seq<string>, i: nat)
    requires i < |lines| && IsEstimateLine(lines[i])
    requires forall j :: 0 <= j < i ==> !IsEstimateLine(lines[j])
    ensures Detect(lines) == Some(FormatA(lines[i], ParseEstimateLine(lines[i]).value))
  {
    FirstMatchAt(lines, IsEstimateLine, i);
  }

  /** Without any Format A line, the first `;TIME:N` line decides. */
  lemma DetectFormatB(lines: seq<string>, i: nat)
    requires forall j :: 0 <= j < |lines| ==> !IsEstimateLine(lines[j])
    requires i < |lines| && IsTimeTagLine(lines[i])
    requires forall j :: 0 <= j < i ==> !IsTimeTagLine(lines[j])
    ensures Detect(lines) == Some(FormatB(lines[i], ParseTimeTag(lines[i]).value))
  {
    FirstMatchAt(lines, IsTimeTagLine, i);
  }

  /** Detection fails exactly when no line is in either format. */
  lemma DetectNone(lines: seq<string>)
    ensures Detect(lines).None? <==>
            forall j :: 0 <= j < |lines| ==> !IsEstimateLine(lines[j]) && !IsTimeTagLine(lines[j])
  {
    if exists j :: 0 <= j < |lines| && IsTimeTagLine(lines[j]) {
      assert FirstMatch(lines, IsTimeTagLine).Some?;
    }
  }

  lemma ExpectedUnrecognized(argv: seq<string>, content: string)
    ensures Expected(argv, content).Unrecognized? <==> Detect(Split(content, '\n')).None?
    ensures Expected(argv, content).Unrecognized? ==> Expected(argv, content).file == content
  {
  }

  /** The script stops with the file untouched exactly when no line is in
      either format. */
  lemma UnrecognizedIff(argv: seq<string>, content: string)
    ensures Expected(argv, content).Unrecognized? <==>
            forall j :: 0 <= j < |Split(content, '\n')| ==>
              !IsEstimateLine(Split(content, '\n')[j]) && !IsTimeTagLine(Split(content, '\n')[j])
    ensures Expected(argv, content).Unrecognized? ==> Expected(argv, content).file == content
  {
    ExpectedUnrecognized(argv, content);
    DetectNone(Split(content, '\n'));
  }

  /** The slicer time comes from the file alone: whatever the arguments
      say about SLICER_TIME_ESTIMATED, the report and the validated value
      are the file's. */
  lemma SlicerTimeFromFile(argv1: seq<string>, argv2: seq<string>, content: string)
    requires !Expected(argv1, content).Unrecognized? && !Expected(argv2, content).Unrecognized?
    ensures Expected(argv1, content).report == Expected(argv2, content).report
    ensures Expected(argv1, content).Completed? ==>
              Expected(argv1, content).params[SlicerTimeEstimated] == Int(Expected(argv1, content).report.seconds)
  {
    ExpectedUnrecognized(argv1, content);
    ExpectedReport(argv1, content);
    ExpectedReport(argv2, content);
  }

  /** Once a format is detected, the report is the detected time, and a
      successful run validates that time unchanged. */
  lemma ExpectedReport(argv: seq<string>, content: string)
    requires Detect(Split(content, '\n')).Some?
    ensures Expected(argv, content).report ==
            Report(Formatted(Detect(Split(content, '\n')).value), SlicerSeconds(Detect(Split(content, '\n')).value))
    ensures Expected(argv, content).Completed? ==>
              Expected(argv, content).params[SlicerTimeEstimated] == Int(SlicerSeconds(Detect(Split(content, '\n')).value))
  {
    var d := Detect(Split(content, '\n')).value;
    var params := Timed(argv, d);
    var r := Validated(params);
    if r.Success? {
      assert AsInt(params[SlicerTimeEstimated]) == Some(r.value[SlicerTimeEstimated].i);
    }
  }

  /** A successful run leaves valid parameters, and validation fails
      exactly when the overlaid parameters cannot be converted into valid
      ones; then the cross-write has already happened but no marker was
      replaced. */
  lemma ExpectedValidation(argv: seq<string>, content: string)
    requires !Expected(argv, content).Unrecognized?
    ensures Expected(argv, content).Completed? ==> Valid(Expected(argv, content).params)
    ensures Expected(argv, content).Rejected? <==>
              !exists q: Params :: Valid(q) && Converts(Timed(argv, Detect(Split(content, '\n')).value), q)
    ensures Expected(argv, content).Rejected? ==>
              Expected(argv, content).failure == InvalidParameters &&
              Expected(argv, content).file == CrossWrite(Split(content, '\n'), Detect(Split(content, '\n')).value)
  {
    ExpectedUnrecognized(argv, content);
    var d := Detect(Split(content, '\n')).value;
    var p := Timed(argv, d);
    if exists q: Params :: Valid(q) && Converts(p, q) {
      var q: Params :| Valid(q) && Converts(p, q);
      ValidatedComplete(p, q);
    }
  }

  // ---------------------------------------------------------------------
  // Properties of the cross-write

  /** The lines a matching line turns into. */
  function CrossLines(d: Detected): seq<string>
  {
    match d
    case FormatA(line, c) => [TimeTagLine(TotalSeconds(c)), line]
    case FormatB(line, s) => [line, EstimateLine(Rendered(Decompose(s)))]
  }

  lemma TimeTagLineOneLine(s: nat)
    ensures '\n' !in TimeTagLine(s)
  {
    assert forall i :: 0 <= i < |NatToString(s)| ==> NatToString(s)[i] != '\n';
  }

  lemma EstimateLineOneLine(c: Components)
    ensures '\n' !in EstimateLine(Rendered(c))
  {
    var ts := Tokens(c);
    forall i | 0 <= i < |ts| ensures '\n' !in ts[i] {
      var n := NatToString(Units(c)[ZeroPrefix(Units(c)) + i]);
      assert forall j :: 0 <= j < |n| ==> n[j] != '\n';
    }
    JoinFree(ts, ' ', '\n');
  }

  /** Both lines that replace a matched line state the same slicer time:
      the `;TIME:` value and the estimate line's duration are S. */
  lemma CrossLinesAgree(lines: seq<string>, d: Detected)
    requires Detect(lines) == Some(d)
    ensures ParseTimeTag(CrossLines(d)[0]) == Some(SlicerSeconds(d))
    ensures ParseEstimateLine(CrossLines(d)[1]).Some?
    ensures TotalSeconds(ParseEstimateLine(CrossLines(d)[1]).value) == SlicerSeconds(d)
  {
    match d
    case FormatA(line, c) =>
      TimeTagRoundTrip(TotalSeconds(c));
    case FormatB(line, s) =>
      EstimateLineRoundTrip(s);
  }

  /** The replacement text is the two cross lines, joined by a line break. */
  lemma CrossLineSplit(d: Detected)
    requires '\n' !in d.line
    ensures Split(CrossLine(d), '\n') == CrossLines(d)
  {
    var c := CrossLines(d);
    match d {
      case FormatA(line, cc) =>
        TimeTagLineOneLine(TotalSeconds(cc));
      case FormatB(line, s) =>
        EstimateLineOneLine(Decompose(s));
    }
    assert CrossLine(d) == c[0] + "\n" + c[1];
    SplitConcat(c[0], c[1], '\n');
    SplitOfPart(c[0], '\n');
    SplitOfPart(c[1], '\n');
  }

  /** Line by line, the cross-written file is the original with every
      line of the detected format replaced by its two cross lines, and
      every other line unchanged. */
  lemma {:induction false} CrossWriteLines(lines: seq<string>, d: Detected)
    requires |lines| >= 1
    requires forall i :: 0 <= i < |lines| ==> '\n' !in lines[i]
    requires d.line in lines
    ensures Split(CrossWrite(lines, d), '\n') ==
            Flatten(seq(|lines|, i requires 0 <= i < |lines| =>
                          if Recogniser(d)(lines[i]) then CrossLines(d) else [lines[i]]))
  {
    var accepts := Recogniser(d);
    var parts := Substitute(lines, accepts, CrossLine(d));
    SplitOfJoin(parts, '\n');
    CrossLineSplit(d);
    var c := CrossLines(d);
    forall i | 0 <= i < |lines|
      ensures Split(parts[i], '\n') == if accepts(lines[i]) then c else [lines[i]]
    {
      if !accepts(lines[i]) {
        SplitOfPart(lines[i], '\n');
      }
    }
    assert seq(|parts|, i requires 0 <= i < |parts| => Split(parts[i], '\n')) ==
           seq(|lines|, i requires 0 <= i < |lines| => if accepts(lines[i]) then c else [lines[i]]);
  }

  /** The detected line is one of the file's lines. */
  lemma DetectedLine(lines: seq<string>)
    requires Detect(lines).Some?
    ensures Detect(lines).value.line in lines
  {
  }

  // ---------------------------------------------------------------------
  // Properties of the marker substitution

  /** Line by line, every marker line becomes the command and every other
      line stays. */
  lemma ReplaceMarkersLines(text: string, command: string)
    requires '\n' !in command
    ensures Split(ReplaceMarkers(text, command), '\n') == Substitute(Split(text, '\n'), IsMarkerLine, command)
  {
    var parts := Substitute(Split(text, '\n'), IsMarkerLine, command);
    SplitJoin(parts, '\n');
  }

  /** The command a successful run writes leaves no marker line. */
  lemma NoMarkerLeft(text: string, p: Params)
    requires Valid(p)
    ensures forall l :: l in Split(ReplaceMarkers(text, EnableCommand(p)), '\n') ==> !IsMarkerLine(l)
  {
    EnableCommandShape(p);
    ReplaceMarkersLines(text, EnableCommand(p));
  }

  lemma ExpectedCompleted(argv: seq<string>, content: string)
    requires Expected(argv, content).Completed?
    ensures Valid(Expected(argv, content).params)
    ensures Expected(argv, content).file ==
            ReplaceMarkers(CrossWrite(Split(content, '\n'), Detect(Split(content, '\n')).value),
                           EnableCommand(Expected(argv, content).params))
  {
  }

  /** After a successful run no marker line is left, and each former
      marker line is the command, from which every validated value can be
      read back under its key. */
  lemma CompletedCommand(argv: seq<string>, content: string)
    requires Expected(argv, content).Completed?
    ensures forall l :: l in Split(Expected(argv, content).file, '\n') ==> !IsMarkerLine(l)
    ensures forall k: Key :: Command.Lookup(Split(EnableCommand(Expected(argv, content).params), ' '), Name(k)) ==
                             Some(Show(Expected(argv, content).params[k]))
  {
    ExpectedCompleted(argv, content);
    var o := Expected(argv, content);
    var p := o.params;
    var lines := Split(content, '\n');
    NoMarkerLeft(CrossWrite(lines, Detect(lines).value), p);
    forall k: Key ensures Command.Lookup(Split(EnableCommand(p), ' '), Name(k)) == Some(Show(p[k])) {
      EnableCommandRoundTrip(p, k);
    }
  }
}
