/** BedCooldown_CURA.py, `BedCooldown.execute`: the slicer time is taken
    from the `;TIME:` lines of the layers and an `INIT_BED_COOLDOWN`
    command, built from it and the host settings, is inserted after the
    `;LAYER:0` anchor. The layers are the list of strings the host passes;
    the host settings are parameters. */
module Cura {
  import opened Wrappers
  import opened Text
  import Command

  // ---------------------------------------------------------------------
  // str.splitlines()

  /** The characters str.splitlines() breaks at ("\r\n" counts as one break). */
  predicate IsLineBreak(c: char)
  {
    c == '\n' || c == '\r' || c == '\U{0B}' || c == '\U{0C}' || c == '\U{1C}' || c == '\U{1D}' ||
    c == '\U{1E}' || c == '\U{85}' || c == '\U{2028}' || c == '\U{2029}'
  }

  predicate NoLineBreak(s: string)
  {
    forall i :: 0 <= i < |s| ==> !IsLineBreak(s[i])
  }

  /** Length of the leading text without a line break. */
  function LineLength(s: string): (k: nat)
    ensures k <= |s| && NoLineBreak(s[..k])
    ensures k < |s| ==> IsLineBreak(s[k])
  {
    if s != [] && !IsLineBreak(s[0]) then
      var k := 1 + LineLength(s[1..]);
      assert s[..k] == [s[0]] + s[1..][..k - 1];
      k
    else 0
  }

  /** `s.splitlines()`: no part for an empty text and none after a final
      line break. */
  function SplitLines(s: string): (r: seq<string>)
    ensures forall i :: 0 <= i < |r| ==> NoLineBreak(r[i])
    decreases |s|
  {
    if s == [] then []
    else
      var k := LineLength(s);
      if k == |s| then [s]
      else
        var skip := if s[k] == '\r' && k + 1 < |s| && s[k + 1] == '\n' then 2 else 1;
        [s[..k]] + SplitLines(s[k + skip..])
  }

  /** A line ending splitlines() recognises: one break character, or "\r\n". */
  predicate IsLineEnd(eol: string)
  {
    (|eol| == 1 && IsLineBreak(eol[0])) || eol == "\r\n"
  }

  /** Lines each ended by eol, followed by a last line without an ending. */
  function Terminated(lines: seq<string>, eol: string, last: string): string
  {
    if lines == [] then last else lines[0] + eol + Terminated(lines[1..], eol, last)
  }

  /** splitlines() undoes writing lines out one per line ending, whether
      "\n", "\r\n" or another break, and whether or not the last line is
      ended; an empty last line gives no part. */
  lemma {:induction false} SplitLinesTerminated(lines: seq<string>, eol: string, last: string)
    requires IsLineEnd(eol)
    requires forall i :: 0 <= i < |lines| ==> NoLineBreak(lines[i])
    requires NoLineBreak(last)
    ensures SplitLines(Terminated(lines, eol, last)) == if last == [] then lines else lines + [last]
  {
    if lines == [] {
      if last != [] {
        assert LineLength(last) == |last|;
      }
    } else {
      var t := Terminated(lines[1..], eol, last);
      TerminatedStart(lines[1..], eol, last);
      SplitLinesStep(lines[0], eol, t);
      SplitLinesTerminated(lines[1..], eol, last);
      assert lines == [lines[0]] + lines[1..];
    }
  }

  /** One line and its ending split off the front. */
  lemma SplitLinesStep(l: string, eol: string, t: string)
    requires IsLineEnd(eol) && NoLineBreak(l)
    requires t == [] || !IsLineBreak(t[0]) || t[0] == eol[0]
    ensures SplitLines(l + eol + t) == [l] + SplitLines(t)
  {
    var s := l + eol + t;
    assert s == l + (eol + t);
    LineLengthOf(l, eol + t);
    assert s[|l|] == eol[0];
    assert eol == "\r\n" ==> s[|l| + 1] == '\n';
    assert s[|l| + |eol|..] == t;
    assert s[..|l|] == l;
  }

  /** The text after a line ending never starts with a '\n' that would
      fuse with a '\r' ending into one "\r\n" break. */
  lemma TerminatedStart(lines: seq<string>, eol: string, last: string)
    requires IsLineEnd(eol)
    requires forall i :: 0 <= i < |lines| ==> NoLineBreak(lines[i])
    requires NoLineBreak(last)
    ensures var t := Terminated(lines, eol, last);
            t == [] || !IsLineBreak(t[0]) || t[0] == eol[0]
  {
    if lines != [] && lines[0] == [] {
      assert Terminated(lines, eol, last) == eol + Terminated(lines[1..], eol, last);
    }
  }

  lemma {:induction false} LineLengthOf(l: string, t: string)
    requires NoLineBreak(l) && t != [] && IsLineBreak(t[0])
    ensures LineLength(l + t) == |l|
  {
    if l != [] {
      assert (l + t)[1..] == l[1..] + t;
      LineLengthOf(l[1..], t);
    }
  }

  // ---------------------------------------------------------------------
  // The time search: `(^;\s*TIME:\s*)(.*)`, case-insensitive

  /** The whole of group 2 when the line matches: the rest of the line
      after `;`, whitespace, `TIME:` in any case, and whitespace. */
  function TimeValue(line: string): (r: Option<string>)
    ensures r.Some? ==> |r.value| < |line|
  {
    if |line| >= 1 && line[0] == ';' then
      var a := 1 + SpaceRun(line[1..]);
      if a + 5 <= |line| && Lower(line[a..a + 5]) == "time:" then
        Some(SkipSpace(line[a + 5..]))
      else None
    else None
  }

  /** A `;TIME:` line gives back its value, whatever the case of `TIME`
      and the whitespace around it. */
  lemma TimeValueOf(ws1: string, tag: string, ws2: string, value: string)
    requires forall i :: 0 <= i < |ws1| ==> IsSpace(ws1[i])
    requires forall i :: 0 <= i < |ws2| ==> IsSpace(ws2[i])
    requires Lower(tag) == "time:"
    requires value == [] || !IsSpace(value[0])
    ensures TimeValue(";" + ws1 + tag + ws2 + value) == Some(value)
  {
    var line := ";" + ws1 + tag + ws2 + value;
    var head, tail := ";" + ws1, ws2 + value;
    assert line == head + tag + tail;
    assert line[1..] == ws1 + (tag + tail);
    assert |tag| == 5;
    SpaceRunOf(ws1, tag + tail);
    Concat3(head, tag, tail);
    SpaceRunOf(ws2, value);
    assert tail[|ws2|..] == value;
  }

  lemma {:induction false} SpaceRunOf(ws: string, t: string)
    requires forall i :: 0 <= i < |ws| ==> IsSpace(ws[i])
    requires t == [] || !IsSpace(t[0])
    ensures SpaceRun(ws + t) == |ws|
  {
    if ws != [] {
      assert (ws + t)[1..] == ws[1..] + t;
      SpaceRunOf(ws[1..], t);
    }
  }

  /** The shape of a `(^;\s*TIME:\s*)(.*)` line: `;`, whitespace, `TIME:`
      in any case, whitespace, and the value as group 2. Both `\s*` are
      greedy, so the value never starts with whitespace. */
  predicate TimeLine(line: string, ws1: string, tag: string, ws2: string, value: string)
  {
    line == ";" + ws1 + tag + ws2 + value &&
    AllSpace(ws1) && Lower(tag) == "time:" && AllSpace(ws2) &&
    (value == [] || !IsSpace(value[0]))
  }

  /** The recogniser gives a value exactly for the lines of that shape,
      and the value it gives is their group 2. */
  lemma TimeValueIff(line: string, value: string)
    ensures TimeValue(line) == Some(value) <==> exists ws1, tag, ws2 :: TimeLine(line, ws1, tag, ws2, value)
  {
    if TimeValue(line) == Some(value) {
      TimeLineOf(line);
    }
    if exists ws1, tag, ws2 :: TimeLine(line, ws1, tag, ws2, value) {
      var ws1, tag, ws2 :| TimeLine(line, ws1, tag, ws2, value);
      TimeValueOf(ws1, tag, ws2, value);
    }
  }

  lemma TimeLineOf(line: string)
    requires TimeValue(line).Some?
    ensures exists ws1, tag, ws2 :: TimeLine(line, ws1, tag, ws2, TimeValue(line).value)
  {
    var a := 1 + SpaceRun(line[1..]);
    var b := a + 5 + SpaceRun(line[a + 5..]);
    assert 1 <= a && a + 5 <= b <= |line| && line[0] == ';' && Lower(line[a..a + 5]) == "time:";
    assert line[b..] == TimeValue(line).value;
    SpaceRunAll(line[1..]);
    SpaceRunAll(line[a + 5..]);
    TimeSlices(line, a, b);
    assert TimeLine(line, line[1..a], line[a..a + 5], line[a + 5..b], line[b..]);
  }

  /** The pieces of a `;TIME:` line, cut at the ends of its two whitespace
      runs. */
  lemma TimeSlices(line: string, a: nat, b: nat)
    requires 1 <= a && a + 5 <= b <= |line| && line[0] == ';'
    requires AllSpace(line[1..][..a - 1]) && AllSpace(line[a + 5..][..b - a - 5])
    requires b < |line| ==> !IsSpace(line[a + 5..][b - a - 5])
    requires Lower(line[a..a + 5]) == "time:"
    ensures TimeLine(line, line[1..a], line[a..a + 5], line[a + 5..b], line[b..])
  {
    assert line[1..a] == line[1..][..a - 1];
    assert line[a + 5..b] == line[a + 5..][..b - a - 5];
    assert line[..a] == ";" + line[1..a];
    assert line[..a + 5] == line[..a] + line[a..a + 5];
    assert line[..b] == line[..a + 5] + line[a + 5..b];
    assert line == line[..b] + line[b..];
  }

  /** A layer's time: the value of its first matching line (the `break`). */
  function FirstTime(lines: seq<string>): (r: Option<string>)
    ensures r.Some? ==> exists j :: 0 <= j < |lines| && TimeValue(lines[j]) == r
    ensures r.None? ==> forall j :: 0 <= j < |lines| ==> TimeValue(lines[j]).None?
  {
    if lines == [] then None
    else if TimeValue(lines[0]).Some? then TimeValue(lines[0])
    else
      var r := FirstTime(lines[1..]);
      assert forall j :: 1 <= j < |lines| ==> lines[j] == lines[1..][j - 1];
      r
  }

  lemma {:induction false} FirstTimeAt(lines: seq<string>, j: nat)
    requires j < |lines| && TimeValue(lines[j]).Some?
    requires forall i :: 0 <= i < j ==> TimeValue(lines[i]).None?
    ensures FirstTime(lines) == TimeValue(lines[j])
  {
    if j > 0 {
      var tail := lines[1..];
      assert tail[j - 1] == lines[j];
      assert forall i :: 0 <= i < j - 1 ==> tail[i] == lines[i + 1];
      FirstTimeAt(tail, j - 1);
      assert TimeValue(lines[0]).None?;
    }
  }

  function LayerTime(layer: string): Option<string>
  {
    FirstTime(SplitLines(layer))
  }

  /** slicer_time after the nested loops: the time of the last layer that
      has one, None when no layer has. */
  function SlicerTime(layers: seq<string>): Option<string>
  {
    if layers == [] then None
    else if LayerTime(layers[|layers| - 1]).Some? then LayerTime(layers[|layers| - 1])
    else SlicerTime(layers[..|layers| - 1])
  }

  /** A later layer's time overrides an earlier one's. */
  lemma {:induction false} SlicerTimeLastWins(layers: seq<string>, i: nat)
    requires i < |layers| && LayerTime(layers[i]).Some?
    requires forall j :: i < j < |layers| ==> LayerTime(layers[j]).None?
    ensures SlicerTime(layers) == LayerTime(layers[i])
    decreases |layers|
  {
    if i < |layers| - 1 {
      var init := layers[..|layers| - 1];
      assert forall j :: i < j < |init| ==> init[j] == layers[j];
      SlicerTimeLastWins(init, i);
    }
  }

  /** One more layer: its time, if it has one, replaces the time so far. */
  lemma SlicerTimeStep(layers: seq<string>, layer: string)
    ensures SlicerTime(layers + [layer]) ==
            if LayerTime(layer).Some? then LayerTime(layer) else SlicerTime(layers)
  {
    var all := layers + [layer];
    assert all[|all| - 1] == layer;
    assert all[..|all| - 1] == layers;
  }

  /** No `;TIME:` line anywhere leaves the time None. */
  lemma {:induction false} SlicerTimeNone(layers: seq<string>)
    requires forall j :: 0 <= j < |layers| ==> LayerTime(layers[j]).None?
    ensures SlicerTime(layers) == None
    decreases |layers|
  {
    if layers != [] {
      var init := layers[..|layers| - 1];
      assert forall j :: 0 <= j < |init| ==> init[j] == layers[j];
      SlicerTimeNone(init);
    }
  }

  /** Lines 112-121: every layer is scanned line by line; the first
      matching line of a layer sets slicer_time and ends that layer's scan. */
  method FindSlicerTime(data: array<string>) returns (slicerTime: Option<string>)
    ensures slicerTime == SlicerTime(data[..])
  {
    slicerTime := None;
    for layerNumber := 0 to data.Length
      invariant slicerTime == SlicerTime(data[..layerNumber])
    {
      assert data[..layerNumber + 1] == data[..layerNumber] + [data[layerNumber]];
      SlicerTimeStep(data[..layerNumber], data[layerNumber]);
      var found := SearchLayer(data[layerNumber]);
      if found.Some? {
        slicerTime := found;
      }
    }
    assert data[..data.Length] == data[..];
  }

  /** The inner loop of lines 114-121 on one layer: the value of the first
      matching line, after which the scan of the layer stops. */
  method SearchLayer(layer: string) returns (found: Option<string>)
    ensures found == LayerTime(layer)
  {
    var lines := SplitLines(layer);
    found := None;
    var lineNumber := 0;
    while lineNumber < |lines|
      invariant 0 <= lineNumber <= |lines|
      invariant forall j :: 0 <= j < lineNumber ==> TimeValue(lines[j]).None?
    {
      var time := TimeValue(lines[lineNumber]);
      if time.Some? {
        FirstTimeAt(lines, lineNumber);
        found := time;
        return;
      }
      lineNumber := lineNumber + 1;
    }
  }

  // ---------------------------------------------------------------------
  // The command (line 125)

  /** The values `getSettingValueByKey` yields for the script's settings. */
  datatype HostSettings = HostSettings(
    elapsed: int, remain: int, progress: int, progressType: string, temperature: int, debug: bool)

  /** Python's str() of the slicer time. */
  function ShowTime(t: Option<string>): string
  {
    match t
    case None => "None"
    case Some(v) => v
  }

  /** Python's str() of a bool. */
  function ShowBool(b: bool): string
  {
    if b then "True" else "False"
  }

  function CommandValues(t: Option<string>, s: HostSettings): seq<string>
  {
    [ShowTime(t), IntToString(s.elapsed), IntToString(s.remain), IntToString(s.progress),
     s.progressType, IntToString(s.temperature), ShowBool(s.debug)]
  }

  const CommandName := "INIT_BED_COOLDOWN"

  function InitCommand(t: Option<string>, s: HostSettings): string
  {
    Command.Render(CommandName, Command.ParameterNames, CommandValues(t, s))
  }

  /** The command is the name and the seven `KEY=value` words in the fixed
      order; a reader finds each value under its name, a missing slicer
      time as `None`. */
  lemma InitCommandRoundTrip(t: Option<string>, s: HostSettings, i: nat)
    requires i < 7
    requires ' ' !in ShowTime(t) && ' ' !in s.progressType
    ensures Split(InitCommand(t, s), ' ') == Command.Words(CommandName, Command.ParameterNames, CommandValues(t, s))
    ensures Split(InitCommand(t, s), ' ')[0] == CommandName
    ensures Command.Lookup(Split(InitCommand(t, s), ' '), Command.ParameterNames[i]) == Some(CommandValues(t, s)[i])
  {
    var vs := CommandValues(t, s);
    IntToStringChars(s.elapsed);
    IntToStringChars(s.remain);
    IntToStringChars(s.progress);
    IntToStringChars(s.temperature);
    assert forall j :: 0 <= j < 7 ==> ' ' !in vs[j];
    Command.ParameterNamesWellFormed();
    Command.RenderRoundTrip(CommandName, Command.ParameterNames, vs, i);
  }

  /** The integer settings appear as numerals that parse back to them. */
  lemma InitCommandIntegers(t: Option<string>, s: HostSettings)
    ensures ParseInt(CommandValues(t, s)[1]) == Some(s.elapsed)
    ensures ParseInt(CommandValues(t, s)[2]) == Some(s.remain)
    ensures ParseInt(CommandValues(t, s)[3]) == Some(s.progress)
    ensures ParseInt(CommandValues(t, s)[5]) == Some(s.temperature)
  {
    IntRoundTrip(s.elapsed);
    IntRoundTrip(s.remain);
    IntRoundTrip(s.progress);
    IntRoundTrip(s.temperature);
  }

  // ---------------------------------------------------------------------
  // The layer-0 rewrite (lines 126-131): `(^;\s*LAYER:\s*0)`, case-insensitive,
  // anchored at the start of the layer text only

  /** The length of the anchor at the start of the layer, or 0. */
  function AnchorLength(layer: string): (n: nat)
    ensures n <= |layer|
  {
    if |layer| >= 1 && layer[0] == ';' then
      var a := 1 + SpaceRun(layer[1..]);
      if a + 6 <= |layer| && Lower(layer[a..a + 6]) == "layer:" then
        var b := a + 6 + SpaceRun(layer[a + 6..]);
        if b < |layer| && layer[b] == '0' then b + 1 else 0
      else 0
    else 0
  }

  /** `;LAYER:0`, a line break and the command. */
  function InsertString(command: string): string
  {
    ";LAYER:0\n" + command
  }

  /** re.sub on one layer: the anchor, if the layer starts with one, is
      replaced; nothing else changes. */
  function Rewrite(layer: string, insert: string): string
  {
    var n := AnchorLength(layer);
    if n > 0 then insert + layer[n..] else layer
  }

  /** The layers execute returns. */
  function Executed(layers: seq<string>, s: HostSettings): (r: seq<string>)
    ensures |r| == |layers|
  {
    var insert := InsertString(InitCommand(SlicerTime(layers), s));
    seq(|layers|, i requires 0 <= i < |layers| => Rewrite(layers[i], insert))
  }

  /** Lines 130-131: each layer of the list is overwritten in place. */
  method InsertCommand(data: array<string>, insert: string)
    modifies data
    ensures forall i :: 0 <= i < data.Length ==> data[i] == Rewrite(old(data[i]), insert)
  {
    for layerNumber := 0 to data.Length
      invariant forall i :: 0 <= i < layerNumber ==> data[i] == Rewrite(old(data[i]), insert)
      invariant forall i :: layerNumber <= i < data.Length ==> data[i] == old(data[i])
    {
      data[layerNumber] := Rewrite(data[layerNumber], insert);
    }
  }

  /** `execute`: search, assemble, insert; the same list is returned. */
  method Execute(data: array<string>, s: HostSettings) returns (result: array<string>)
    modifies data
    ensures result == data
    ensures data[..] == Executed(old(data[..]), s)
  {
    var slicerTime := FindSlicerTime(data);
    var command := InitCommand(slicerTime, s);
    var insert := InsertString(command);
    ghost var layers := data[..];
    InsertCommand(data, insert);
    assert data[..] == Executed(layers, s);
    result := data;
  }

  // ---------------------------------------------------------------------
  // Properties of the rewrite

  /** A layer without the anchor at its very start is returned unchanged;
      one with it has exactly the anchor replaced by `;LAYER:0`, a line
      break and the command, and the remainder kept. */
  lemma ExecutedLayers(layers: seq<string>, s: HostSettings, i: nat)
    requires i < |layers|
    ensures AnchorLength(layers[i]) == 0 ==> Executed(layers, s)[i] == layers[i]
    ensures AnchorLength(layers[i]) > 0 ==>
              Executed(layers, s)[i] ==
              ";LAYER:0\n" + InitCommand(SlicerTime(layers), s) + layers[i][AnchorLength(layers[i])..]
  {
  }

  /** The anchor in any case and with any whitespace is recognised. */
  lemma AnchorLengthOf(ws1: string, tag: string, ws2: string, rest: string)
    requires forall i :: 0 <= i < |ws1| ==> IsSpace(ws1[i])
    requires forall i :: 0 <= i < |ws2| ==> IsSpace(ws2[i])
    requires Lower(tag) == "layer:"
    ensures AnchorLength(";" + ws1 + tag + ws2 + "0" + rest) == |ws1| + |ws2| + 8
  {
    var layer := ";" + ws1 + tag + ws2 + "0" + rest;
    var head, tail := ";" + ws1, ws2 + ("0" + rest);
    assert layer == head + tag + tail;
    assert layer[1..] == ws1 + (tag + tail);
    assert |tag| == 6;
    SpaceRunOf(ws1, tag + tail);
    Concat3(head, tag, tail);
    SpaceRunOf(ws2, "0" + rest);
    assert tail[|ws2|] == '0';
  }

  /** A layer that starts with `;`, whitespace, `LAYER:` in any case,
      whitespace and `0`, followed by rest. */
  predicate AnchorShape(layer: string, ws1: string, tag: string, ws2: string, rest: string)
  {
    layer == ";" + ws1 + tag + ws2 + "0" + rest &&
    AllSpace(ws1) && Lower(tag) == "layer:" && AllSpace(ws2)
  }

  /** The anchor is found exactly in the layers of that shape, and what
      follows it is the rest of the layer. */
  lemma AnchorLengthIff(layer: string)
    ensures AnchorLength(layer) > 0 <==> exists ws1, tag, ws2, rest :: AnchorShape(layer, ws1, tag, ws2, rest)
    ensures forall ws1, tag, ws2, rest :: AnchorShape(layer, ws1, tag, ws2, rest) ==>
              AnchorLength(layer) == |ws1| + |ws2| + 8 && layer[AnchorLength(layer)..] == rest
  {
    forall ws1, tag, ws2, rest | AnchorShape(layer, ws1, tag, ws2, rest)
      ensures AnchorLength(layer) == |ws1| + |ws2| + 8 && layer[AnchorLength(layer)..] == rest
    {
      AnchorShapeLength(layer, ws1, tag, ws2, rest);
    }
    if AnchorLength(layer) > 0 {
      AnchorShapeOf(layer);
    }
  }

  lemma AnchorShapeLength(layer: string, ws1: string, tag: string, ws2: string, rest: string)
    requires AnchorShape(layer, ws1, tag, ws2, rest)
    ensures AnchorLength(layer) == |ws1| + |ws2| + 8 && layer[AnchorLength(layer)..] == rest
  {
    AnchorLengthOf(ws1, tag, ws2, rest);
    assert layer[|ws1| + |ws2| + 8..] == rest;
  }

  lemma AnchorShapeOf(layer: string)
    requires AnchorLength(layer) > 0
    ensures exists ws1, tag, ws2, rest :: AnchorShape(layer, ws1, tag, ws2, rest)
  {
    var a := 1 + SpaceRun(layer[1..]);
    var b := a + 6 + SpaceRun(layer[a + 6..]);
    assert 1 <= a && a + 6 <= b < |layer| && layer[0] == ';' && Lower(layer[a..a + 6]) == "layer:" && layer[b] == '0';
    SpaceRunAll(layer[1..]);
    SpaceRunAll(layer[a + 6..]);
    AnchorSlices(layer, a, b);
    assert AnchorShape(layer, layer[1..a], layer[a..a + 6], layer[a + 6..b], layer[b + 1..]);
  }

  /** The pieces of an anchored layer, cut at the ends of its two
      whitespace runs. */
  lemma AnchorSlices(layer: string, a: nat, b: nat)
    requires 1 <= a && a + 6 <= b < |layer| && layer[0] == ';'
    requires AllSpace(layer[1..][..a - 1]) && AllSpace(layer[a + 6..][..b - a - 6])
    requires Lower(layer[a..a + 6]) == "layer:" && layer[b] == '0'
    ensures AnchorShape(layer, layer[1..a], layer[a..a + 6], layer[a + 6..b], layer[b + 1..])
  {
    assert layer[1..a] == layer[1..][..a - 1];
    assert layer[a + 6..b] == layer[a + 6..][..b - a - 6];
    assert layer[..a] == ";" + layer[1..a];
    assert layer[..a + 6] == layer[..a] + layer[a..a + 6];
    assert layer[..b] == layer[..a + 6] + layer[a + 6..b];
    assert layer[..b + 1] == layer[..b] + "0";
    assert layer == layer[..b + 1] + layer[b + 1..];
  }

  lemma AnchorAtStart(rest: string)
    ensures AnchorLength(";LAYER:0" + rest) == 8
  {
    assert Lower("LAYER:") == "layer:";
    AnchorLengthOf("", "LAYER:", "", rest);
    assert ";" + "" + "LAYER:" + "" + "0" + rest == ";LAYER:0" + rest;
  }

  lemma RewriteAnchored(layer: string, insert: string)
    requires AnchorLength(layer) > 0
    ensures Rewrite(layer, insert) == insert + layer[AnchorLength(layer)..]
  {
  }

  /** The rewritten layer still starts with the anchor: running the script
      again inserts a second command. */
  lemma RewriteKeepsAnchor(layer: string, command: string)
    requires AnchorLength(layer) > 0
    ensures AnchorLength(Rewrite(layer, InsertString(command))) == 8
  {
    var n := AnchorLength(layer);
    var rest := "\n" + command + layer[n..];
    RewriteAnchored(layer, InsertString(command));
    assert InsertString(command) + layer[n..] == ";LAYER:0" + rest;
    AnchorAtStart(rest);
  }
}
