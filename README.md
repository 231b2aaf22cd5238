# KlipperBedCooldown post-processors, modelled in Dafny

KlipperBedCooldown has two G-code post-processors. Both insert a Klipper macro call that turns the heated bed down near the end of a print.

- **BedCooldown_ORCA.py** is a command-line script for OrcaSlicer.
  - It reads the slicer's print-time estimate from the G-code file, in either of two notations:
    - Format A, `; estimated printing time (normal mode) = 1d 15h 43m 23s`, where every unit group is optional;
    - Format B, `;TIME:143003`.
  - It converts the estimate into seconds and writes the other notation back next to every matching line.
  - It builds the parameter dictionary `PARAMS` from defaults overlaid by `KEY=value` arguments, and validates it.
  - It replaces every `;ENABLE_BED_COOLDOWN` marker line with an `ENABLE_BED_COOLDOWN KEY=value …` command.
- **BedCooldown_CURA.py**, `BedCooldown.execute`, is a Cura post-processing script.
  - It scans the layer strings for `;TIME:` and keeps the value of the first match in each layer. A later layer overrides an earlier one.
  - It builds an `INIT_BED_COOLDOWN …` command from that value and the host settings.
  - It rewrites every layer that starts with `;LAYER:0` so that the command follows the anchor. The same list is returned.

The project is built from these modules:

| file | module | what it holds |
|---|---|---|
| `wrappers.dfy` | `Wrappers` | `Option` and `Result` |
| `text.dfy` | `Text` | Python's `\d`, `\s`, `lower()`, `in`, `str(int)` and `int(str)` on strings; `split`/`join` on one separator, with their inverse lemmas |
| `command.dfy` | `Command` | the `NAME KEY=value …` line both scripts emit; how a reader finds a key in it again |
| `duration.dfy` | `Duration` | Format A and Format B line recognisers; the days/hours/minutes/seconds arithmetic; both duration formatters |
| `orca_params.dfy` | `OrcaParams` | the `PARAMS` overlay, the validation, the `ENABLE_BED_COOLDOWN` command |
| `orca_script.dfy` | `OrcaScript` | detection, the cross-write, the marker substitution, and the whole ORCA script (`Expected`, `Run`) |
| `cura.dfy` | `Cura` | `execute`: the time search, the `INIT_BED_COOLDOWN` command and the layer-0 rewrite |

Each regular expression is a hand-written recogniser for that one pattern. A `re.MULTILINE` pattern (`^…$`) is applied to the `'\n'`-separated lines of the text (`Text.Split`). `re.search` becomes `OrcaScript.FirstMatch`, and `re.sub` with a fixed replacement becomes `OrcaScript.Substitute`.

How each part is modelled:

- **Imperative parts are imperative here.**
  - `PARAMS` is mutated by nested loops: `OrcaParams.Overlay` and `OrcaParams.OverlayKey`.
  - `PARAMS` is also checked and converted step by step: `OrcaParams.Validate`.
  - `formatted_time` is built by conditional appends: `Duration.FormatEstimate` and `Duration.EchoEstimate`.
  - CURA's nested search loops with `break` are `Cura.FindSlicerTime` and `Cura.SearchLayer`.
  - CURA's in-place overwrite of the layer list is `Cura.InsertCommand` and `Cura.Execute`, on an `array<string>`.
- **Each method is proved against a function.** `OverlayValue`, `Validated`, `Rendered`, `SlicerTime`, `Executed` and `Expected` are those functions, and the lemmas state the properties of each.
- **The ORCA script as a whole** is `OrcaScript.Expected(argv, content)`. It has three outcomes:
  - `Unrecognized` (the exit at line 167, file untouched);
  - `Rejected` (the exit at line 208, after the cross-write has already been written);
  - `Completed` (the marker substitution).

  `OrcaScript.Run` computes the same outcome step by step.

Facts about the code that the model keeps:

- The Format A search at BedCooldown_ORCA.py:89 passes only `re.MULTILINE`. So Format A is case-sensitive.
- The substitutions at lines 118 and 157 replace *every* line of the detected format with the cross lines built from the first match (`match.group()` in the templates at lines 117 and 156). In the Format B branch, for example, a second `;TIME:` line with a different number becomes a copy of the first, followed by the estimate line.
- The cross-written file is written at lines 122 and 161, before validation at lines 179-208. A run that then fails validation leaves the cross-written file behind.
- The f-string at BedCooldown_CURA.py:125 formats the boolean `debug` setting as `True`/`False`.
- By the arithmetic at BedCooldown_ORCA.py:97, `1d 15h 43m 23s` totals 143003 seconds (`Duration.ExampleEstimate`).

## Model

| member | source | states |
|---|---|---|
| OrcaParams.Overlaid | BedCooldown_ORCA.py:46-57 | PARAMS after the overlay has every key; a key's last mentioning argument, with `-*KEY=` removed, is its value; a key no argument mentions keeps its default |
| OrcaParams.OverlayValue | BedCooldown_ORCA.py:55-57 | one key's value after the inner loop; characterised by OverlayLastWins (the last mentioning argument, stripped, decides), OverlayDefault (no mention keeps the default) and OverlayAssignment |
| OrcaParams.StripAssignment | BedCooldown_ORCA.py:57 | the `re.sub` never lengthens its argument; characterised by StripAssignmentOf (`--key=value` gives `value`) and StripAssignmentAbsent (text without `key=` is unchanged) |
| OrcaParams.Overlay | BedCooldown_ORCA.py:54-57 | the outer loop over the keys leaves a complete map whose every key holds its overlay value |
| OrcaParams.OverlayKey | BedCooldown_ORCA.py:55-57 | the inner loop over sys.argv, from the key's default, ends with the key's overlay value |
| OrcaParams.OverlayLastWins | BedCooldown_ORCA.py:55-57 | the last argument that mentions a key (case-insensitively) decides its value: that argument with `-*KEY=` removed |
| OrcaParams.OverlayDefault | BedCooldown_ORCA.py:46-57 | a key that no argument mentions keeps its default |
| OrcaParams.OverlayAssignment | BedCooldown_ORCA.py:55-57 | a last argument `--key=value` (any dashes, key in any case) sets the key to exactly `value` |
| OrcaParams.StripAssignmentOf | BedCooldown_ORCA.py:57 | `re.sub('-*key=', '', arg, IGNORECASE)` on `-*KEY=value` leaves `value`, unless `value` holds another `key=` |
| OrcaParams.StripAssignmentAbsent | BedCooldown_ORCA.py:57 | a text with no `key=` in it (ignoring case) is left as it is by the substitution |
| OrcaParams.OverlaidOf | BedCooldown_ORCA.py:54-57 | any complete map with every key at its overlay value is exactly the overlaid PARAMS |
| OrcaParams.Validated | BedCooldown_ORCA.py:179-208 | success yields valid parameters: non-negative integers, PROGRESS_THRESHOLD at most 100, TARGET_TEMP at most 85, lower-cased option words; they are the int()/lower() conversions of the input |
| OrcaParams.ValidatedComplete | BedCooldown_ORCA.py:179-205 | conversely, an integer slicer time and values that convert into valid parameters always pass, with exactly those values |
| OrcaParams.ValidatedIdempotent | BedCooldown_ORCA.py:182-205 | validating the validated parameters again changes nothing |
| OrcaParams.ValidatedDefaults | BedCooldown_ORCA.py:46-52 | the defaults with any non-negative slicer time pass validation |
| OrcaParams.EnableCommand | BedCooldown_ORCA.py:219 | the `ENABLE_BED_COOLDOWN` line built from the parameters; characterised by EnableCommandRoundTrip (each value is read back under its own name) and EnableCommandShape (one line starting with the command name) |
| OrcaParams.Validate | BedCooldown_ORCA.py:179-205 | the checks in source order, stopping at the first failure, give the same result as `Validated` |
| OrcaParams.EnableCommandRoundTrip | BedCooldown_ORCA.py:219 | the command is `ENABLE_BED_COOLDOWN` and the seven `KEY=value` words in the fixed order; each key reads back its validated value; integer values parse back to the integers |
| OrcaParams.EnableCommandShape | BedCooldown_ORCA.py:219 | the command is one line starting with `E`, so never a marker line |
| Command.RenderRoundTrip | BedCooldown_ORCA.py:219 | splitting a rendered command at spaces gives back its words; the first word is the name; each distinct key finds its own value |
| Command.RenderOneLine | BedCooldown_ORCA.py:219 | a rendered command starts with its name and has no line break |
| Duration.Decompose | BedCooldown_ORCA.py:134-137 | the split of S has hours < 24, minutes < 60, seconds < 60, and d·86400 + h·3600 + m·60 + s = S |
| Duration.DecomposeUnique | BedCooldown_ORCA.py:134-137 | the split is the only one with those bounds |
| Duration.DecomposeTotal | BedCooldown_ORCA.py:97 | decomposing a bounded split's total gives the split back |
| Duration.RenderedCases | BedCooldown_ORCA.py:140-154 | the unit rule: output starts at the highest non-zero unit; every lower unit follows, even when 0; the empty string for 0 |
| Duration.FormatEstimate | BedCooldown_ORCA.py:140-154 | the Format B formatter's conditional appends produce exactly the unit-rule rendering |
| Duration.EchoEstimate | BedCooldown_ORCA.py:99-114 | the Format A echo follows the unit rule, except that a seconds-only value is the bare number |
| Duration.EchoSecondsOnlyNotReparsable | BedCooldown_ORCA.py:114 | that bare-number echo is not a duration the Format A pattern accepts |
| Duration.ParseRendered | BedCooldown_ORCA.py:86 | the Format A duration pattern reads every rendering back as its components, including the empty rendering |
| Duration.ParseDuration | BedCooldown_ORCA.py:86 | the duration part of the Format A pattern with groups 1-4 read as numbers, a missing group as 0; characterised by ParseDurationIff and ParseRendered |
| Duration.ParseDurationIff | BedCooldown_ORCA.py:86-94 | a duration text gives components c exactly when it is the four optional groups `Nd`, `Nh`, `Nm`, `Ns` in that order, each empty or digits then its unit letter with value the digits' number, separated by whitespace runs |
| Duration.ParseEstimateLine | BedCooldown_ORCA.py:86 | a match implies the line starts with `; estimated printing time (normal mode) = `; characterised by ParseEstimateLineIff and ParseEstimateLineOf |
| Duration.ParseEstimateLineIff | BedCooldown_ORCA.py:86 | a line is a Format A line with components c exactly when it is the fixed prefix followed by a duration text for c as in ParseDurationIff |
| Duration.ParseTimeTag | BedCooldown_ORCA.py:128 | a match implies the line is `;TIME:` and at least one more character; characterised by TimeTagRoundTrip and ExampleTimeTagValue |
| Duration.Tokens | BedCooldown_ORCA.py:140-154 | one token per unit from the highest non-zero unit down to seconds; characterised by ZeroPrefixUnits and RenderedCases |
| Duration.Rendered | BedCooldown_ORCA.py:140-154 | the Format B formatter's text; characterised by RenderedCases (which units appear) and ParseRendered (the Format A pattern reads it back) |
| Duration.EstimateLineRoundTrip | BedCooldown_ORCA.py:156 | the estimate line synthesised for any S is a Format A line whose components total S |
| Duration.ParseEstimateLineOf | BedCooldown_ORCA.py:86 | a synthesised estimate line is recognised exactly when its duration text is |
| Duration.TimeTagRoundTrip | BedCooldown_ORCA.py:117 | the `;TIME:S` line synthesised from S is a Format B line with value S |
| Duration.FormatsExclusive | BedCooldown_ORCA.py:86 | no line is both a Format A and a Format B line |
| Duration.ExampleTimeTagValue | BedCooldown_ORCA.py:128-131 | `;TIME:17677` reads as 17677 |
| Duration.ExampleTimeTagSplit | BedCooldown_ORCA.py:134-137 | 17677 seconds split into 0d 4h 54m 37s |
| Duration.ExampleTimeTagRendered | BedCooldown_ORCA.py:140-154 | 0d 4h 54m 37s renders as `4h 54m 37s` |
| Duration.ExampleEstimate | BedCooldown_ORCA.py:91-97 | `1d 15h 43m 23s` is the rendering of those components, and they total 143003 seconds |
| Duration.ExampleFullDaySplit | BedCooldown_ORCA.py:134-137 | 86400 seconds are 1d 0h 0m 0s |
| Duration.ExampleFullDayRendered | BedCooldown_ORCA.py:140-154 | one full day renders as `1d 0h 0m 0s` |
| Duration.ExampleZeroRendered | BedCooldown_ORCA.py:140-154 | zero renders as the empty string |
| Duration.ExampleSparseDuration | BedCooldown_ORCA.py:86-94 | `1h 5s` reads as 0d 1h 0m 5s: missing groups count as 0 |
| Duration.ExampleMinutesOnly | BedCooldown_ORCA.py:86-94 | `13m` reads as 13 minutes and nothing else |
| OrcaScript.FirstMatch | BedCooldown_ORCA.py:89 | `re.search` gives the first accepted line, or none when no line is accepted |
| OrcaScript.Detect | BedCooldown_ORCA.py:86-131 | Format A first, then Format B; characterised by DetectFormatA, DetectFormatB and DetectNone |
| OrcaScript.DetectFormatA | BedCooldown_ORCA.py:86-97 | the first Format A line decides, wherever `;TIME:` lines are |
| OrcaScript.DetectFormatB | BedCooldown_ORCA.py:125-131 | only without any Format A line does the first `;TIME:N` line decide |
| OrcaScript.DetectNone | BedCooldown_ORCA.py:125-131 | detection fails exactly when no line is in either format |
| OrcaScript.UnrecognizedIff | BedCooldown_ORCA.py:166-167 | the script stops with the file untouched exactly when no line is in either format |
| OrcaScript.SlicerTimeFromFile | BedCooldown_ORCA.py:97 | whatever the arguments, the report and the validated SLICER_TIME_ESTIMATED are the file's time |
| OrcaScript.ExpectedReport | BedCooldown_ORCA.py:170-171 | once a format is detected, the printed formatted time and seconds are the detected ones |
| OrcaScript.ExpectedValidation | BedCooldown_ORCA.py:179-208 | success leaves valid parameters; the run is rejected exactly when the overlaid parameters with the file's time have no valid conversion; a rejection is an invalid parameter, with the cross-written file kept and no marker replaced |
| OrcaScript.CrossLinesAgree | BedCooldown_ORCA.py:117 | both lines that replace a matched line state the same time: `;TIME:S` reads S and the estimate line totals S |
| OrcaScript.CrossLineSplit | BedCooldown_ORCA.py:156 | the replacement text is exactly two lines |
| OrcaScript.CrossLine | BedCooldown_ORCA.py:117 | the replacement text of either branch (`subst` at lines 117 and 156); characterised by CrossLinesAgree and CrossLineSplit |
| OrcaScript.CrossWrite | BedCooldown_ORCA.py:118 | the `re.sub` of lines 118 and 157 over the lines of the file; characterised by CrossWriteLines |
| OrcaScript.CrossWriteLines | BedCooldown_ORCA.py:117-118 | line by line: each line of the detected format becomes the two cross lines; every other line is unchanged |
| OrcaScript.IsMarkerLine | BedCooldown_ORCA.py:218 | the marker pattern on one line; characterised by NoMarkerLeft and CompletedCommand |
| OrcaScript.ReplaceMarkers | BedCooldown_ORCA.py:221 | the marker substitution over the lines of the file; characterised by ReplaceMarkersLines and NoMarkerLeft |
| OrcaScript.ReplaceMarkersLines | BedCooldown_ORCA.py:218-221 | line by line: every marker line becomes the command; every other line is unchanged |
| OrcaScript.NoMarkerLeft | BedCooldown_ORCA.py:218-221 | after the substitution with a valid command, no marker line remains |
| OrcaScript.ExpectedCompleted | BedCooldown_ORCA.py:213-221 | a completed run writes the cross-written text with its markers replaced by the command of the validated parameters |
| OrcaScript.CompletedCommand | BedCooldown_ORCA.py:218-221 | after a completed run no marker is left, and every validated value can be read back from the command under its key |
| OrcaScript.Expected | BedCooldown_ORCA.py:54-221 | what a run of the script ends with; characterised by ExpectedUnrecognized, UnrecognizedIff, SlicerTimeFromFile, ExpectedReport, ExpectedValidation and ExpectedCompleted, and implemented by Run |
| OrcaScript.Run | BedCooldown_ORCA.py:54-221 | the script's steps (overlay, detection, formatting, cross-write, validation, marker substitution) give the specified outcome |
| Cura.SplitLines | BedCooldown_CURA.py:114 | `str.splitlines()` yields parts without any line-break character |
| Cura.SplitLinesTerminated | BedCooldown_CURA.py:114 | `splitlines()` gives back lines written with any one ending (`\n`, `\r\n` or another break), whether or not the last line is ended |
| Cura.TimeValueOf | BedCooldown_CURA.py:105-120 | a line `;`, whitespace, `TIME:` in any case, whitespace, value gives group 2 = value, as a string |
| Cura.TimeValueIff | BedCooldown_CURA.py:105-120 | a line yields a value exactly when it has that shape, and the value is its group 2, never starting with whitespace |
| Cura.TimeValue | BedCooldown_CURA.py:116-120 | group 2 of `(^;\s*TIME:\s*)(.*)` is shorter than the line; characterised by TimeValueOf and TimeValueIff |
| Cura.FirstTime | BedCooldown_CURA.py:114-121 | a layer's time is the value of some matching line; it is none when no line matches |
| Cura.FirstTimeAt | BedCooldown_CURA.py:114-121 | the `break`: the first matching line of a layer decides |
| Cura.LayerTime | BedCooldown_CURA.py:114-121 | the inner loop over one layer's `splitlines()`; characterised by FirstTime, FirstTimeAt and SearchLayer |
| Cura.SlicerTime | BedCooldown_CURA.py:112-121 | `slicer_time` after both loops; characterised by SlicerTimeLastWins, SlicerTimeNone and FindSlicerTime |
| Cura.SlicerTimeLastWins | BedCooldown_CURA.py:113-121 | the last layer that has a time decides |
| Cura.SlicerTimeNone | BedCooldown_CURA.py:112-121 | with no match anywhere the time stays None |
| Cura.SearchLayer | BedCooldown_CURA.py:114-121 | the line loop with its `break` returns the layer's first time |
| Cura.FindSlicerTime | BedCooldown_CURA.py:112-121 | the nested loops leave the time of the last layer that has one |
| Cura.InitCommandRoundTrip | BedCooldown_CURA.py:125 | the command is `INIT_BED_COOLDOWN` and the seven `KEY=value` words in the fixed order; each value reads back under its name (None as `None`) |
| Cura.InitCommandIntegers | BedCooldown_CURA.py:125 | the elapsed, remain, progress and temperature words are numerals of those integers |
| Cura.InitCommand | BedCooldown_CURA.py:125 | the `INIT_BED_COOLDOWN` line; characterised by InitCommandRoundTrip and InitCommandIntegers |
| Command.ParameterNamesWellFormed | BedCooldown_CURA.py:125 | the seven names both commands use hold no space, `=` or line break, and are distinct |
| Cura.AnchorLengthOf | BedCooldown_CURA.py:107-108 | the anchor `;`, whitespace, `LAYER:` in any case, whitespace, `0` is recognised with its whole length |
| Cura.AnchorLengthIff | BedCooldown_CURA.py:107-108 | the anchor is found exactly in layers that start with that shape, and what follows it is the rest of the layer |
| Cura.AnchorLength | BedCooldown_CURA.py:107 | the anchor found never runs past the layer; characterised by AnchorLengthOf and AnchorLengthIff |
| Cura.ExecutedLayers | BedCooldown_CURA.py:126-131 | a layer without the anchor at its start is unchanged; one with it has the anchor replaced by `;LAYER:0`, a line feed and the command, the rest kept |
| Cura.RewriteKeepsAnchor | BedCooldown_CURA.py:126-131 | a rewritten layer starts with the anchor again, so a second run inserts a second command |
| Cura.Rewrite | BedCooldown_CURA.py:131 | `re.sub` on one layer; characterised by ExecutedLayers and RewriteKeepsAnchor |
| Cura.Executed | BedCooldown_CURA.py:126-131 | as many layers as were given; characterised by ExecutedLayers, RewriteKeepsAnchor and implemented by Execute |
| Cura.InsertCommand | BedCooldown_CURA.py:130-131 | every layer of the list is overwritten in place by its rewrite |
| Cura.Execute | BedCooldown_CURA.py:96-152 | `execute` returns the same list (same length), now holding the executed layers |

## Left out

- File and process I/O. This covers `os.path.isfile` and its exit (BedCooldown_ORCA.py:40-42), and open/read/seek/write/truncate (79-82, 121-123, 160-162, 213-226). The file content is an input string, and each write is the `file` of the outcome. Taking the path as the last argument needs no model, because the overlay treats the path like any other argument.
- `print` and `Logger.log`. They are output only. The printed time and seconds (BedCooldown_ORCA.py:170-171) are the `report` of the outcome.
- The host framework. `getSettingDataString` is a constant schema that `execute` never enforces. `getSettingValueByKey` and the `Script` base class are outside this model.
  - The setting values become `Cura.HostSettings`, already converted by `int()`, so `int()` failures on host values are not modelled.
- Python `int()` corner cases: surrounding whitespace, `_` separators and non-ASCII digits. `Text.ParseInt` accepts an optional sign and ASCII digits only.
- Unicode in regular expressions. `\d` is ASCII digits only. `lower()` and `re.IGNORECASE` fold ASCII letters only: for example, `ı` (U+0131) is treated as not matching `i`. `\s` is Python's full whitespace set.
- `\s*` and `\s*?` matching across a line break inside a `re.MULTILINE` pattern. This affects the marker at BedCooldown_ORCA.py:218 and the gaps between the Format A groups at line 86. The model matches each of these patterns within one line. CURA's layer-0 anchor does cross line breaks, as in the code.
- Escape processing in `re.sub` templates.
  - ORCA: the matched lines and validated values contain no backslash, so this changes nothing. The `\n` of the raw templates at lines 117 and 156 is modelled as the line break it becomes.
  - CURA: the insert string is taken literally. A backslash in a host value (PROGRESS_TYPE) or in the found time would be processed as a template escape by Python; that is not modelled.
- The unused sample strings `time_orca` and `time_cura` (BedCooldown_ORCA.py:62-73).
- Cura.InitCommandRoundTrip: the lemma requires a slicer time and a progress type without spaces. A reader that splits at spaces cannot recover values containing spaces; the script itself does not require this.
- Command.RenderRoundTrip: the lemma requires keys without `=` and values without spaces. Validated ORCA values always meet this (`OrcaParams.ShownWellFormed`).
