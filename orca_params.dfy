/** The PARAMS dictionary of BedCooldown_ORCA.py: its defaults, the overlay
    of `KEY=VALUE` command-line arguments, the range validation, and the
    `ENABLE_BED_COOLDOWN` command built from the validated values. */
module OrcaParams {
  import opened Wrappers
  import opened Text
  import Command

  /** The seven keys of PARAMS. */
  datatype Key =
    | SlicerTimeEstimated
    | ElapsedTimeThreshold
    | RemainTimeThreshold
    | ProgressThreshold
    | ProgressType
    | TargetTemp
    | Debug

  function Name(k: Key): string
  {
    match k
    case SlicerTimeEstimated => "SLICER_TIME_ESTIMATED"
    case ElapsedTimeThreshold => "ELAPSED_TIME_THRESHOLD"
    case RemainTimeThreshold => "REMAIN_TIME_THRESHOLD"
    case ProgressThreshold => "PROGRESS_THRESHOLD"
    case ProgressType => "PROGRESS_TYPE"
    case TargetTemp => "TARGET_TEMP"
    case Debug => "DEBUG"
  }

  /** The keys in the order of the PARAMS literal, which is also the order
      of the pairs in the generated command. */
  const Keys: seq<Key> :=
    [SlicerTimeEstimated, ElapsedTimeThreshold, RemainTimeThreshold, ProgressThreshold,
     ProgressType, TargetTemp, Debug]

  /** The position of a key in Keys. */
  function Index(k: Key): (i: nat)
    ensures i < |Keys| && Keys[i] == k
  {
    match k
    case SlicerTimeEstimated => 0
    case ElapsedTimeThreshold => 1
    case RemainTimeThreshold => 2
    case ProgressThreshold => 3
    case ProgressType => 4
    case TargetTemp => 5
    case Debug => 6
  }

  lemma KeysDistinct()
    ensures forall t :: 0 <= t < |Keys| ==> Index(Keys[t]) == t
  {
  }

  /** A PARAMS value: Python's None, an int or a str. */
  datatype Value = Null | Int(i: int) | Str(s: string)

  type Params = map<Key, Value>

  /** Every key is present, as in the PARAMS literal. */
  predicate Complete(p: Params)
  {
    forall k: Key :: k in p
  }

  /** The PARAMS literal, key by key. */
  function Default(k: Key): Value
  {
    match k
    case SlicerTimeEstimated => Null
    case ElapsedTimeThreshold => Int(900)
    case RemainTimeThreshold => Int(900)
    case ProgressThreshold => Int(90)
    case ProgressType => Str("time")
    case TargetTemp => Int(60)
    case Debug => Str("false")
  }

  /** Every key is an element of Keys. */
  lemma KeysCover()
    ensures forall k: Key :: k in Keys
  {
    forall k: Key ensures k in Keys {
      assert Keys[Index(k)] == k;
    }
  }

  /** Two complete parameter maps that agree on every key are equal. */
  lemma SameParams(a: Params, b: Params)
    requires Complete(a) && Complete(b)
    requires forall k: Key :: a[k] == b[k]
    ensures a == b
  {
    assert a.Keys == b.Keys;
  }

  // ---------------------------------------------------------------------
  // The overlay of command-line arguments

  /** `PARAM.lower() in arg.lower()`. */
  predicate Mentions(arg: string, k: Key)
  {
    IsSubstring(Lower(Name(k)), Lower(arg))
  }

  /** Length of the leading run of '-'. */
  function DashRun(s: string): (n: nat)
    ensures n <= |s|
    ensures forall i :: 0 <= i < n ==> s[i] == '-'
    ensures n < |s| ==> s[n] != '-'
  {
    if s != [] && s[0] == '-' then 1 + DashRun(s[1..]) else 0
  }

  /** The length of a match of `-*name=` (case-insensitive) at the start
      of s, or 0 when there is none. */
  function AssignmentAt(s: string, name: string): (n: nat)
    ensures n <= |s|
    ensures n > 0 ==> n > |name|
  {
    var d := DashRun(s);
    if d + |name| < |s| && Lower(s[d..d + |name|]) == Lower(name) && s[d + |name|] == '='
    then d + |name| + 1
    else 0
  }

  /** `re.sub(f'-*{name}=', '', s, flags=re.IGNORECASE)`: every
      non-overlapping match, scanning left to right, is removed. */
  function StripAssignment(s: string, name: string): (r: string)
    ensures |r| <= |s|
    decreases |s|
  {
    if s == [] then []
    else
      var n := AssignmentAt(s, name);
      if n > 0 then StripAssignment(s[n..], name) else [s[0]] + StripAssignment(s[1..], name)
  }

  /** Text in which `-*name=` cannot match is left as it is. */
  lemma {:induction false} StripAssignmentAbsent(s: string, name: string)
    requires !IsSubstring(Lower(name) + "=", Lower(s))
    ensures StripAssignment(s, name) == s
    decreases |s|
  {
    if s != [] {
      if AssignmentAt(s, name) > 0 {
        AssignmentAtMentions(s, name);
      }
      assert Lower(s[1..]) == Lower(s)[1..];
      StripAssignmentAbsent(s[1..], name);
    }
  }

  /** A match of `-*name=` at the start shows `name=` in the lowered text. */
  lemma AssignmentAtMentions(s: string, name: string)
    requires AssignmentAt(s, name) > 0
    ensures IsSubstring(Lower(name) + "=", Lower(s))
  {
    var d := DashRun(s);
    LowerAppend(s[d..d + |name|], "=");
    assert s[d..d + |name| + 1] == s[d..d + |name|] + "=";
    assert Lower(s)[d..d + |name| + 1] == Lower(s[d..d + |name| + 1]);
    assert OccursAt(Lower(name) + "=", Lower(s), d);
    IsSubstringAt(Lower(name) + "=", Lower(s));
  }

  lemma {:induction false} DashRunAppend(dashes: string, rest: string)
    requires forall i :: 0 <= i < |dashes| ==> dashes[i] == '-'
    requires rest != [] && rest[0] != '-'
    ensures DashRun(dashes + rest) == |dashes|
    decreases |dashes|
  {
    if dashes != [] {
      assert (dashes + rest)[1..] == dashes[1..] + rest;
      DashRunAppend(dashes[1..], rest);
    }
  }

  /** `-*name=` matches the whole of a prefix `dashes + key + "="`. */
  lemma AssignmentAtKey(dashes: string, key: string, value: string, name: string)
    requires forall i :: 0 <= i < |dashes| ==> dashes[i] == '-'
    requires |name| > 0 && 'A' <= name[0] <= 'Z'
    requires Lower(key) == Lower(name)
    ensures AssignmentAt(dashes + key + "=" + value, name) == |dashes| + |name| + 1
    ensures (dashes + key + "=" + value)[|dashes| + |name| + 1..] == value
  {
    var s := dashes + key + "=" + value;
    var n := |dashes| + |name|;
    assert |key| == |name|;
    assert key[0] != '-' by {
      assert Lower(key)[0] == LowerChar(key[0]);
    }
    DashRunAppend(dashes, key + "=" + value);
    assert s[|dashes|..n] == key;
    assert s[n] == '=';
    assert s[n + 1..] == value;
  }

  /** An argument `--KEY=value` (any number of dashes, the key in any
      case) is stripped down to its value, provided the value does not
      itself contain another `KEY=`. */
  lemma StripAssignmentOf(dashes: string, key: string, value: string, name: string)
    requires forall i :: 0 <= i < |dashes| ==> dashes[i] == '-'
    requires |name| > 0 && 'A' <= name[0] <= 'Z'
    requires Lower(key) == Lower(name)
    requires !IsSubstring(Lower(name) + "=", Lower(value))
    ensures StripAssignment(dashes + key + "=" + value, name) == value
  {
    AssignmentAtKey(dashes, key, value, name);
    StripAssignmentAbsent(value, name);
  }

  /** The value PARAMS holds for k after the inner loop has scanned args:
      the default, overwritten by the stripped text of every argument that
      mentions the key. */
  function OverlayValue(args: seq<string>, k: Key): Value
  {
    if |args| == 0 then Default(k)
    else
      var last := args[|args| - 1];
      if Mentions(last, k) then Str(StripAssignment(last, Name(k)))
      else OverlayValue(args[..|args| - 1], k)
  }

  /** The last argument that mentions a key decides its value; with none,
      the default stays. */
  lemma {:induction false} OverlayLastWins(args: seq<string>, k: Key, i: nat)
    requires i < |args| && Mentions(args[i], k)
    requires forall j :: i < j < |args| ==> !Mentions(args[j], k)
    ensures OverlayValue(args, k) == Str(StripAssignment(args[i], Name(k)))
    decreases |args|
  {
    if i < |args| - 1 {
      var init := args[..|args| - 1];
      assert !Mentions(args[|args| - 1], k);
      assert init[i] == args[i];
      assert forall j :: i < j < |init| ==> init[j] == args[j];
      OverlayLastWins(init, k, i);
    }
  }

  lemma {:induction false} OverlayDefault(args: seq<string>, k: Key)
    requires forall j :: 0 <= j < |args| ==> !Mentions(args[j], k)
    ensures OverlayValue(args, k) == Default(k)
    decreases |args|
  {
    if |args| > 0 {
      var init := args[..|args| - 1];
      assert !Mentions(args[|args| - 1], k);
      assert forall j :: 0 <= j < |init| ==> init[j] == args[j];
      OverlayDefault(init, k);
    }
  }

  lemma NameInitial(k: Key)
    ensures |Name(k)| > 0 && 'A' <= Name(k)[0] <= 'Z'
  {
  }

  /** The usual use: the last argument `-*KEY=value` for a key (the key
      spelt in any case) sets it to `value`. */
  lemma OverlayAssignment(args: seq<string>, k: Key, i: nat, dashes: string, key: string, value: string)
    requires i < |args| && args[i] == dashes + key + "=" + value
    requires forall j :: 0 <= j < |dashes| ==> dashes[j] == '-'
    requires Lower(key) == Lower(Name(k))
    requires !IsSubstring(Lower(Name(k)) + "=", Lower(value))
    requires forall j :: i < j < |args| ==> !Mentions(args[j], k)
    ensures OverlayValue(args, k) == Str(value)
  {
    NameInitial(k);
    MentionsAssignment(dashes, key, value, k);
    OverlayLastWins(args, k, i);
    StripAssignmentOf(dashes, key, value, Name(k));
  }

  /** `-*KEY=value` mentions its key. */
  lemma MentionsAssignment(dashes: string, key: string, value: string, k: Key)
    requires Lower(key) == Lower(Name(k))
    ensures Mentions(dashes + key + "=" + value, k)
  {
    var arg := dashes + key + "=" + value;
    var a, b, c := Lower(dashes), Lower(key), Lower("=" + value);
    LowerAppend(dashes, key);
    assert arg == (dashes + key) + ("=" + value);
    LowerAppend(dashes + key, "=" + value);
    assert Lower(arg) == a + b + c;
    Concat3(a, b, c);
    assert OccursAt(Lower(Name(k)), Lower(arg), |dashes|);
    IsSubstringAt(Lower(Name(k)), Lower(arg));
  }

  /** argv[i] is the last argument that mentions k. */
  predicate LastMention(argv: seq<string>, k: Key, i: nat)
  {
    i < |argv| && Mentions(argv[i], k) && forall j :: i < j < |argv| ==> !Mentions(argv[j], k)
  }

  /** No argument mentions k. */
  predicate Unmentioned(argv: seq<string>, k: Key)
  {
    forall j :: 0 <= j < |argv| ==> !Mentions(argv[j], k)
  }

  /** PARAMS after the nested loops over its keys and over sys.argv: every
      key is present; a key's last mentioning argument, stripped of
      `-*KEY=`, is its value; a key no argument mentions keeps its default. */
  function Overlaid(argv: seq<string>): (p: Params)
    ensures Complete(p)
    ensures forall k: Key, i: nat :: LastMention(argv, k, i) ==> p[k] == Str(StripAssignment(argv[i], Name(k)))
    ensures forall k: Key :: Unmentioned(argv, k) ==> p[k] == Default(k)
  {
    KeysCover();
    OverlayCharacterised(argv);
    map k: Key | k in Keys :: OverlayValue(argv, k)
  }

  lemma OverlayCharacterised(argv: seq<string>)
    ensures forall k: Key, i: nat :: LastMention(argv, k, i) ==> OverlayValue(argv, k) == Str(StripAssignment(argv[i], Name(k)))
    ensures forall k: Key :: Unmentioned(argv, k) ==> OverlayValue(argv, k) == Default(k)
  {
    forall k: Key, i: nat | LastMention(argv, k, i)
      ensures OverlayValue(argv, k) == Str(StripAssignment(argv[i], Name(k)))
    {
      OverlayLastWins(argv, k, i);
    }
    forall k: Key | Unmentioned(argv, k) ensures OverlayValue(argv, k) == Default(k) {
      OverlayDefault(argv, k);
    }
  }

  /** The inner loop, for one key: starting from the key's default (no
      other iteration of the outer loop touches it), every argument that
      mentions the key overwrites its value with the argument stripped of
      `-*KEY=`. */
  method OverlayKey(argv: seq<string>, key: Key) returns (value: Value)
    ensures value == OverlayValue(argv, key)
  {
    value := Default(key);
    for j := 0 to |argv|
      invariant value == OverlayValue(argv[..j], key)
    {
      assert argv[..j + 1][..j] == argv[..j];
      if Mentions(argv[j], key) {
        value := Str(StripAssignment(argv[j], Name(key)));
      }
    }
    assert argv[..|argv|] == argv;
  }

  /** The outer loop over the keys of PARAMS. */
  method Overlay(argv: seq<string>) returns (params: Params)
    ensures Complete(params)
    ensures forall k: Key :: params[k] == OverlayValue(argv, k)
  {
    KeysCover();
    params := map k: Key | k in Keys :: Default(k);
    for i := 0 to |Keys|
      invariant Complete(params)
      invariant forall k: Key :: Index(k) < i ==> params[k] == OverlayValue(argv, k)
    {
      var key := Keys[i];
      assert Index(key) == i;
      assert forall k: Key :: Index(k) == i ==> k == key by {
        forall k: Key | Index(k) == i ensures k == key { assert Keys[Index(k)] == k; }
      }
      var value := OverlayKey(argv, key);
      params := params[key := value];
    }
  }

  lemma OverlaidOf(argv: seq<string>, params: Params)
    requires Complete(params)
    requires forall k: Key :: params[k] == OverlayValue(argv, k)
    ensures params == Overlaid(argv)
  {
    SameParams(params, Overlaid(argv));
  }
  // ---------------------------------------------------------------------
  // Validation

  /** Python `int(v)` on a PARAMS value: None has none. */
  function AsInt(v: Value): Option<int>
  {
    match v
    case Null => None
    case Int(i) => Some(i)
    case Str(s) => ParseInt(s)
  }

  const ProgressTypes: seq<string> := ["virtual_sdcard", "display_status", "time"]
  const DebugFlags: seq<string> := ["true", "false"]

  /** Why validation stops the script: no integer slicer time, or a
      parameter that does not convert or is out of range. */
  datatype Failure = SlicerTimeNotDetermined | InvalidParameters

  predicate IntKey(k: Key)
  {
    k in {SlicerTimeEstimated, ElapsedTimeThreshold, RemainTimeThreshold, ProgressThreshold, TargetTemp}
  }

  /** The range the validation demands of an integer key, as (lower bound, upper bound). */
  function Bounds(k: Key): (int, Option<int>)
  {
    match k
    case ProgressThreshold => (0, Some(100))
    case TargetTemp => (0, Some(85))
    case _ => (0, None)
  }

  predicate InBounds(k: Key, n: int)
  {
    Bounds(k).0 <= n && (Bounds(k).1.Some? ==> n <= Bounds(k).1.value)
  }

  /** The options the validation admits for a textual key. */
  function Options(k: Key): seq<string>
  {
    if k == ProgressType then ProgressTypes else DebugFlags
  }

  /** Parameters as the generated command needs them: integers in range
      and lower-case option words. */
  predicate Valid(q: Params)
  {
    Complete(q) &&
    forall k: Key ::
      if IntKey(k) then q[k].Int? && InBounds(k, q[k].i)
      else q[k].Str? && q[k].s in Options(k)
  }

  /** q is what p becomes once each value is converted: int() of the
      integer keys, lower() of the textual ones. */
  predicate Converts(p: Params, q: Params)
    requires Complete(p) && Complete(q)
  {
    forall k: Key ::
      if IntKey(k) then q[k].Int? && AsInt(p[k]) == Some(q[k].i)
      else q[k].Str? && p[k].Str? && Lower(p[k].s) == q[k].s
  }

  /** What the try block demands of one key. */
  predicate AcceptableKey(p: Params, k: Key)
    requires Complete(p)
  {
    if IntKey(k) then AsInt(p[k]).Some? && InBounds(k, AsInt(p[k]).value)
    else p[k].Str? && Lower(p[k].s) in Options(k)
  }

  predicate Acceptable(p: Params)
    requires Complete(p)
  {
    forall k: Key :: AcceptableKey(p, k)
  }

  function Converted(p: Params, k: Key): Value
    requires Complete(p)
  {
    if IntKey(k) then (match AsInt(p[k]) case Some(n) => Int(n) case None => p[k])
    else (match p[k] case Str(s) => Str(Lower(s)) case _ => p[k])
  }

  /** PARAMS after lines 179-208: the script exits unless the slicer time
      is an int and every check holds; otherwise the values are converted. */
  function Validated(p: Params): (r: Result<Params, Failure>)
    requires Complete(p)
    ensures r.Success? ==> Valid(r.value) && Converts(p, r.value)
  {
    if !p[SlicerTimeEstimated].Int? then Failure(SlicerTimeNotDetermined)
    else if Acceptable(p) then
      KeysCover();
      var q := map k: Key | k in Keys :: Converted(p, k);
      assert forall k: Key :: q[k] == Converted(p, k);
      assert Valid(q) by {
        forall k: Key
          ensures if IntKey(k) then q[k].Int? && InBounds(k, q[k].i) else q[k].Str? && q[k].s in Options(k)
        {
          assert AcceptableKey(p, k);
        }
      }
      Success(q)
    else Failure(InvalidParameters)
  }

  /** Conversely, whenever p converts into valid parameters (and the slicer
      time is an int) validation succeeds with exactly those. */
  lemma ValidatedComplete(p: Params, q: Params)
    requires Complete(p) && Complete(q)
    requires p[SlicerTimeEstimated].Int?
    requires Valid(q) && Converts(p, q)
    ensures Validated(p) == Success(q)
  {
    assert Acceptable(p);
    SameParams(Validated(p).value, q);
  }

  /** Validated parameters validate again unchanged. */
  lemma ValidatedIdempotent(p: Params)
    requires Complete(p) && Validated(p).Success?
    ensures Validated(Validated(p).value) == Validated(p)
  {
    var q := Validated(p).value;
    forall k: Key | !IntKey(k) ensures Lower(q[k].s) == q[k].s {
      LowerIdempotent(p[k].s);
    }
    ValidatedComplete(q, q);
  }

  /** Lines 179-205 step by step: each value is converted and checked in
      turn, and the first failed check ends the script. */
  method Validate(params: Params) returns (r: Result<Params, Failure>)
    requires Complete(params)
    ensures r == Validated(params)
  {
    if !params[SlicerTimeEstimated].Int? {
      return Failure(SlicerTimeNotDetermined);
    }
    var p := params;
    var n := AsInt(p[SlicerTimeEstimated]);
    if n.None? || !(0 <= n.value) {
      assert !AcceptableKey(params, SlicerTimeEstimated);
      return Failure(InvalidParameters);
    }
    p := p[SlicerTimeEstimated := Int(n.value)];
    n := AsInt(p[ElapsedTimeThreshold]);
    if n.None? || !(0 <= n.value) {
      assert !AcceptableKey(params, ElapsedTimeThreshold);
      return Failure(InvalidParameters);
    }
    p := p[ElapsedTimeThreshold := Int(n.value)];
    n := AsInt(p[RemainTimeThreshold]);
    if n.None? || !(0 <= n.value) {
      assert !AcceptableKey(params, RemainTimeThreshold);
      return Failure(InvalidParameters);
    }
    p := p[RemainTimeThreshold := Int(n.value)];
    n := AsInt(p[ProgressThreshold]);
    if n.None? || !(0 <= n.value <= 100) {
      assert !AcceptableKey(params, ProgressThreshold);
      return Failure(InvalidParameters);
    }
    p := p[ProgressThreshold := Int(n.value)];
    if !p[ProgressType].Str? || Lower(p[ProgressType].s) !in ProgressTypes {
      assert !AcceptableKey(params, ProgressType);
      return Failure(InvalidParameters);
    } else {
      p := p[ProgressType := Str(Lower(p[ProgressType].s))];
    }
    n := AsInt(p[TargetTemp]);
    if n.None? || !(0 <= n.value <= 85) {
      assert !AcceptableKey(params, TargetTemp);
      return Failure(InvalidParameters);
    }
    p := p[TargetTemp := Int(n.value)];
    if !p[Debug].Str? || Lower(p[Debug].s) !in DebugFlags {
      assert !AcceptableKey(params, Debug);
      return Failure(InvalidParameters);
    } else {
      p := p[Debug := Str(Lower(p[Debug].s))];
    }
    assert Acceptable(params) by {
      forall k: Key ensures AcceptableKey(params, k) {
        match k
        case SlicerTimeEstimated =>
        case ElapsedTimeThreshold =>
        case RemainTimeThreshold =>
        case ProgressThreshold =>
        case ProgressType =>
        case TargetTemp =>
        case Debug =>
      }
    }
    forall k: Key ensures p[k] == Validated(params).value[k] {
      match k
      case SlicerTimeEstimated =>
      case ElapsedTimeThreshold =>
      case RemainTimeThreshold =>
      case ProgressThreshold =>
      case ProgressType =>
      case TargetTemp =>
      case Debug =>
    }
    SameParams(p, Validated(params).value);
    return Success(p);
  }

  /** The defaults pass validation unchanged, whatever the (non-negative)
      slicer time. */
  lemma ValidatedDefaults(seconds: nat)
    ensures Validated(Overlaid([])[SlicerTimeEstimated := Int(seconds)]).Success?
  {
    var p := Overlaid([])[SlicerTimeEstimated := Int(seconds)];
    var q := p[ProgressType := Str("time")][Debug := Str("false")];
    assert Lower("time") == "time";
    assert Lower("false") == "false";
    assert Valid(q) by {
      forall k: Key ensures if IntKey(k) then q[k].Int? && InBounds(k, q[k].i) else q[k].Str? && q[k].s in Options(k) {
        match k
        case SlicerTimeEstimated =>
        case ElapsedTimeThreshold =>
        case RemainTimeThreshold =>
        case ProgressThreshold =>
        case ProgressType =>
        case TargetTemp =>
        case Debug =>
      }
    }
    ValidatedComplete(p, q);
  }

  // ---------------------------------------------------------------------
  // The generated command (line 219)

  /** Python's str() of a PARAMS value in an f-string. */
  function Show(v: Value): string
  {
    match v
    case Null => "None"
    case Int(i) => IntToString(i)
    case Str(s) => s
  }

  const CommandName := "ENABLE_BED_COOLDOWN"

  const Names: seq<string> := Command.ParameterNames

  function Shown(p: Params): (vs: seq<string>)
    requires Complete(p)
    ensures |vs| == |Keys|
    ensures forall i :: 0 <= i < |Keys| ==> vs[i] == Show(p[Keys[i]])
  {
    seq(|Keys|, i requires 0 <= i < |Keys| => Show(p[Keys[i]]))
  }

  /** `ENABLE_BED_COOLDOWN SLICER_TIME_ESTIMATED=… … DEBUG=…`, the pairs in
      the order of the PARAMS literal. */
  function EnableCommand(p: Params): string
    requires Complete(p)
  {
    Command.Render(CommandName, Names, Shown(p))
  }

  /** The command's names are the key names, in the order of Keys. */
  lemma NamesOfKeys()
    ensures |Names| == |Keys|
    ensures forall i :: 0 <= i < |Names| ==> Names[i] == Name(Keys[i])
  {
  }

  /** An option word: lower-case letters and underscores. */
  lemma OptionChars(k: Key, w: string)
    requires !IntKey(k) && w in Options(k)
    ensures ' ' !in w && '\n' !in w && '=' !in w
  {
  }

  /** Shown values of valid parameters are single words. */
  lemma ShownWellFormed(p: Params)
    requires Valid(p)
    ensures forall k: Key :: ' ' !in Show(p[k]) && '\n' !in Show(p[k]) && '=' !in Show(p[k])
  {
    forall k: Key ensures ' ' !in Show(p[k]) && '\n' !in Show(p[k]) && '=' !in Show(p[k]) {
      if IntKey(k) {
        assert AllDigits(IntToString(p[k].i));
      } else {
        OptionChars(k, p[k].s);
      }
    }
  }

  /** The command line is the name and the seven `KEY=value` words in the
      fixed order; a reader finds every validated value under its key, and
      the integer ones parse back to the validated integers. */
  lemma EnableCommandRoundTrip(p: Params, k: Key)
    requires Valid(p)
    ensures Split(EnableCommand(p), ' ') == Command.Words(CommandName, Names, Shown(p))
    ensures Split(EnableCommand(p), ' ')[0] == CommandName
    ensures Command.Lookup(Split(EnableCommand(p), ' '), Name(k)) == Some(Show(p[k]))
    ensures IntKey(k) ==> ParseInt(Show(p[k])) == Some(p[k].i)
  {
    NamesOfKeys();
    Command.ParameterNamesWellFormed();
    ShownWellFormed(p);
    KeysDistinct();
    var i := Index(k);
    Command.RenderRoundTrip(CommandName, Names, Shown(p), i);
    if IntKey(k) {
      IntRoundTrip(p[k].i);
    }
  }

  /** The command is one line that does not start with ';'. */
  lemma EnableCommandShape(p: Params)
    requires Valid(p)
    ensures |EnableCommand(p)| > 0 && EnableCommand(p)[0] == 'E'
    ensures '\n' !in EnableCommand(p)
  {
    NamesOfKeys();
    Command.ParameterNamesWellFormed();
    ShownWellFormed(p);
    Command.RenderOneLine(CommandName, Names, Shown(p));
  }
}
