/** The estimated print time in the two notations a slicer writes:
    Format A, `; estimated printing time (normal mode) = 1d 15h 43m 23s`,
    and Format B, `;TIME:143003`; the conversion of either into seconds,
    and the two duration formatters of BedCooldown_ORCA.py. */
module Duration {
  import opened Wrappers
  import opened Text

  /** The four capture groups of Format A, an absent group counted as 0. */
  datatype Components = Components(days: nat, hours: nat, minutes: nat, seconds: nat)

  /** d*86400 + h*3600 + m*60 + s. */
  function TotalSeconds(c: Components): nat
  {
    c.days * 86400 + c.hours * 3600 + c.minutes * 60 + c.seconds
  }

  /** Every unit below days is within its clock range. */
  predicate Normalised(c: Components)
  {
    c.hours < 24 && c.minutes < 60 && c.seconds < 60
  }

  lemma {:induction false} MulMonotonic(a: int, b: int, d: int)
    requires a <= b && 0 < d
    ensures a * d <= b * d
    decreases b - a
  {
    if a < b {
      MulMonotonic(a, b - 1, d);
      assert (b - 1) * d + d == b * d;
    }
  }

  /** Quotient and remainder are determined by n == q*d + r with 0 <= r < d. */
  lemma DivModUnique(n: int, d: int, q: int, r: int)
    requires 0 < d && 0 <= r < d && n == q * d + r
    ensures n / d == q && n % d == r
  {
    var q', r' := n / d, n % d;
    assert n == q' * d + r';
    if q > q' {
      MulMonotonic(q' + 1, q, d);
    } else if q < q' {
      MulMonotonic(q + 1, q', d);
    }
  }

  /** The days/hours/minutes/seconds split of a seconds count. */
  function Decompose(s: nat): (c: Components)
    ensures Normalised(c)
    ensures TotalSeconds(c) == s
  {
    var c := Components(s / 86400, (s % 86400) / 3600, (s % 3600) / 60, s % 60);
    var r := s % 86400;
    assert r % 3600 == s % 3600 by {
      DivModUnique(s, 3600, (s / 86400) * 24 + r / 3600, r % 3600);
    }
    assert (r % 3600) % 60 == s % 60 by {
      DivModUnique(s, 60, ((s / 86400) * 24 + r / 3600) * 60 + (r % 3600) / 60, (r % 3600) % 60);
    }
    c
  }

  /** A normalised split of s is the one Decompose computes. */
  lemma DecomposeUnique(c: Components, s: nat)
    requires Normalised(c) && TotalSeconds(c) == s
    ensures c == Decompose(s)
  {
    var r := c.hours * 3600 + c.minutes * 60 + c.seconds;
    DivModUnique(s, 86400, c.days, r);
    DivModUnique(s, 3600, c.days * 24 + c.hours, c.minutes * 60 + c.seconds);
    DivModUnique(r, 3600, c.hours, c.minutes * 60 + c.seconds);
    DivModUnique(s, 60, c.days * 1440 + c.hours * 60 + c.minutes, c.seconds);
    DivModUnique(c.minutes * 60 + c.seconds, 60, c.minutes, c.seconds);
  }

  /** Recombining a decomposition gives the split back (parse after decompose). */
  lemma DecomposeTotal(c: Components)
    requires Normalised(c)
    ensures Decompose(TotalSeconds(c)) == c
  {
    DecomposeUnique(c, TotalSeconds(c));
  }

  // ---------------------------------------------------------------------
  // The unit rule shared by both formatters

  function Units(c: Components): seq<nat>
  {
    [c.days, c.hours, c.minutes, c.seconds]
  }

  const UnitLetters: string := "dhms"

  /** The length of the all-zero prefix of xs. */
  function ZeroPrefix(xs: seq<nat>): (k: nat)
    ensures k <= |xs|
    ensures forall i :: 0 <= i < k ==> xs[i] == 0
    ensures k < |xs| ==> xs[k] != 0
  {
    if xs != [] && xs[0] == 0 then 1 + ZeroPrefix(xs[1..]) else 0
  }

  /** The tokens `Nd`, `Nh`, `Nm`, `Ns`, starting at the highest non-zero
      unit: every unit below the first one emitted is emitted too. */
  function Tokens(c: Components): (ts: seq<string>)
    ensures |ts| == 4 - ZeroPrefix(Units(c))
  {
    var k := ZeroPrefix(Units(c));
    seq(4 - k, i requires 0 <= i < 4 - k => NatToString(Units(c)[k + i]) + [UnitLetters[k + i]])
  }

  /** How many leading units are zero, case by case. */
  lemma ZeroPrefixUnits(c: Components)
    ensures ZeroPrefix(Units(c)) ==
            if c.days != 0 then 0 else if c.hours != 0 then 1 else if c.minutes != 0 then 2
            else if c.seconds != 0 then 3 else 4
  {
    var u := Units(c);
    var u1, u2, u3 := [c.hours, c.minutes, c.seconds], [c.minutes, c.seconds], [c.seconds];
    assert u[1..] == u1 && u1[1..] == u2 && u2[1..] == u3 && u3[1..] == [];
    assert ZeroPrefix(u3) == if c.seconds != 0 then 0 else 1;
    assert ZeroPrefix(u2) == if c.minutes != 0 then 0 else 1 + ZeroPrefix(u3);
    assert ZeroPrefix(u1) == if c.hours != 0 then 0 else 1 + ZeroPrefix(u2);
  }

  /** The synthesised Format A duration: the empty string for 0. */
  function Rendered(c: Components): string
  {
    Join(Tokens(c), ' ')
  }

  function Token(n: nat, unit: char): string { NatToString(n) + [unit] }

  /** The unit rule written out: a non-zero number of days. */
  lemma RenderedFromDays(c: Components)
    requires c.days != 0
    ensures Rendered(c) == Token(c.days, 'd') + (" " + (Token(c.hours, 'h') + (" " + (Token(c.minutes, 'm') + (" " + Token(c.seconds, 's'))))))
  {
    var d, h, m, sec := Token(c.days, 'd'), Token(c.hours, 'h'), Token(c.minutes, 'm'), Token(c.seconds, 's');
    ZeroPrefixUnits(c);
    assert Tokens(c) == [d] + ([h] + ([m] + [sec]));
    JoinCons(m, [sec], ' ');
    JoinCons(h, [m] + [sec], ' ');
    JoinCons(d, [h] + ([m] + [sec]), ' ');
  }

  /** No days, a non-zero number of hours. */
  lemma RenderedFromHours(c: Components)
    requires c.days == 0 && c.hours != 0
    ensures Rendered(c) == Token(c.hours, 'h') + (" " + (Token(c.minutes, 'm') + (" " + Token(c.seconds, 's'))))
  {
    var h, m, sec := Token(c.hours, 'h'), Token(c.minutes, 'm'), Token(c.seconds, 's');
    ZeroPrefixUnits(c);
    assert Tokens(c) == [h] + ([m] + [sec]);
    JoinCons(m, [sec], ' ');
    JoinCons(h, [m] + [sec], ' ');
  }

  /** No days or hours, a non-zero number of minutes. */
  lemma RenderedFromMinutes(c: Components)
    requires c.days == 0 && c.hours == 0 && c.minutes != 0
    ensures Rendered(c) == Token(c.minutes, 'm') + (" " + Token(c.seconds, 's'))
  {
    var m, sec := Token(c.minutes, 'm'), Token(c.seconds, 's');
    ZeroPrefixUnits(c);
    assert Tokens(c) == [m] + [sec];
    JoinCons(m, [sec], ' ');
  }

  /** Seconds only, or nothing at all. */
  lemma RenderedSeconds(c: Components)
    requires c.days == 0 && c.hours == 0 && c.minutes == 0
    ensures c.seconds != 0 ==> Rendered(c) == Token(c.seconds, 's')
    ensures c.seconds == 0 ==> Rendered(c) == ""
  {
    ZeroPrefixUnits(c);
    if c.seconds != 0 {
      assert Tokens(c) == [Token(c.seconds, 's')];
    } else {
      assert Tokens(c) == [];
    }
  }

  /** The rendering as the script builds it: the first emitted token, then
      `" " + token` appended for each lower unit. */
  lemma RenderedCases(c: Components)
    ensures c.days != 0 ==>
              Rendered(c) == Token(c.days, 'd') + (" " + Token(c.hours, 'h')) + (" " + Token(c.minutes, 'm')) + (" " + Token(c.seconds, 's'))
    ensures c.days == 0 && c.hours != 0 ==>
              Rendered(c) == Token(c.hours, 'h') + (" " + Token(c.minutes, 'm')) + (" " + Token(c.seconds, 's'))
    ensures c.days == 0 && c.hours == 0 && c.minutes != 0 ==>
              Rendered(c) == Token(c.minutes, 'm') + (" " + Token(c.seconds, 's'))
    ensures SecondsOnly(c) ==> Rendered(c) == Token(c.seconds, 's')
    ensures c.days == 0 && c.hours == 0 && c.minutes == 0 && c.seconds == 0 ==> Rendered(c) == ""
  {
    var d, h, m, sec := Token(c.days, 'd'), Token(c.hours, 'h'), Token(c.minutes, 'm'), Token(c.seconds, 's');
    ZeroPrefixUnits(c);
    if c.days != 0 {
      var t1 := [d];
      var t2 := t1 + [h];
      var t3 := t2 + [m];
      assert Tokens(c) == t3 + [sec];
      JoinSnoc(t1, h, ' ');
      JoinSnoc(t2, m, ' ');
      JoinSnoc(t3, sec, ' ');
    } else if c.hours != 0 {
      var t1 := [h];
      var t2 := t1 + [m];
      assert Tokens(c) == t2 + [sec];
      JoinSnoc(t1, m, ' ');
      JoinSnoc(t2, sec, ' ');
    } else if c.minutes != 0 {
      assert Tokens(c) == [m] + [sec];
      JoinSnoc([m], sec, ' ');
    } else {
      RenderedSeconds(c);
    }
  }

  /** `formatted_time` of the Format B branch, built by the same
      conditional appends as the script (`> 0` tests). */
  method FormatEstimate(c: Components) returns (formatted: string)
    ensures formatted == Rendered(c)
  {
    formatted := "";
    if c.days > 0 {
      formatted := Token(c.days, 'd');
    }
    if formatted != "" {
      formatted := formatted + (" " + Token(c.hours, 'h'));
    } else if c.hours > 0 {
      formatted := Token(c.hours, 'h');
    }
    if formatted != "" {
      formatted := formatted + (" " + Token(c.minutes, 'm'));
    } else if c.minutes > 0 {
      formatted := Token(c.minutes, 'm');
    }
    if formatted != "" {
      formatted := formatted + (" " + Token(c.seconds, 's'));
    } else if c.seconds > 0 {
      formatted := Token(c.seconds, 's');
    }
    RenderedCases(c);
  }

  /** Only the seconds unit is non-zero. */
  predicate SecondsOnly(c: Components)
  {
    c.days == 0 && c.hours == 0 && c.minutes == 0 && c.seconds != 0
  }

  /** `formatted_time` of the Format A branch (`!= 0` tests): the same unit
      rule, except that a seconds-only value is written without its `s`. */
  method EchoEstimate(c: Components) returns (formatted: string)
    ensures SecondsOnly(c) ==> formatted == NatToString(c.seconds)
    ensures !SecondsOnly(c) ==> formatted == Rendered(c)
  {
    formatted := "";
    if c.days != 0 {
      formatted := Token(c.days, 'd');
    }
    if formatted != "" {
      formatted := formatted + (" " + Token(c.hours, 'h'));
    } else if c.hours != 0 {
      formatted := Token(c.hours, 'h');
    }
    if formatted != "" {
      formatted := formatted + (" " + Token(c.minutes, 'm'));
    } else if c.minutes != 0 {
      formatted := Token(c.minutes, 'm');
    }
    if formatted != "" {
      formatted := formatted + (" " + Token(c.seconds, 's'));
    } else if c.seconds != 0 {
      formatted := NatToString(c.seconds);
    }
    RenderedCases(c);
  }

  // ---------------------------------------------------------------------
  // Recognising the two notations, one line at a time

  /** Length of the leading run of digits. */
  function DigitRun(s: string): (k: nat)
    ensures k <= |s| && AllDigits(s[..k])
    ensures k < |s| ==> !IsDigit(s[k])
  {
    if s != [] && IsDigit(s[0]) then
      var k := 1 + DigitRun(s[1..]);
      assert s[..k] == [s[0]] + s[1..][..k - 1];
      k
    else 0
  }

  /** What an optional group `(?:(\d+)u)?` captures and what follows it. */
  datatype Scan = Scan(present: bool, value: nat, rest: string)

  function Group(s: string, unit: char): (g: Scan)
    requires !IsDigit(unit)
    ensures !g.present ==> g.value == 0 && g.rest == s
  {
    var k := DigitRun(s);
    if 0 < k < |s| && s[k] == unit then Scan(true, DigitsValue(s[..k]), s[k + 1..])
    else Scan(false, 0, s)
  }

  /** The text after `= ` in Format A: groups for d, h, m, s in this order,
      each optional, whitespace allowed between them, nothing after the
      seconds group. An absent group counts as 0. */
  function ParseDuration(s: string): Option<Components>
  {
    var d := Group(s, 'd');
    var h := Group(SkipSpace(d.rest), 'h');
    var m := Group(SkipSpace(h.rest), 'm');
    var sec := Group(SkipSpace(m.rest), 's');
    if sec.rest == [] then Some(Components(d.value, h.value, m.value, sec.value)) else None
  }

  const EstimatePrefix: string := "; estimated printing time (normal mode) = "

  /** The Format A pattern on one line (case-sensitive, anchored at both ends). */
  function ParseEstimateLine(line: string): (r: Option<Components>)
    ensures r.Some? ==> EstimatePrefix <= line
  {
    if EstimatePrefix <= line then ParseDuration(line[|EstimatePrefix|..]) else None
  }

  /** The Format A line the script synthesises for a duration text. */
  function EstimateLine(duration: string): string
  {
    EstimatePrefix + duration
  }

  /** A synthesised Format A line is recognised exactly when its duration is. */
  lemma ParseEstimateLineOf(duration: string)
    ensures ParseEstimateLine(EstimateLine(duration)) == ParseDuration(duration)
  {
    assert EstimateLine(duration)[|EstimatePrefix|..] == duration;
  }

  const TimeTagPrefix: string := ";TIME:"

  /** The Format B pattern `^;TIME:(\d+)$` on one line; the digits as a number. */
  function ParseTimeTag(line: string): (r: Option<nat>)
    ensures r.Some? ==> TimeTagPrefix <= line && |line| > |TimeTagPrefix|
  {
    if TimeTagPrefix <= line && |line| > |TimeTagPrefix| && AllDigits(line[|TimeTagPrefix|..])
    then Some(DigitsValue(line[|TimeTagPrefix|..]))
    else None
  }

  /** The Format B line the script synthesises for a seconds count. */
  function TimeTagLine(seconds: nat): string
  {
    TimeTagPrefix + NatToString(seconds)
  }

  /** No line is both a Format A and a Format B line. */
  lemma FormatsExclusive(line: string)
    ensures !(ParseEstimateLine(line).Some? && ParseTimeTag(line).Some?)
  {
    assert EstimatePrefix <= line ==> line[1] == ' ';
    assert TimeTagPrefix <= line ==> line[1] == 'T';
  }

  // ---------------------------------------------------------------------
  // Round trips

  lemma GroupOfToken(n: nat, unit: char, t: string)
    requires !IsDigit(unit)
    ensures Group(Token(n, unit) + t, unit) == Scan(true, n, t)
  {
    var s := Token(n, unit) + t;
    var ds := NatToString(n);
    assert s[..|ds|] == ds;
    assert s[|ds|] == unit;
    DigitRunExact(ds, [unit] + t);
    DigitsOfNat(n);
    assert s[|ds| + 1..] == t;
  }

  lemma GroupOfOtherToken(n: nat, other: char, unit: char, t: string)
    requires !IsDigit(unit) && !IsDigit(other) && other != unit
    ensures Group(Token(n, other) + t, unit) == Scan(false, 0, Token(n, other) + t)
  {
    var ds := NatToString(n);
    DigitRunExact(ds, [other] + t);
    assert Token(n, other) + t == ds + ([other] + t);
  }

  lemma DigitRunExact(ds: string, t: string)
    requires AllDigits(ds) && t != [] && !IsDigit(t[0])
    ensures DigitRun(ds + t) == |ds| && (ds + t)[|ds|] == t[0]
  {
    if ds != [] {
      assert (ds + t)[1..] == ds[1..] + t;
      DigitRunExact(ds[1..], t);
    }
  }

  /** One stage of the pattern: a space, then the group of `unit`. */
  lemma Stage(n: nat, unit: char, t: string)
    requires !IsDigit(unit)
    ensures SkipSpace(" " + (Token(n, unit) + t)) == Token(n, unit) + t
    ensures Group(Token(n, unit) + t, unit) == Scan(true, n, t)
  {
    var s := Token(n, unit) + t;
    assert s[0] == NatToString(n)[0];
    SpaceRunOfDigit(s);
    assert (" " + s)[1..] == s;
    assert SpaceRun(" " + s) == 1;
    GroupOfToken(n, unit, t);
  }

  /** The last stage: a seconds group that ends the text. */
  lemma StageLast(n: nat)
    ensures SkipSpace(" " + Token(n, 's')) == Token(n, 's')
    ensures SkipSpace(Token(n, 's')) == Token(n, 's')
    ensures Group(Token(n, 's'), 's') == Scan(true, n, [])
  {
    var s := Token(n, 's');
    assert s[0] == NatToString(n)[0];
    SpaceRunOfDigit(s);
    assert (" " + s)[1..] == s;
    assert SpaceRun(" " + s) == 1;
    GroupOfToken(n, 's', []);
    assert s + [] == s;
  }

  /** A token starts with a digit, so `\s*` skips nothing before it. */
  lemma SkipSpaceOfToken(n: nat, unit: char, t: string)
    ensures SkipSpace(Token(n, unit) + t) == Token(n, unit) + t
  {
    var s := Token(n, unit) + t;
    assert s[0] == NatToString(n)[0];
    SpaceRunOfDigit(s);
  }

  /** `\s*` matches nothing before a digit. */
  lemma SpaceRunOfDigit(s: string)
    requires s != [] && IsDigit(s[0])
    ensures SpaceRun(s) == 0
  {
    assert !IsSpace(s[0]);
  }

  lemma ParseFromDays(d: nat, h: nat, m: nat, sec: nat)
    ensures ParseDuration(Token(d, 'd') + (" " + (Token(h, 'h') + (" " + (Token(m, 'm') + (" " + Token(sec, 's')))))))
            == Some(Components(d, h, m, sec))
  {
    var t2 := " " + (Token(m, 'm') + (" " + Token(sec, 's')));
    GroupOfToken(d, 'd', " " + (Token(h, 'h') + t2));
    Stage(h, 'h', t2);
    Stage(m, 'm', " " + Token(sec, 's'));
    StageLast(sec);
  }

  lemma ParseFromHours(h: nat, m: nat, sec: nat)
    ensures ParseDuration(Token(h, 'h') + (" " + (Token(m, 'm') + (" " + Token(sec, 's')))))
            == Some(Components(0, h, m, sec))
  {
    var t2 := " " + (Token(m, 'm') + (" " + Token(sec, 's')));
    GroupOfOtherToken(h, 'h', 'd', t2);
    SkipSpaceOfToken(h, 'h', t2);
    Stage(h, 'h', t2);
    Stage(m, 'm', " " + Token(sec, 's'));
    StageLast(sec);
  }

  lemma ParseFromMinutes(m: nat, sec: nat)
    ensures ParseDuration(Token(m, 'm') + (" " + Token(sec, 's'))) == Some(Components(0, 0, m, sec))
  {
    GroupOfOtherToken(m, 'm', 'd', " " + Token(sec, 's'));
    GroupOfOtherToken(m, 'm', 'h', " " + Token(sec, 's'));
    SkipSpaceOfToken(m, 'm', " " + Token(sec, 's'));
    Stage(m, 'm', " " + Token(sec, 's'));
    StageLast(sec);
  }

  lemma ParseSecondsOnly(sec: nat)
    ensures ParseDuration(Token(sec, 's')) == Some(Components(0, 0, 0, sec))
  {
    assert Token(sec, 's') == Token(sec, 's') + [];
    GroupOfOtherToken(sec, 's', 'd', []);
    GroupOfOtherToken(sec, 's', 'h', []);
    GroupOfOtherToken(sec, 's', 'm', []);
    StageLast(sec);
  }

  /** Every rendered duration is read back as the same components. */
  lemma ParseRendered(c: Components)
    ensures ParseDuration(Rendered(c)) == Some(c)
  {
    if c.days != 0 {
      RenderedFromDays(c);
      ParseFromDays(c.days, c.hours, c.minutes, c.seconds);
    } else if c.hours != 0 {
      RenderedFromHours(c);
      ParseFromHours(c.hours, c.minutes, c.seconds);
    } else if c.minutes != 0 {
      RenderedFromMinutes(c);
      ParseFromMinutes(c.minutes, c.seconds);
    } else if c.seconds != 0 {
      RenderedSeconds(c);
      ParseSecondsOnly(c.seconds);
    } else {
      RenderedSeconds(c);
    }
  }

  /** Format B round trip: the Format A line synthesised for S matches the
      Format A pattern and is read back as S, also for S == 0 (where the
      duration is empty and every group is absent). */
  lemma EstimateLineRoundTrip(s: nat)
    ensures ParseEstimateLine(EstimateLine(Rendered(Decompose(s)))) == Some(Decompose(s))
    ensures TotalSeconds(Decompose(s)) == s
  {
    ParseEstimateLineOf(Rendered(Decompose(s)));
    ParseRendered(Decompose(s));
  }

  /** Format A round trip: the `;TIME:` line synthesised for S reads back as S. */
  lemma TimeTagRoundTrip(s: nat)
    ensures ParseTimeTag(TimeTagLine(s)) == Some(s)
  {
    assert TimeTagLine(s)[|TimeTagPrefix|..] == NatToString(s);
    DigitsOfNat(s);
  }

  /** The seconds-only echo of the Format A branch has no unit letter, so
      it is not a duration the Format A pattern accepts. */
  lemma EchoSecondsOnlyNotReparsable(c: Components)
    requires SecondsOnly(c)
    ensures ParseDuration(NatToString(c.seconds)) == None
  {
    var ds := NatToString(c.seconds);
    DigitRunAll(ds);
    SpaceRunOfDigit(ds);
    assert SkipSpace(ds) == ds;
    assert Group(ds, 'd') == Scan(false, 0, ds);
    assert Group(ds, 'h') == Scan(false, 0, ds);
    assert Group(ds, 'm') == Scan(false, 0, ds);
    assert Group(ds, 's') == Scan(false, 0, ds);
  }

  lemma DigitRunAll(ds: string)
    requires AllDigits(ds)
    ensures DigitRun(ds) == |ds|
  {
    if ds != [] {
      DigitRunAll(ds[1..]);
    }
  }

  // ---------------------------------------------------------------------
  // What the Format A pattern accepts

  /** The text an optional group `(?:(\d+)u)?` matched: nothing, counting
      as 0, or a numeral of n followed by the unit letter. */
  predicate GroupText(g: string, unit: char, n: nat)
  {
    if g == [] then n == 0
    else 2 <= |g| && g[|g| - 1] == unit && AllDigits(g[..|g| - 1]) && n == DigitsValue(g[..|g| - 1])
  }

  /** t is `(?:(\d+)d)?\s*(?:(\d+)h)?\s*(?:(\d+)m)?\s*(?:(\d+)s)?` matched
      whole, cut into its four groups and three whitespace runs, the
      groups giving the components of c. */
  predicate DurationText(t: string, c: Components, gd: string, w1: string, gh: string, w2: string,
                         gm: string, w3: string, gs: string)
  {
    t == gd + (w1 + (gh + (w2 + (gm + (w3 + gs))))) &&
    GroupText(gd, 'd', c.days) && AllSpace(w1) && GroupText(gh, 'h', c.hours) && AllSpace(w2) &&
    GroupText(gm, 'm', c.minutes) && AllSpace(w3) && GroupText(gs, 's', c.seconds)
  }

  /** The duration recogniser accepts exactly the texts the pattern
      matches, and returns the components their groups give, absent groups
      counting as 0. */
  lemma {:induction false} ParseDurationIff(t: string, c: Components)
    ensures ParseDuration(t) == Some(c) <==>
            exists gd, w1, gh, w2, gm, w3, gs :: DurationText(t, c, gd, w1, gh, w2, gm, w3, gs)
  {
    if ParseDuration(t) == Some(c) {
      ParseDurationShape(t);
    }
    if exists gd, w1, gh, w2, gm, w3, gs :: DurationText(t, c, gd, w1, gh, w2, gm, w3, gs) {
      var gd, w1, gh, w2, gm, w3, gs :| DurationText(t, c, gd, w1, gh, w2, gm, w3, gs);
      DurationTextParses(t, c, gd, w1, gh, w2, gm, w3, gs);
    }
  }

  /** The Format A line recogniser, likewise: the fixed prefix, then a
      duration text. */
  lemma ParseEstimateLineIff(line: string, c: Components)
    ensures ParseEstimateLine(line) == Some(c) <==>
            EstimatePrefix <= line &&
            exists gd, w1, gh, w2, gm, w3, gs :: DurationText(line[|EstimatePrefix|..], c, gd, w1, gh, w2, gm, w3, gs)
  {
    if EstimatePrefix <= line {
      ParseDurationIff(line[|EstimatePrefix|..], c);
    }
  }

  /** A group scan cuts its text into the group's text and the rest. */
  lemma GroupSplit(s: string, unit: char)
    requires !IsDigit(unit)
    ensures var g := Group(s, unit);
            var text := if g.present then s[..|s| - |g.rest|] else [];
            s == text + g.rest && GroupText(text, unit, g.value)
  {
    var g := Group(s, unit);
    if g.present {
      var k := DigitRun(s);
      assert g.rest == s[k + 1..];
      assert s[..|s| - |g.rest|] == s[..k + 1];
      assert s[..k + 1][..k] == s[..k];
    }
  }

  lemma ParseDurationShape(t: string)
    requires ParseDuration(t).Some?
    ensures exists gd, w1, gh, w2, gm, w3, gs :: DurationText(t, ParseDuration(t).value, gd, w1, gh, w2, gm, w3, gs)
  {
    var gd, w1, s1 := ScanStage(t, 'd');
    var gh, w2, s2 := ScanStage(s1, 'h');
    var gm, w3, s3 := ScanStage(s2, 'm');
    var sec := Group(s3, 's');
    GroupSplit(s3, 's');
    var c := Components(Group(t, 'd').value, Group(s1, 'h').value, Group(s2, 'm').value, sec.value);
    assert sec.rest == [] && ParseDuration(t) == Some(c);
    var gs := if sec.present then s3[..|s3| - |sec.rest|] else [];
    assert s3 == gs;
    assert t == gd + (w1 + (gh + (w2 + (gm + (w3 + gs)))));
    assert DurationText(t, c, gd, w1, gh, w2, gm, w3, gs);
  }

  /** One group and the whitespace after it, as the recogniser scans them. */
  lemma ScanStage(s: string, unit: char) returns (g: string, w: string, next: string)
    requires !IsDigit(unit)
    ensures s == g + (w + next) && GroupText(g, unit, Group(s, unit).value) && AllSpace(w)
    ensures next == SkipSpace(Group(s, unit).rest)
  {
    var scan := Group(s, unit);
    GroupSplit(s, unit);
    g := if scan.present then s[..|s| - |scan.rest|] else [];
    SpaceSplit(scan.rest);
    w := scan.rest[..SpaceRun(scan.rest)];
    next := SkipSpace(scan.rest);
  }

  /** A present group is scanned as its value, leaving what follows it. */
  lemma GroupTextOf(g: string, unit: char, n: nat, rest: string)
    requires !IsDigit(unit) && GroupText(g, unit, n) && g != []
    ensures Group(g + rest, unit) == Scan(true, n, rest)
  {
    var ds := g[..|g| - 1];
    assert g == ds + [unit];
    assert g + rest == ds + ([unit] + rest);
    DigitRunExact(ds, [unit] + rest);
    assert (g + rest)[..|ds|] == ds;
    assert (g + rest)[|ds| + 1..] == rest;
  }

  /** A text that starts with whitespace or with a group of another unit
      holds no group of this unit at its start. */
  lemma GroupLater(w: string, g: string, y: string, unit: char, other: char, n: nat)
    requires !IsDigit(unit) && AllSpace(w) && GroupText(g, other, n) && !IsDigit(other) && other != unit
    requires w == [] && g == [] ==> !Group(y, unit).present
    ensures !Group(w + (g + y), unit).present
  {
    var x := w + (g + y);
    if w != [] {
      assert x[0] == w[0];
      assert !IsDigit(x[0]);
    } else if g != [] {
      var ds := g[..|g| - 1];
      assert x == ds + ([other] + y);
      DigitRunExact(ds, [other] + y);
    } else {
      assert x == y;
    }
  }

  /** `\s*` in front of a group: the whitespace goes, a present group stays
      whole (it starts with a digit), and past an absent one the skipping
      carries on. */
  lemma SkipToGroup(w: string, g: string, y: string, unit: char, n: nat)
    requires AllSpace(w) && GroupText(g, unit, n)
    ensures SkipSpace(w + (g + y)) == if g != [] then g + y else SkipSpace(y)
  {
    SkipSpaceAppend(w, g + y);
    if g != [] {
      assert (g + y)[0] == g[..|g| - 1][0];
      DigitNotSpace((g + y)[0]);
    } else {
      assert g + y == y;
    }
  }

  lemma DurationTextParses(t: string, c: Components, gd: string, w1: string, gh: string, w2: string,
                           gm: string, w3: string, gs: string)
    requires DurationText(t, c, gd, w1, gh, w2, gm, w3, gs)
    ensures ParseDuration(t) == Some(c)
  {
    var d := StageDays(t, c, gd, w1, gh, w2, gm, w3, gs);
    HoursTail(c, w1, gh, w2, gm, w3, gs);
    MinutesTail(c, w2, gm, w3, gs);
    SecondsTail(c, w3, gs);
  }

  lemma StageDays(t: string, c: Components, gd: string, w1: string, gh: string, w2: string,
                  gm: string, w3: string, gs: string) returns (d: Scan)
    requires DurationText(t, c, gd, w1, gh, w2, gm, w3, gs)
    ensures d == Group(t, 'd') && d.value == c.days && d.rest == w1 + (gh + (w2 + (gm + (w3 + gs))))
  {
    var y3 := w3 + gs;
    var y2 := w2 + (gm + y3);
    var y1 := w1 + (gh + y2);
    assert gs + [] == gs;
    GroupLater(w3, gs, [], 'd', 's', c.seconds);
    GroupLater(w2, gm, y3, 'd', 'm', c.minutes);
    GroupLater(w1, gh, y2, 'd', 'h', c.hours);
    if gd != [] {
      GroupTextOf(gd, 'd', c.days, y1);
    } else {
      assert t == y1;
    }
    d := Group(t, 'd');
  }

  /** Whitespace and then the seconds group leave the group's text. */
  lemma SkipToSeconds(w3: string, gs: string, n: nat)
    requires AllSpace(w3) && GroupText(gs, 's', n)
    ensures SkipSpace(w3 + gs) == gs
  {
    SkipToGroup(w3, gs, [], 's', n);
    assert gs + [] == gs;
  }

  /** The hours stage of the recogniser on what follows the days group. */
  lemma HoursTail(c: Components, w1: string, gh: string, w2: string, gm: string, w3: string, gs: string)
    requires AllSpace(w1) && GroupText(gh, 'h', c.hours) && AllSpace(w2) && GroupText(gm, 'm', c.minutes)
    requires AllSpace(w3) && GroupText(gs, 's', c.seconds)
    ensures var y2 := w2 + (gm + (w3 + gs));
            var h := Group(SkipSpace(w1 + (gh + y2)), 'h');
            h.value == c.hours && SkipSpace(h.rest) == SkipSpace(y2)
  {
    var y2 := w2 + (gm + (w3 + gs));
    SkipToGroup(w1, gh, y2, 'h', c.hours);
    if gh != [] {
      GroupTextOf(gh, 'h', c.hours, y2);
    } else {
      SkipToGroup(w2, gm, w3 + gs, 'm', c.minutes);
      SkipToSeconds(w3, gs, c.seconds);
      if gm != [] {
        GroupLater([], gm, w3 + gs, 'h', 'm', c.minutes);
        assert [] + (gm + (w3 + gs)) == gm + (w3 + gs);
      } else {
        GroupLater([], gs, [], 'h', 's', c.seconds);
        assert [] + (gs + []) == gs;
      }
      SkipSpaceIdempotent(y2);
    }
  }

  /** The minutes stage of the recogniser on what follows the hours group. */
  lemma MinutesTail(c: Components, w2: string, gm: string, w3: string, gs: string)
    requires AllSpace(w2) && GroupText(gm, 'm', c.minutes) && AllSpace(w3) && GroupText(gs, 's', c.seconds)
    ensures var m := Group(SkipSpace(w2 + (gm + (w3 + gs))), 'm');
            m.value == c.minutes && SkipSpace(m.rest) == SkipSpace(w3 + gs)
  {
    SkipToGroup(w2, gm, w3 + gs, 'm', c.minutes);
    SkipToSeconds(w3, gs, c.seconds);
    if gm != [] {
      GroupTextOf(gm, 'm', c.minutes, w3 + gs);
    } else {
      GroupLater([], gs, [], 'm', 's', c.seconds);
      assert [] + (gs + []) == gs;
      SkipSpaceIdempotent(w3 + gs);
    }
  }

  /** The seconds stage: the group is read and nothing is left over. */
  lemma SecondsTail(c: Components, w3: string, gs: string)
    requires AllSpace(w3) && GroupText(gs, 's', c.seconds)
    ensures var sec := Group(SkipSpace(w3 + gs), 's');
            sec.value == c.seconds && sec.rest == []
  {
    SkipToSeconds(w3, gs, c.seconds);
    if gs != [] {
      GroupTextOf(gs, 's', c.seconds, []);
      assert gs + [] == gs;
    }
  }

  // ---------------------------------------------------------------------
  // Worked examples

  /** `;TIME:17677` is read as 17677 seconds. */
  lemma ExampleTimeTagValue()
    ensures ParseTimeTag(";TIME:17677") == Some(17677)
  {
    assert NatToString(17) == "17";
    assert NatToString(176) == "176";
    assert NatToString(1767) == "1767";
    assert NatToString(17677) == "17677";
    TimeTagRoundTrip(17677);
    assert TimeTagLine(17677) == ";TIME:17677";
  }

  /** 17677 seconds are 4h 54m 37s. */
  lemma ExampleTimeTagSplit()
    ensures Decompose(17677) == Components(0, 4, 54, 37)
  {
    DecomposeUnique(Components(0, 4, 54, 37), 17677);
  }

  lemma ExampleTimeTagRendered()
    ensures Rendered(Components(0, 4, 54, 37)) == "4h 54m 37s"
  {
    RenderedFromHours(Components(0, 4, 54, 37));
    ExampleTimeTagTokens();
    assert "4h" + (" " + ("54m" + (" " + "37s"))) == "4h 54m 37s";
  }

  lemma ExampleTimeTagTokens()
    ensures Token(4, 'h') == "4h" && Token(54, 'm') == "54m" && Token(37, 's') == "37s"
  {
    assert NatToString(54) == "54";
    assert NatToString(37) == "37";
  }

  /** `1d 15h 43m 23s` is the rendering of 1*86400 + 15*3600 + 43*60 + 23 =
      143003 seconds (ParseRendered reads it back as these components). */
  lemma ExampleEstimate()
    ensures Rendered(Components(1, 15, 43, 23)) == "1d 15h 43m 23s"
    ensures TotalSeconds(Components(1, 15, 43, 23)) == 143003
  {
    var c := Components(1, 15, 43, 23);
    RenderedFromDays(c);
    ExampleEstimateTokens();
    ExampleEstimateText();
  }

  lemma ExampleEstimateText()
    ensures "1d" + (" " + ("15h" + (" " + ("43m" + (" " + "23s"))))) == "1d 15h 43m 23s"
  {
  }

  lemma ExampleEstimateTokens()
    ensures Token(1, 'd') == "1d" && Token(15, 'h') == "15h"
    ensures Token(43, 'm') == "43m" && Token(23, 's') == "23s"
  {
    assert NatToString(15) == "15";
    assert NatToString(43) == "43";
    assert NatToString(23) == "23";
  }

  /** 86400 seconds are exactly one day. */
  lemma ExampleFullDaySplit()
    ensures Decompose(86400) == Components(1, 0, 0, 0)
  {
    DecomposeUnique(Components(1, 0, 0, 0), 86400);
  }

  /** Once days are emitted every lower unit follows, even when zero. */
  lemma ExampleFullDayRendered()
    ensures Rendered(Components(1, 0, 0, 0)) == "1d 0h 0m 0s"
  {
    RenderedFromDays(Components(1, 0, 0, 0));
    ExampleFullDayTokens();
    assert "1d" + (" " + ("0h" + (" " + ("0m" + (" " + "0s"))))) == "1d 0h 0m 0s";
  }

  lemma ExampleFullDayTokens()
    ensures Token(1, 'd') == "1d" && Token(0, 'h') == "0h" && Token(0, 'm') == "0m" && Token(0, 's') == "0s"
  {
  }

  /** Durations the formatter never writes are read too: an absent group
      in the middle counts as 0. */
  lemma ExampleSparseDuration()
    ensures ParseDuration("1h 5s") == Some(Components(0, 1, 0, 5))
  {
    var c := Components(0, 1, 0, 5);
    assert GroupText("1h", 'h', 1) by { assert "1h"[..1] == "1"; }
    assert GroupText("5s", 's', 5) by { assert "5s"[..1] == "5"; }
    assert "" + ("" + ("1h" + (" " + ("" + ("" + "5s"))))) == "1h 5s";
    assert DurationText("1h 5s", c, "", "", "1h", " ", "", "", "5s");
    DurationTextParses("1h 5s", c, "", "", "1h", " ", "", "", "5s");
  }

  lemma ExampleMinutesOnly()
    ensures ParseDuration("13m") == Some(Components(0, 0, 13, 0))
  {
    var c := Components(0, 0, 13, 0);
    assert GroupText("13m", 'm', 13) by {
      assert "13m"[..2] == "13";
      assert DigitsValue("13") == DigitsValue("1") * 10 + 3;
    }
    assert "" + ("" + ("" + ("" + ("13m" + ("" + ""))))) == "13m";
    assert DurationText("13m", c, "", "", "", "", "13m", "", "");
    DurationTextParses("13m", c, "", "", "", "", "13m", "", "");
  }

  /** A zero duration is rendered as the empty string. */
  lemma ExampleZeroRendered()
    ensures Rendered(Components(0, 0, 0, 0)) == ""
  {
    RenderedSeconds(Components(0, 0, 0, 0));
  }
}
