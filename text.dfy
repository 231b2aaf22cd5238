/** Character classes, ASCII case folding, decimal numerals and the
    '\n'-separated line view of a text, as the two scripts use them. */
module Text {
  import opened Wrappers

  /** `\d` restricted to ASCII. */
  predicate IsDigit(c: char) { '0' <= c <= '9' }

  /** `\s` of a Python str pattern: the characters str.isspace() accepts,
      that is \t to \r, \x1c to \x1f, space, \x85, \xa0 and the Unicode
      space separators and line/paragraph separators. */
  const SpaceChars: set<char> :=
    {'\t', '\n', '\U{0B}', '\U{0C}', '\r', '\U{1C}', '\U{1D}', '\U{1E}', '\U{1F}', ' ', '\U{85}', '\U{A0}', '\U{1680}',
     '\U{2000}', '\U{2001}', '\U{2002}', '\U{2003}', '\U{2004}', '\U{2005}', '\U{2006}', '\U{2007}', '\U{2008}', '\U{2009}', '\U{200A}',
     '\U{2028}', '\U{2029}', '\U{202F}', '\U{205F}', '\U{3000}'}

  predicate IsSpace(c: char) {
    c in SpaceChars
  }

  predicate AllDigits(s: string) { forall i :: 0 <= i < |s| ==> IsDigit(s[i]) }

  function LowerChar(c: char): (r: char)
    ensures 'A' <= c <= 'Z' ==> r as int == c as int + 32
    ensures !('A' <= c <= 'Z') ==> r == c
  {
    if 'A' <= c <= 'Z' then (c as int + 32) as char else c
  }

  /** `str.lower()` on ASCII letters; every other character is kept. */
  function Lower(s: string): (r: string)
    ensures |r| == |s|
    ensures forall i :: 0 <= i < |s| ==> r[i] == LowerChar(s[i])
  {
    seq(|s|, i requires 0 <= i < |s| => LowerChar(s[i]))
  }

  lemma LowerAppend(a: string, b: string)
    ensures Lower(a + b) == Lower(a) + Lower(b)
  {
  }

  lemma LowerIdempotent(s: string)
    ensures Lower(Lower(s)) == Lower(s)
  {
  }

  /** Length of the leading run of whitespace. */
  function SpaceRun(s: string): (k: nat)
    ensures k <= |s|
    ensures forall i :: 0 <= i < k ==> IsSpace(s[i])
    ensures k < |s| ==> !IsSpace(s[k])
  {
    if s != [] && IsSpace(s[0]) then 1 + SpaceRun(s[1..]) else 0
  }

  /** `\s*`: what is left after the leading whitespace. */
  function SkipSpace(s: string): string
  {
    s[SpaceRun(s)..]
  }

  /** A text made of whitespace only (`\s*` matching it whole). */
  predicate AllSpace(s: string)
  {
    forall i :: 0 <= i < |s| ==> IsSpace(s[i])
  }

  lemma SpaceRunAll(s: string)
    ensures AllSpace(s[..SpaceRun(s)])
  {
  }

  /** `\s*` skips a whitespace prefix as a whole. */
  lemma {:induction false} SkipSpaceAppend(w: string, x: string)
    requires AllSpace(w)
    ensures SkipSpace(w + x) == SkipSpace(x)
  {
    if w != [] {
      var s := w + x;
      assert s[0] == w[0];
      assert s[1..] == w[1..] + x;
      assert SpaceRun(s) == 1 + SpaceRun(s[1..]);
      assert SkipSpace(s) == s[1..][SpaceRun(s[1..])..];
      SkipSpaceAppend(w[1..], x);
    } else {
      assert w + x == x;
    }
  }

  lemma SkipSpaceIdempotent(x: string)
    ensures SkipSpace(SkipSpace(x)) == SkipSpace(x)
  {
  }

  /** A text is its leading whitespace followed by what `\s*` leaves. */
  lemma SpaceSplit(x: string)
    ensures x == x[..SpaceRun(x)] + SkipSpace(x) && AllSpace(x[..SpaceRun(x)])
  {
  }

  /** A digit is not whitespace. */
  lemma DigitNotSpace(c: char)
    requires IsDigit(c)
    ensures !IsSpace(c)
  {
  }

  // ---------------------------------------------------------------------
  // Substrings (Python's `x in y` on strings)

  function IsSubstring(p: string, t: string): bool
    decreases |t|
  {
    p <= t || (|t| > 0 && IsSubstring(p, t[1..]))
  }

  /** p occurs in t starting at offset i. */
  predicate OccursAt(p: string, t: string, i: nat) {
    i + |p| <= |t| && t[i..i + |p|] == p
  }

  /** The three pieces of a concatenation, sliced back out. */
  lemma Concat3(a: string, b: string, c: string)
    ensures (a + b + c)[..|a|] == a
    ensures (a + b + c)[|a|..|a| + |b|] == b
    ensures (a + b + c)[|a| + |b|..] == c
  {
  }

  /** The recursive test agrees with "p occurs at some offset of t". */
  lemma {:induction false} IsSubstringAt(p: string, t: string)
    ensures IsSubstring(p, t) <==> exists i: nat :: OccursAt(p, t, i)
    decreases |t|
  {
    if p <= t {
      assert OccursAt(p, t, 0);
    } else if |t| > 0 {
      IsSubstringAt(p, t[1..]);
      if IsSubstring(p, t[1..]) {
        var i: nat :| OccursAt(p, t[1..], i);
        assert OccursAt(p, t, i + 1);
      }
      if exists i: nat :: OccursAt(p, t, i) {
        var i: nat :| OccursAt(p, t, i);
        if i > 0 {
          assert OccursAt(p, t[1..], i - 1);
        }
      }
    }
  }

  // ---------------------------------------------------------------------
  // Decimal numerals

  function DigitChar(d: nat): (c: char)
    requires d < 10
    ensures IsDigit(c)
  {
    ('0' as int + d) as char
  }

  function DigitValue(c: char): (d: nat)
    requires IsDigit(c)
    ensures d < 10
  {
    c as int - '0' as int
  }

  /** `str(n)` for a non-negative integer. */
  function NatToString(n: nat): (s: string)
    ensures |s| >= 1 && AllDigits(s)
  {
    if n < 10 then [DigitChar(n)] else NatToString(n / 10) + [DigitChar(n % 10)]
  }

  /** The value of a run of decimal digits (read left to right). */
  function DigitsValue(s: string): nat
    requires AllDigits(s)
  {
    if s == [] then 0 else DigitsValue(s[..|s| - 1]) * 10 + DigitValue(s[|s| - 1])
  }

  lemma {:induction false} DigitsOfNat(n: nat)
    ensures DigitsValue(NatToString(n)) == n
  {
    var s := NatToString(n);
    if n >= 10 {
      DigitsOfNat(n / 10);
      assert s[..|s| - 1] == NatToString(n / 10);
    }
  }

  /** `str(i)` for any integer. */
  function IntToString(i: int): (s: string)
    ensures |s| >= 1
    ensures s[0] == '-' <==> i < 0
    ensures i >= 0 ==> AllDigits(s)
  {
    if i < 0 then "-" + NatToString(-i) else NatToString(i)
  }

  /** A rendered integer is a sign and digits only. */
  lemma IntToStringChars(i: int)
    ensures forall j :: 0 <= j < |IntToString(i)| ==> IntToString(i)[j] == '-' || IsDigit(IntToString(i)[j])
  {
    if i < 0 {
      assert forall j :: 1 <= j < |IntToString(i)| ==> IntToString(i)[j] == NatToString(-i)[j - 1];
    }
  }

  /** `int(s)` on a string: an optional sign followed by ASCII digits.
      Anything else raises in Python; here it is None. */
  function ParseInt(s: string): (r: Option<int>)
    ensures r.Some? ==> |s| >= 1
  {
    if |s| >= 2 && s[0] == '-' && AllDigits(s[1..]) then Some(-(DigitsValue(s[1..]) as int))
    else if |s| >= 2 && s[0] == '+' && AllDigits(s[1..]) then Some(DigitsValue(s[1..]))
    else if |s| >= 1 && AllDigits(s) then Some(DigitsValue(s))
    else None
  }

  /** int(str(i)) == i. */
  lemma IntRoundTrip(i: int)
    ensures ParseInt(IntToString(i)) == Some(i)
  {
    if i < 0 {
      var t := NatToString(-i);
      var s := "-" + t;
      assert IntToString(i) == s;
      assert s[1..] == t;
      DigitsOfNat(-i);
      assert ParseInt(s) == Some(-(DigitsValue(t) as int));
    } else {
      DigitsOfNat(i);
    }
  }

  // ---------------------------------------------------------------------
  // Separated parts of a text: with '\n' as the separator, the lines
  // that `^` and `$` of a Python re.MULTILINE pattern delimit

  /** `s.split(sep)` for a one-character separator: always at least one
      (possibly empty) part, none containing the separator. */
  function Split(s: string, sep: char): (r: seq<string>)
    ensures |r| >= 1
    ensures forall i :: 0 <= i < |r| ==> sep !in r[i]
  {
    if s == [] then [[]]
    else if s[0] == sep then [[]] + Split(s[1..], sep)
    else var rest := Split(s[1..], sep); [[s[0]] + rest[0]] + rest[1..]
  }

  /** `sep.join(parts)`. */
  function Join(parts: seq<string>, sep: char): string
  {
    if |parts| == 0 then []
    else if |parts| == 1 then parts[0]
    else parts[0] + [sep] + Join(parts[1..], sep)
  }

  function Flatten(groups: seq<seq<string>>): seq<string>
  {
    if |groups| == 0 then [] else groups[0] + Flatten(groups[1..])
  }

  lemma {:induction false} JoinCons(x: string, rest: seq<string>, sep: char)
    requires |rest| >= 1
    ensures Join([x] + rest, sep) == x + [sep] + Join(rest, sep)
  {
    assert ([x] + rest)[1..] == rest;
  }

  lemma {:induction false} JoinPushFront(c: char, rest: seq<string>, sep: char)
    requires |rest| >= 1
    ensures Join([[c] + rest[0]] + rest[1..], sep) == [c] + Join(rest, sep)
  {
    if |rest| > 1 {
      JoinCons([c] + rest[0], rest[1..], sep);
      JoinCons(rest[0], rest[1..], sep);
      assert rest == [rest[0]] + rest[1..];
    }
  }

  /** Joining with one more part at the end appends a separator and it. */
  lemma {:induction false} JoinSnoc(parts: seq<string>, x: string, sep: char)
    requires |parts| >= 1
    ensures Join(parts + [x], sep) == Join(parts, sep) + ([sep] + x)
  {
    var all := parts + [x];
    assert all[0] == parts[0];
    if |parts| == 1 {
      assert all[1..] == [x];
    } else {
      assert all[1..] == parts[1..] + [x];
      JoinSnoc(parts[1..], x, sep);
    }
  }

  /** Splitting and re-joining gives the text back. */
  lemma {:induction false} JoinSplit(s: string, sep: char)
    ensures Join(Split(s, sep), sep) == s
  {
    if s == [] {
    } else if s[0] == sep {
      JoinSplit(s[1..], sep);
      JoinCons([], Split(s[1..], sep), sep);
    } else {
      JoinSplit(s[1..], sep);
      JoinPushFront(s[0], Split(s[1..], sep), sep);
    }
  }

  /** A separator splits the part view in two. */
  lemma {:induction false} SplitConcat(a: string, b: string, sep: char)
    ensures Split(a + [sep] + b, sep) == Split(a, sep) + Split(b, sep)
  {
    var s := a + [sep] + b;
    if a == [] {
      assert s[1..] == b;
    } else {
      assert s[0] == a[0];
      assert s[1..] == a[1..] + [sep] + b;
      SplitConcat(a[1..], b, sep);
      var r, q := Split(a[1..], sep), Split(b, sep);
      assert Split(s[1..], sep) == r + q;
      if a[0] == sep {
        assert Split(s, sep) == [[]] + (r + q);
      } else {
        assert (r + q)[0] == r[0];
        assert (r + q)[1..] == r[1..] + q;
        assert Split(s, sep) == [[a[0]] + r[0]] + (r[1..] + q);
        assert Split(a, sep) == [[a[0]] + r[0]] + r[1..];
      }
    }
  }

  /** A text without the separator is a single part. */
  lemma {:induction false} SplitOfPart(s: string, sep: char)
    requires sep !in s
    ensures Split(s, sep) == [s]
  {
    if s != [] {
      assert sep !in s[1..] by {
        forall i | 0 <= i < |s[1..]| ensures s[1..][i] != sep { assert s[1..][i] == s[i + 1]; }
      }
      SplitOfPart(s[1..], sep);
      assert [s[0]] + s[1..] == s;
    }
  }

  /** The part view of joined texts is the concatenation of their part views. */
  lemma {:induction false} SplitOfJoin(ts: seq<string>, sep: char)
    requires |ts| >= 1
    ensures Split(Join(ts, sep), sep) == Flatten(seq(|ts|, i requires 0 <= i < |ts| => Split(ts[i], sep)))
  {
    var groups := seq(|ts|, i requires 0 <= i < |ts| => Split(ts[i], sep));
    if |ts| == 1 {
      assert Flatten(groups) == groups[0] + Flatten([]);
    } else {
      SplitOfJoin(ts[1..], sep);
      SplitConcat(ts[0], Join(ts[1..], sep), sep);
      assert groups[1..] == seq(|ts[1..]|, i requires 0 <= i < |ts[1..]| => Split(ts[1..][i], sep));
    }
  }

  /** Joining parts that do not contain the separator can be undone. */
  lemma {:induction false} SplitJoin(ts: seq<string>, sep: char)
    requires |ts| >= 1
    requires forall i :: 0 <= i < |ts| ==> sep !in ts[i]
    ensures Split(Join(ts, sep), sep) == ts
  {
    if |ts| == 1 {
      SplitOfPart(ts[0], sep);
    } else {
      SplitJoin(ts[1..], sep);
      SplitConcat(ts[0], Join(ts[1..], sep), sep);
      SplitOfPart(ts[0], sep);
    }
  }

  /** Joining parts that avoid a character, with a separator other than
      it, avoids it too. */
  lemma {:induction false} JoinFree(ws: seq<string>, sep: char, c: char)
    requires sep != c
    requires forall j :: 0 <= j < |ws| ==> c !in ws[j]
    ensures c !in Join(ws, sep)
  {
    if |ws| > 1 {
      JoinFree(ws[1..], sep, c);
    }
  }
}
