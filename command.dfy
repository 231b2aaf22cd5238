/** The one-line Klipper macro calls that both post-processors emit:
    `NAME KEY1=value1 KEY2=value2 ...`, and how a reader of such a line
    finds a parameter again. */
module Command {
  import opened Wrappers
  import opened Text

  /** The parameter names of both macros, in the order the commands list them. */
  const ParameterNames: seq<string> :=
    ["SLICER_TIME_ESTIMATED", "ELAPSED_TIME_THRESHOLD", "REMAIN_TIME_THRESHOLD", "PROGRESS_THRESHOLD",
     "PROGRESS_TYPE", "TARGET_TEMP", "DEBUG"]

  /** The seven names are single words without `=` or a line break, and
      no two are the same. */
  lemma ParameterNamesWellFormed()
    ensures |ParameterNames| == 7
    ensures forall j :: 0 <= j < 7 ==>
              ' ' !in ParameterNames[j] && '=' !in ParameterNames[j] && '\n' !in ParameterNames[j]
    ensures forall j, k :: 0 <= j < 7 && 0 <= k < 7 && j != k ==> ParameterNames[j] != ParameterNames[k]
  {
  }

  function Assignment(key: string, value: string): string
  {
    key + "=" + value
  }

  /** The words of a command: its name, then one `KEY=value` per key. */
  function Words(name: string, keys: seq<string>, values: seq<string>): (ws: seq<string>)
    requires |keys| == |values|
    ensures |ws| == |keys| + 1 && ws[0] == name
    ensures forall i :: 0 <= i < |keys| ==> ws[i + 1] == Assignment(keys[i], values[i])
  {
    [name] + seq(|keys|, i requires 0 <= i < |keys| => Assignment(keys[i], values[i]))
  }

  /** The command line: the words separated by single spaces. */
  function Render(name: string, keys: seq<string>, values: seq<string>): string
    requires |keys| == |values|
  {
    Join(Words(name, keys, values), ' ')
  }

  /** The value of the first word of the form `key=value`, if any. */
  function Lookup(words: seq<string>, key: string): (r: Option<string>)
    ensures r.Some? ==> exists i :: 0 <= i < |words| && words[i] == key + "=" + r.value
  {
    if words == [] then None
    else if key + "=" <= words[0] then
      assert words[0] == key + "=" + words[0][|key| + 1..];
      Some(words[0][|key| + 1..])
    else
      var r := Lookup(words[1..], key);
      if r.Some? then
        var i :| 0 <= i < |words[1..]| && words[1..][i] == key + "=" + r.value;
        assert words[i + 1] == key + "=" + r.value;
        r
      else r
  }

  lemma {:induction false} LookupAt(words: seq<string>, key: string, i: nat)
    requires i < |words| && key + "=" <= words[i]
    requires forall j :: 0 <= j < i ==> !(key + "=" <= words[j])
    ensures Lookup(words, key) == Some(words[i][|key| + 1..])
  {
    if i > 0 {
      LookupAt(words[1..], key, i - 1);
    }
  }

  /** The text before the first '='. */
  function KeyOf(w: string): string
  {
    if w == [] || w[0] == '=' then [] else [w[0]] + KeyOf(w[1..])
  }

  lemma {:induction false} KeyOfAssignment(a: string, rest: string)
    requires '=' !in a
    ensures KeyOf(a + "=" + rest) == a
  {
    if a != [] {
      assert (a + "=" + rest)[1..] == a[1..] + "=" + rest;
      KeyOfAssignment(a[1..], rest);
    }
  }

  /** `a=` is a prefix of `b=v` only when a == b, for keys without '='. */
  lemma AssignmentPrefix(a: string, b: string, v: string)
    requires '=' !in a && '=' !in b
    ensures a + "=" <= Assignment(b, v) ==> a == b
  {
    var w := Assignment(b, v);
    KeyOfAssignment(b, v);
    if a + "=" <= w {
      assert w == a + "=" + w[|a| + 1..];
      KeyOfAssignment(a, w[|a| + 1..]);
    }
  }

  /** A word starting with `p=` contains '='. */
  lemma PrefixHasEquals(p: string, s: string)
    ensures p + "=" <= s ==> '=' in s
  {
    if p + "=" <= s {
      assert s[|p|] == '=';
    }
  }

  /** Reading a rendered command back: its first word is the name and
      every key maps to its value, provided no word contains a space, no
      key or name contains '=' and the keys are distinct. */
  lemma {:induction false} RenderRoundTrip(name: string, keys: seq<string>, values: seq<string>, i: nat)
    requires |keys| == |values| && i < |keys|
    requires ' ' !in name && '=' !in name
    requires forall j :: 0 <= j < |keys| ==> ' ' !in keys[j] && '=' !in keys[j] && ' ' !in values[j]
    requires forall j :: 0 <= j < |keys| && j != i ==> keys[j] != keys[i]
    ensures Split(Render(name, keys, values), ' ') == Words(name, keys, values)
    ensures Split(Render(name, keys, values), ' ')[0] == name
    ensures Lookup(Split(Render(name, keys, values), ' '), keys[i]) == Some(values[i])
  {
    var ws := Words(name, keys, values);
    WordsFree(name, keys, values, ' ');
    SplitJoin(ws, ' ');
    forall j | 0 <= j < i + 1 ensures !(keys[i] + "=" <= ws[j]) {
      if j == 0 {
        PrefixHasEquals(keys[i], name);
      } else {
        AssignmentPrefix(keys[i], keys[j - 1], values[j - 1]);
      }
    }
    LookupAt(ws, keys[i], i + 1);
    AssignmentValue(keys[i], values[i]);
  }

  lemma AssignmentValue(key: string, value: string)
    ensures Assignment(key, value)[|key| + 1..] == value
  {
  }

  /** A character other than '=' that is in no name, key or value is in no word. */
  lemma WordsFree(name: string, keys: seq<string>, values: seq<string>, c: char)
    requires |keys| == |values| && c != '='
    requires c !in name
    requires forall j :: 0 <= j < |keys| ==> c !in keys[j] && c !in values[j]
    ensures forall j :: 0 <= j < |keys| + 1 ==> c !in Words(name, keys, values)[j]
  {
    var ws := Words(name, keys, values);
    forall j | 0 <= j < |ws| ensures c !in ws[j] {
      if j > 0 {
        AssignmentFree(keys[j - 1], values[j - 1], c);
      }
    }
  }

  lemma AssignmentFree(key: string, value: string, c: char)
    requires c != '=' && c !in key && c !in value
    ensures c !in Assignment(key, value)
  {
  }

  /** The command is a single line, starting with its name. */
  lemma RenderOneLine(name: string, keys: seq<string>, values: seq<string>)
    requires |keys| == |values| && |name| > 0
    requires '\n' !in name
    requires forall j :: 0 <= j < |keys| ==> '\n' !in keys[j] && '\n' !in values[j]
    ensures Render(name, keys, values)[..|name|] == name
    ensures '\n' !in Render(name, keys, values)
  {
    var ws := Words(name, keys, values);
    WordsFree(name, keys, values, '\n');
    JoinFree(ws, ' ', '\n');
    if |ws| > 1 {
      JoinCons(ws[0], ws[1..], ' ');
      assert ws == [ws[0]] + ws[1..];
    }
  }

}
