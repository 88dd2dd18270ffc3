/** lib/util.js: line splitting and the small string helpers. */
module Util {
  import opened Wrappers
  import Js

  /** `str.split(/\r\n|\n/)`: at each position the regex tries `\r\n` before `\n`, so a
      `\r` is removed only when a `\n` follows it. */
  function SplitLines(s: string): (r: seq<string>)
    ensures |r| >= 1
    ensures forall i :: 0 <= i < |r| ==> '\n' !in r[i]
  {
    if s == [] then [""]
    else if |s| >= 2 && s[0] == '\r' && s[1] == '\n' then [""] + SplitLines(s[2..])
    else if s[0] == '\n' then [""] + SplitLines(s[1..])
    else
      var t := SplitLines(s[1..]);
      [[s[0]] + t[0]] + t[1..]
  }

  /** `parseLines`: split on line breaks, then `pop` one trailing empty element. */
  function ParseLines(s: string): (r: seq<string>)
    ensures forall i :: 0 <= i < |r| ==> '\n' !in r[i]
    ensures s == "" ==> r == []
  {
    var parts := SplitLines(s);
    if parts[|parts| - 1] == "" then parts[..|parts| - 1] else parts
  }

  /** The `.map(m => m + "\n").join("")` idiom: every line terminated by a newline. */
  function JoinLines(lines: seq<string>): string
  {
    if lines == [] then "" else lines[0] + "\n" + JoinLines(lines[1..])
  }

  /** A line the joins can carry through `parseLines` unchanged. */
  predicate PlainLine(l: string)
  {
    '\n' !in l && '\r' !in l
  }

  lemma {:induction false} SplitLinesNoBreak(s: string)
    requires '\n' !in s
    ensures SplitLines(s) == [s]
  {
    if s != [] {
      SplitLinesNoBreak(s[1..]);
      assert s == [s[0]] + s[1..];
    }
  }

  /** Text without a newline is one line, `\r` included. */
  lemma ParseLinesSingle(s: string)
    requires '\n' !in s && s != ""
    ensures ParseLines(s) == [s]
  {
    SplitLinesNoBreak(s);
  }

  lemma {:induction false} SplitLinesWord(w: string, rest: string)
    requires PlainLine(w)
    ensures SplitLines(w + "\n" + rest) == [w] + SplitLines(rest)
  {
    if w == [] {
      assert w + "\n" + rest == "\n" + rest;
      assert ("\n" + rest)[1..] == rest;
    } else {
      assert (w + "\n" + rest)[1..] == w[1..] + "\n" + rest;
      SplitLinesWord(w[1..], rest);
      assert w == [w[0]] + w[1..];
    }
  }

  lemma {:induction false} SplitLinesJoin(lines: seq<string>)
    requires forall i :: 0 <= i < |lines| ==> PlainLine(lines[i])
    ensures SplitLines(JoinLines(lines)) == lines + [""]
  {
    if lines != [] {
      SplitLinesWord(lines[0], JoinLines(lines[1..]));
      SplitLinesJoin(lines[1..]);
      assert lines == [lines[0]] + lines[1..];
    }
  }

  /** `parseLines` inverts the newline joins used for lock bodies and diffs, keeping
      inner and final empty lines: only the one empty element after the last newline
      is dropped. */
  lemma ParseLinesJoin(lines: seq<string>)
    requires forall i :: 0 <= i < |lines| ==> PlainLine(lines[i])
    ensures ParseLines(JoinLines(lines)) == lines
  {
    SplitLinesJoin(lines);
    var parts := SplitLines(JoinLines(lines));
    assert parts[..|parts| - 1] == lines;
  }

  lemma {:induction false} JoinLinesAppend(a: seq<string>, b: seq<string>)
    ensures JoinLines(a + b) == JoinLines(a) + JoinLines(b)
  {
    if a != [] {
      assert (a + b)[1..] == a[1..] + b;
      JoinLinesAppend(a[1..], b);
    } else {
      assert a + b == b;
    }
  }

  /** The joined text is empty or ends with a newline. */
  lemma {:induction false} JoinLinesEnds(lines: seq<string>)
    ensures JoinLines(lines) == "" || Js.EndsWith(JoinLines(lines), "\n")
    ensures JoinLines(lines) == "" <==> lines == []
  {
    if lines != [] {
      JoinLinesEnds(lines[1..]);
    }
  }

  /** `lines.join("\n")`: newlines between the lines only. */
  function JoinNewline(lines: seq<string>): string
  {
    if lines == [] then "" else if |lines| == 1 then lines[0] else lines[0] + "\n" + JoinNewline(lines[1..])
  }

  /** `split` of newline-terminated lines followed by more text. */
  lemma {:induction false} SplitLinesAppend(lines: seq<string>, rest: string)
    requires forall i :: 0 <= i < |lines| ==> PlainLine(lines[i])
    ensures SplitLines(JoinLines(lines) + rest) == lines + SplitLines(rest)
    decreases |lines|
  {
    if lines == [] {
      assert JoinLines(lines) + rest == rest;
    } else {
      SplitLinesAppend(lines[1..], rest);
      SplitLinesAppendStep(lines, rest);
    }
  }

  /** The step of `SplitLinesAppend` over the first line. */
  lemma SplitLinesAppendStep(lines: seq<string>, rest: string)
    requires lines != [] && PlainLine(lines[0])
    requires SplitLines(JoinLines(lines[1..]) + rest) == lines[1..] + SplitLines(rest)
    ensures SplitLines(JoinLines(lines) + rest) == lines + SplitLines(rest)
  {
    var tail := JoinLines(lines[1..]);
    Assoc(lines[0] + "\n", tail, rest);
    SplitLinesWord(lines[0], tail + rest);
    ConsSplit(lines, SplitLines(rest));
  }

  lemma Assoc<T>(a: seq<T>, b: seq<T>, c: seq<T>)
    ensures a + b + c == a + (b + c)
  {
  }

  lemma ConsSplit<T>(xs: seq<T>, ys: seq<T>)
    requires xs != []
    ensures [xs[0]] + (xs[1..] + ys) == xs + ys
  {
    assert xs == [xs[0]] + xs[1..];
  }

  /** The last piece of a split is empty exactly when the text is empty or ends with a
      newline. */
  lemma {:induction false} SplitLinesLast(s: string)
    ensures var r := SplitLines(s); r[|r| - 1] == "" <==> s == "" || s[|s| - 1] == '\n'
    decreases |s|
  {
    if s == [] {
    } else if |s| >= 2 && s[0] == '\r' && s[1] == '\n' {
      SplitLinesLast(s[2..]);
      SplitLinesLastBreak(s, 2);
    } else if s[0] == '\n' {
      SplitLinesLast(s[1..]);
      SplitLinesLastBreak(s, 1);
    } else {
      SplitLinesLast(s[1..]);
      if |s| >= 2 && s[|s| - 1] == '\n' {
        SplitLinesBreak(s[1..], |s| - 2);
      }
      SplitLinesLastChar(s);
    }
  }

  /** A text with a newline splits into at least two pieces. */
  lemma {:induction false} SplitLinesBreak(s: string, k: nat)
    requires k < |s| && s[k] == '\n'
    ensures |SplitLines(s)| > 1
    decreases |s|
  {
    if s[0] != '\n' && !(|s| >= 2 && s[0] == '\r' && s[1] == '\n') {
      SplitLinesBreak(s[1..], k - 1);
    }
  }

  /** The step of `SplitLinesLast` over a leading line break of `k` characters. */
  lemma SplitLinesLastBreak(s: string, k: nat)
    requires (k == 2 && |s| >= 2 && s[0] == '\r' && s[1] == '\n') || (k == 1 && s != [] && s[0] == '\n')
    requires var t := SplitLines(s[k..]); t[|t| - 1] == "" <==> s[k..] == "" || s[|s| - 1] == '\n'
    ensures var r := SplitLines(s); r[|r| - 1] == "" <==> s[|s| - 1] == '\n'
  {
    var t := SplitLines(s[k..]);
    assert SplitLines(s) == [""] + t;
    assert s[k..] == "" ==> s[|s| - 1] == s[k - 1];
  }

  /** The step of `SplitLinesLast` over a leading character that is not a line break. */
  lemma SplitLinesLastChar(s: string)
    requires s != [] && s[0] != '\n' && !(|s| >= 2 && s[0] == '\r' && s[1] == '\n')
    requires var t := SplitLines(s[1..]); t[|t| - 1] == "" <==> s[1..] == "" || s[|s| - 1] == '\n'
    requires |s| >= 2 && s[|s| - 1] == '\n' ==> |SplitLines(s[1..])| > 1
    ensures var r := SplitLines(s); r[|r| - 1] == "" <==> s[|s| - 1] == '\n'
  {
    var t := SplitLines(s[1..]);
    var r := SplitLines(s);
    assert r == [[s[0]] + t[0]] + t[1..];
    if |t| == 1 {
      assert r[|r| - 1] == [s[0]] + t[0];
    } else {
      assert r[|r| - 1] == t[|t| - 1];
    }
  }

  /** Splitting and joining back with `"\n"` gives the text again when it has no `\r`. */
  lemma {:induction false} JoinNewlineSplit(s: string)
    requires '\r' !in s
    ensures JoinNewline(SplitLines(s)) == s
  {
    if s != [] {
      assert s == [s[0]] + s[1..];
      assert s[0] != '\r';
      JoinNewlineSplit(s[1..]);
      var t := SplitLines(s[1..]);
      if s[0] != '\n' {
        assert SplitLines(s) == [[s[0]] + t[0]] + t[1..];
      }
    }
  }

  /** With a last line that is not empty and holds no newline, the joined text does not
      end with a newline. */
  lemma {:induction false} JoinNewlineLast(lines: seq<string>)
    requires lines != [] && lines[|lines| - 1] != "" && '\n' !in lines[|lines| - 1]
    ensures JoinNewline(lines) != "" && !Js.EndsWith(JoinNewline(lines), "\n")
  {
    if |lines| == 1 {
      var l := lines[0];
      assert l[|l| - 1] in l;
      assert l[|l| - 1..] == [l[|l| - 1]];
    } else {
      JoinNewlineLast(lines[1..]);
      var j := JoinNewline(lines[1..]);
      assert (lines[0] + "\n" + j)[|lines[0] + "\n" + j| - 1..] == j[|j| - 1..];
    }
  }

  /** Joining with one more line puts a newline before it. */
  lemma {:induction false} JoinNewlineSnoc(lines: seq<string>, x: string)
    requires lines != []
    ensures JoinNewline(lines + [x]) == JoinNewline(lines) + "\n" + x
  {
    if |lines| > 1 {
      assert (lines + [x])[1..] == lines[1..] + [x];
      JoinNewlineSnoc(lines[1..], x);
    }
  }

  /** `parseLine`: the single line of `str`, failing (the `assert`) unless there is
      exactly one. */
  function ParseLine(s: string): (r: Option<string>)
    ensures r.Some? ==> '\n' !in r.value && r.value in ParseLines(s)
    ensures r.Some? <==> |ParseLines(s)| == 1
  {
    var lines := ParseLines(s);
    if |lines| == 1 then Some(lines[0]) else None
  }

  /** Only the trailing newline is stripped: `parseLine(l + "\n") == l`. */
  lemma ParseLineStrips(l: string)
    requires PlainLine(l)
    ensures ParseLine(l + "\n") == Some(l)
    ensures l != "" ==> ParseLine(l) == Some(l)
  {
    ParseLinesJoin([l]);
    assert JoinLines([l]) == l + "\n" + JoinLines([]);
    assert l + "\n" + "" == l + "\n";
    if l != "" {
      ParseLinesSingle(l);
    }
  }

  /** A JavaScript value that is a string or something else (`undefined`, an object). */
  datatype Value<T> = Text(text: string) | Other(other: T)

  function ReplaceBackslashes(s: string): (r: string)
    ensures |r| == |s|
    ensures forall i :: 0 <= i < |s| ==> r[i] == if s[i] == '\\' then '/' else s[i]
  {
    if s == [] then [] else [if s[0] == '\\' then '/' else s[0]] + ReplaceBackslashes(s[1..])
  }

  /** `slashPath`: every backslash of a string becomes a slash; a non-string is returned
      as it is. */
  function SlashPath<T>(path: Value<T>): (r: Value<T>)
    ensures path.Other? ==> r == path
    ensures path.Text? ==> r.Text? && |r.text| == |path.text| && '\\' !in r.text
    ensures path.Text? ==> forall i :: 0 <= i < |path.text| && path.text[i] != '\\' ==>
                                      r.text[i] == path.text[i]
    ensures path.Text? ==> forall i :: 0 <= i < |path.text| && path.text[i] == '\\' ==>
                                      r.text[i] == '/'
  {
    match path
    case Text(s) => Text(ReplaceBackslashes(s))
    case Other(_) => path
  }

  lemma SlashPathIdempotent<T>(path: Value<T>)
    ensures SlashPath(SlashPath(path)) == SlashPath(path)
  {
    if path.Text? {
      var once := SlashPath(path).text;
      assert SlashPath(SlashPath(path)).text == once;
    }
  }

  function Repeat(c: char, n: nat): (r: string)
    ensures |r| == n && forall i :: 0 <= i < n ==> r[i] == c
  {
    if n == 0 then "" else [c] + Repeat(c, n - 1)
  }

  /** `pad(num, len)`: `"0".repeat(len - s.length) + s` with `s = num.toString()`;
      `repeat` throws a RangeError on a negative count. */
  function Pad(num: nat, len: int): (r: Option<string>)
    ensures r.Some? <==> len >= |Js.DecimalString(num)|
    ensures r.Some? ==> |r.value| == len && Js.AllDigits(r.value)
    ensures r.Some? ==> Js.DigitsValue(r.value) == num
    ensures r.Some? ==> Js.EndsWith(r.value, Js.DecimalString(num))
  {
    var s := Js.DecimalString(num);
    if len < |s| then None
    else
      var z := Repeat('0', len - |s|);
      LeadingZeros(z, s);
      Js.DigitsValueOfDecimal(num);
      assert (z + s)[|z + s| - |s|..] == s;
      Some(z + s)
  }

  lemma {:induction false} LeadingZeros(z: string, s: string)
    requires forall i :: 0 <= i < |z| ==> z[i] == '0'
    requires Js.AllDigits(s)
    ensures Js.AllDigits(z + s)
    ensures Js.DigitsValue(z + s) == Js.DigitsValue(s)
    decreases |s| + |z|
  {
    if s == [] {
      assert z + s == z;
      if z != [] {
        LeadingZeros(z[..|z| - 1], []);
        assert z[..|z| - 1] + [] == z[..|z| - 1];
      }
    } else {
      var p := s[..|s| - 1];
      LeadingZeros(z, p);
      assert (z + s)[..|z + s| - 1] == z + p;
    }
  }

  /** `last(arr)`: the final element, `undefined` for an empty array. */
  function Last<T>(arr: seq<T>): (r: Option<T>)
    ensures r.None? <==> arr == []
    ensures r.Some? ==> r.value in arr
  {
    if arr == [] then None else Some(arr[|arr| - 1])
  }

  /** After `push(x)`, `last` returns x. */
  lemma LastOfPush<T>(arr: seq<T>, x: T)
    ensures Last(arr + [x]) == Some(x)
  {
  }
}
