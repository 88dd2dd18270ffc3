/** The JavaScript built-ins the modelled code relies on: the `\s` and `\d` regex classes,
    line terminators, `startsWith`/`endsWith`, `Number.prototype.toString` and `parseInt`
    on decimal digits, `<` on strings, `String.prototype.split` with a one-character
    separator and `indexOf`. */
module Js {
  import opened Wrappers

  predicate StartsWith(s: string, p: string)
  {
    |p| <= |s| && s[..|p|] == p
  }

  predicate EndsWith(s: string, p: string)
  {
    |p| <= |s| && s[|s| - |p|..] == p
  }

  /** `\d` in a JavaScript regex: ASCII digits only. */
  predicate IsDigit(c: char)
  {
    '0' <= c <= '9'
  }

  predicate AllDigits(s: string)
  {
    forall i :: 0 <= i < |s| ==> IsDigit(s[i])
  }

  /** `[0-9a-f]` */
  predicate IsLowerHex(c: char)
  {
    IsDigit(c) || 'a' <= c <= 'f'
  }

  /** The characters `.` does not match in a JavaScript regex. */
  predicate IsLineTerminator(c: char)
  {
    c == '\n' || c == '\r' || c == '\U{2028}' || c == '\U{2029}'
  }

  predicate NoLineTerminator(s: string)
  {
    forall i :: 0 <= i < |s| ==> !IsLineTerminator(s[i])
  }

  /** `\s` in a JavaScript regex: ECMAScript WhiteSpace and LineTerminator characters. */
  predicate IsWhitespace(c: char)
  {
    c == '\t' || c == '\n' || c == '\U{000B}' || c == '\U{000C}' || c == '\r' || c == ' ' ||
    c == '\U{00A0}' || c == '\U{1680}' || ('\U{2000}' <= c <= '\U{200A}') ||
    c == '\U{2028}' || c == '\U{2029}' || c == '\U{202F}' || c == '\U{205F}' ||
    c == '\U{3000}' || c == '\U{FEFF}'
  }

  predicate NoWhitespace(s: string)
  {
    forall i :: 0 <= i < |s| ==> !IsWhitespace(s[i])
  }

  /** The longest prefix of `s` matched by `[^\s]*`. */
  function NonSpaceRun(s: string): (r: string)
    ensures |r| <= |s| && r == s[..|r|] && NoWhitespace(r)
    ensures |r| < |s| ==> IsWhitespace(s[|r|])
  {
    if s == [] || IsWhitespace(s[0]) then [] else [s[0]] + NonSpaceRun(s[1..])
  }

  lemma {:induction false} NonSpaceRunOf(w: string, rest: string)
    requires NoWhitespace(w)
    requires rest == [] || IsWhitespace(rest[0])
    ensures NonSpaceRun(w + rest) == w
  {
    if w == [] {
      assert w + rest == rest;
    } else {
      assert (w + rest)[1..] == w[1..] + rest;
      NonSpaceRunOf(w[1..], rest);
    }
  }

  function DigitChar(d: nat): (c: char)
    requires d < 10
    ensures IsDigit(c)
  {
    (48 + d) as char
  }

  function DigitValue(c: char): (d: nat)
    requires IsDigit(c)
    ensures d < 10 && DigitChar(d) == c
  {
    c as int - 48
  }

  /** `n.toString()` for a non-negative integer: decimal digits without leading zeros. */
  function DecimalString(n: nat): (s: string)
    ensures |s| >= 1 && AllDigits(s)
    ensures |s| > 1 ==> s[0] != '0'
  {
    if n < 10 then [DigitChar(n)] else DecimalString(n / 10) + [DigitChar(n % 10)]
  }

  /** The number a string of decimal digits denotes, as `parseInt(s, 10)` reads it. */
  function DigitsValue(s: string): nat
    requires AllDigits(s)
  {
    if s == [] then 0 else DigitsValue(s[..|s| - 1]) * 10 + DigitValue(s[|s| - 1])
  }

  lemma {:induction false} DigitsValueOfDecimal(n: nat)
    ensures DigitsValue(DecimalString(n)) == n
  {
    if n >= 10 {
      var s := DecimalString(n);
      assert s[..|s| - 1] == DecimalString(n / 10);
      DigitsValueOfDecimal(n / 10);
    }
  }

  /** A decimal numeral with no leading zero is the numeral `toString` produces. */
  lemma {:induction false} DecimalOfDigits(s: string)
    requires |s| >= 1 && AllDigits(s) && (|s| > 1 ==> s[0] != '0')
    ensures DecimalString(DigitsValue(s)) == s
    decreases |s|
  {
    if |s| == 1 {
    } else {
      var p := s[..|s| - 1];
      DecimalOfDigits(p);
      DigitsBounds(p);
      assert DigitsValue(s) / 10 == DigitsValue(p);
      assert s == p + [s[|s| - 1]];
    }
  }

  function Pow10(k: nat): (r: nat)
    ensures r >= 1
  {
    if k == 0 then 1 else 10 * Pow10(k - 1)
  }

  /** A numeral of k digits denotes less than 10^k, and at least 10^(k-1) without a leading zero. */
  lemma {:induction false} DigitsBounds(s: string)
    requires AllDigits(s)
    ensures DigitsValue(s) < Pow10(|s|)
    ensures |s| >= 1 && s[0] != '0' ==> Pow10(|s| - 1) <= DigitsValue(s)
  {
    if s != [] {
      var p := s[..|s| - 1];
      DigitsBounds(p);
      if |s| >= 2 {
        assert p[0] == s[0];
      }
    }
  }

  /** The length of `n.toString()` is the number of decimal digits of n. */
  lemma DecimalLength(n: nat, k: nat)
    requires k >= 1
    ensures |DecimalString(n)| <= k <==> n < Pow10(k)
  {
    var s := DecimalString(n);
    DigitsValueOfDecimal(n);
    DigitsBounds(s);
    if |s| <= k {
      PowMonotone(|s|, k);
    } else {
      PowMonotone(k, |s| - 1);
    }
  }

  lemma {:induction false} PowMonotone(i: nat, j: nat)
    requires i <= j
    ensures Pow10(i) <= Pow10(j)
    decreases j
  {
    if i < j {
      PowMonotone(i, j - 1);
    }
  }

  /** `Array.prototype.indexOf` / `Buffer.prototype.indexOf` from position `from`;
      `None` stands for -1. */
  function IndexOf<T(==)>(s: seq<T>, x: T, from: nat): (r: Option<nat>)
    ensures r.Some? ==> from <= r.value < |s| && s[r.value] == x
    ensures r.Some? ==> forall j :: from <= j < r.value ==> s[j] != x
    ensures r.None? ==> forall j :: from <= j < |s| ==> s[j] != x
    decreases |s| - from
  {
    if from >= |s| then None
    else if s[from] == x then Some(from)
    else IndexOf(s, x, from + 1)
  }

  /** The first occurrence at or after `from` is the one `indexOf` finds. */
  lemma IndexOfFirst<T>(s: seq<T>, x: T, from: nat, k: nat)
    requires from <= k < |s| && s[k] == x
    requires forall j :: from <= j < k ==> s[j] != x
    ensures IndexOf(s, x, from) == Some(k)
  {
    var r := IndexOf(s, x, from);
    assert r.Some? ==> r.value <= k;
  }

  /** The UTF-16 code units of one character: the character itself below
    * U+10000, a surrogate pair above it. */
  function Units(c: char): (r: seq<int>)
    ensures |r| == 1 <==> c as int < 0x1_0000
    ensures |r| == 1 || |r| == 2
    ensures 0xD800 <= r[0] < 0xDC00 <==> |r| == 2
  {
    if c as int < 0x1_0000 then [c as int]
    else [0xD800 + (c as int - 0x1_0000) / 0x400, 0xDC00 + (c as int - 0x1_0000) % 0x400]
  }

  /** The UTF-16 encoding of a string: the sequence JavaScript strings are made of. */
  function Utf16(s: string): (r: seq<int>)
    ensures |r| >= |s|
  {
    if s == [] then [] else Units(s[0]) + Utf16(s[1..])
  }

  /** Lexicographic order on code-unit sequences, a proper prefix being smaller. */
  predicate LexLess(a: seq<int>, b: seq<int>)
  {
    if a == [] then b != []
    else if b == [] then false
    else if a[0] != b[0] then a[0] < b[0]
    else LexLess(a[1..], b[1..])
  }

  /** `a < b` on strings: JavaScript compares the UTF-16 code units. */
  predicate Less(a: string, b: string)
  {
    LexLess(Utf16(a), Utf16(b))
  }

  /** Different characters have different code units. */
  lemma UnitsInjective(x: char, y: char)
    requires Units(x) == Units(y)
    ensures x == y
  {
    if x as int >= 0x1_0000 {
      var u, v := x as int - 0x1_0000, y as int - 0x1_0000;
      assert u == 0x400 * (u / 0x400) + u % 0x400;
      assert v == 0x400 * (v / 0x400) + v % 0x400;
    }
  }

  /** The encoding loses nothing: equal code units come from equal strings. */
  lemma {:induction false} Utf16Injective(a: string, b: string)
    requires Utf16(a) == Utf16(b)
    ensures a == b
  {
    if a != [] && b != [] {
      var u, v := Units(a[0]), Units(b[0]);
      var s, t := Utf16(a[1..]), Utf16(b[1..]);
      assert u + s == v + t;
      assert u[0] == (u + s)[0] == (v + t)[0] == v[0];
      assert |u| == |v|;
      assert u == (u + s)[..|u|] == (v + t)[..|v|] == v;
      assert s == (u + s)[|u|..] == (v + t)[|v|..] == t;
      UnitsInjective(a[0], b[0]);
      Utf16Injective(a[1..], b[1..]);
      assert a == [a[0]] + a[1..] && b == [b[0]] + b[1..];
    }
  }

  /** Exactly one of a < b, b < a, a == b holds on code-unit sequences. */
  lemma {:induction false} LexTrichotomy(a: seq<int>, b: seq<int>)
    ensures LexLess(a, b) || LexLess(b, a) || a == b
    ensures !(LexLess(a, b) && LexLess(b, a))
    ensures LexLess(a, b) ==> a != b
  {
    if a != [] && b != [] && a[0] == b[0] {
      LexTrichotomy(a[1..], b[1..]);
      if a[1..] == b[1..] {
        assert a == [a[0]] + a[1..] && b == [b[0]] + b[1..];
      }
    }
  }

  /** Exactly one of a < b, b < a, a == b holds. */
  lemma LessTrichotomy(a: string, b: string)
    ensures Less(a, b) || Less(b, a) || a == b
    ensures !(Less(a, b) && Less(b, a))
    ensures Less(a, b) ==> a != b
  {
    LexTrichotomy(Utf16(a), Utf16(b));
    if Utf16(a) == Utf16(b) {
      Utf16Injective(a, b);
    }
  }

  /** Code-unit order is not code-point order: U+1F600 sorts before U+FF61,
    * because its leading surrogate 0xD83D is below 0xFF61. */
  lemma AstralBeforeHighBmp()
    ensures Less("\U{1F600}", "\U{FF61}")
    ensures "\U{FF61}"[0] < "\U{1F600}"[0]
  {
    assert Units('\U{1F600}') == [0xD83D, 0xDE00];
    assert Utf16("\U{1F600}") == [0xD83D, 0xDE00];
    assert Utf16("\U{FF61}") == [0xFF61];
  }

  /** `s.split(c)` for a one-character separator. */
  function SplitOn(s: string, c: char): (r: seq<string>)
    ensures |r| >= 1
    ensures forall i :: 0 <= i < |r| ==> c !in r[i]
  {
    if s == [] then [""]
    else if s[0] == c then [""] + SplitOn(s[1..], c)
    else
      var t := SplitOn(s[1..], c);
      [[s[0]] + t[0]] + t[1..]
  }

  /** `parts.join(c)`. */
  function JoinOn(parts: seq<string>, c: char): string
  {
    if parts == [] then ""
    else if |parts| == 1 then parts[0]
    else parts[0] + [c] + JoinOn(parts[1..], c)
  }

  /** Joining the pieces of a split with the separator gives back the text. */
  lemma {:induction false} SplitOnJoin(s: string, c: char)
    ensures JoinOn(SplitOn(s, c), c) == s
  {
    if s != [] {
      var t := SplitOn(s[1..], c);
      SplitOnJoin(s[1..], c);
      if s[0] == c {
        assert ([""] + t)[1..] == t;
        assert s == [c] + s[1..];
      } else if |t| == 1 {
        assert s == [s[0]] + s[1..];
      } else {
        var r := [[s[0]] + t[0]] + t[1..];
        assert r[1..] == t[1..];
        assert JoinOn(t, c) == t[0] + [c] + JoinOn(t[1..], c);
        assert s == [s[0]] + s[1..];
      }
    }
  }

  lemma {:induction false} SplitOnWord(w: string, c: char, rest: string)
    requires c !in w
    ensures SplitOn(w + [c] + rest, c) == [w] + SplitOn(rest, c)
  {
    if w == [] {
      assert w + [c] + rest == [c] + rest;
      assert ([c] + rest)[1..] == rest;
    } else {
      assert (w + [c] + rest)[1..] == w[1..] + [c] + rest;
      SplitOnWord(w[1..], c, rest);
      assert w == [w[0]] + w[1..];
    }
  }

  lemma {:induction false} SplitOnNone(w: string, c: char)
    requires c !in w
    ensures SplitOn(w, c) == [w]
  {
    if w != [] {
      SplitOnNone(w[1..], c);
      assert w == [w[0]] + w[1..];
    }
  }
}
