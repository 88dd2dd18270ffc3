/** lib/diff.js, text side: the encoder at the end of `exports.diff` (as written and as
    evidently intended), a decoder for its output, and the text-level `computeDiff` /
    `applyDiff` pair the tests call. */
module DiffCodec {
  import opened Wrappers
  import Js
  import opened Util
  import opened Diff

  /** The header line of an op, without its newline: `a i`, `d i n` or `c i n`. */
  function HeaderLine(op: Op): string
  {
    match op
    case Add(i, _) => "a " + Js.DecimalString(i)
    case Delete(i, n) => "d " + Js.DecimalString(i) + " " + Js.DecimalString(n)
    case Change(i, n, _) => "c " + Js.DecimalString(i) + " " + Js.DecimalString(n)
  }

  /** The text one op encodes to, when the dispatch reads `action.type`: the header, then
      each emitted line followed by a newline. */
  function EncodeOp(op: Op): string
  {
    match op
    case Add(i, ls) => "a " + Js.DecimalString(i) + "\n" + JoinLines(ls)
    case Delete(i, n) => "d " + Js.DecimalString(i) + " " + Js.DecimalString(n) + "\n"
    case Change(i, n, ls) => "c " + Js.DecimalString(i) + " " + Js.DecimalString(n) + "\n" + JoinLines(ls)
  }

  /** `diff.map(...).join("")` with the dispatch on `action.type`. */
  function Encode(ops: seq<Op>): string
  {
    if ops == [] then "" else EncodeOp(ops[0]) + Encode(ops[1..])
  }

  /** The lines of the encoding: each op's header followed by the lines it emits. */
  function EncodeLines(ops: seq<Op>): seq<string>
  {
    if ops == [] then [] else [HeaderLine(ops[0])] + Inserted(ops[0]) + EncodeLines(ops[1..])
  }

  /** The encoding is the line-joined form of its lines. */
  lemma {:induction false} EncodeIsJoin(ops: seq<Op>)
    ensures Encode(ops) == JoinLines(EncodeLines(ops))
  {
    if ops != [] {
      var op := ops[0];
      EncodeIsJoin(ops[1..]);
      JoinLinesAppend([HeaderLine(op)] + Inserted(op), EncodeLines(ops[1..]));
      JoinLinesAppend([HeaderLine(op)], Inserted(op));
      assert JoinLines([HeaderLine(op)]) == HeaderLine(op) + "\n";
      match op {
        case Add(i, ls) =>
        case Delete(i, n) =>
          assert JoinLines(Inserted(op)) == "";
        case Change(i, n, ls) =>
      }
    }
  }

  /** A JavaScript value as the encoder's comparisons see it: the op records are objects,
      and an object is never strictly equal to a string. */
  datatype JsValue = Str(s: string) | Record(op: Op)

  /** One op through the dispatch as written: `action === "add"` compares the record
      itself with a string, so no branch is taken and the callback returns `undefined`
      (`None`). */
  function EncodeOpAsWritten(action: Op): Option<string>
  {
    if Record(action) == Str("add") then Some(EncodeOp(action))
    else if Record(action) == Str("delete") then Some(EncodeOp(action))
    else if Record(action) == Str("change") then Some(EncodeOp(action))
    else None
  }

  /** `Array.prototype.join("")`: `undefined` elements contribute the empty string. */
  function JoinAsWritten(parts: seq<Option<string>>): string
  {
    if parts == [] then ""
    else (match parts[0] case None => "" case Some(t) => t) + JoinAsWritten(parts[1..])
  }

  function EncodeAsWritten(ops: seq<Op>): string
  {
    JoinAsWritten(seq(|ops|, i requires 0 <= i < |ops| => EncodeOpAsWritten(ops[i])))
  }

  /** As written the encoder returns the empty text for every op list. */
  lemma EncodeAsWrittenIsEmpty(ops: seq<Op>)
    ensures EncodeAsWritten(ops) == ""
  {
    var parts := seq(|ops|, i requires 0 <= i < |ops| => EncodeOpAsWritten(ops[i]));
    JoinOfUndefined(parts);
  }

  lemma {:induction false} JoinOfUndefined(parts: seq<Option<string>>)
    requires forall i :: 0 <= i < |parts| ==> parts[i] == None
    ensures JoinAsWritten(parts) == ""
  {
    if parts != [] {
      JoinOfUndefined(parts[1..]);
    }
  }

  /** The intended encoding is empty only for an empty op list, so the encoder as written
      loses every op. */
  lemma EncodeEmptyIff(ops: seq<Op>)
    ensures Encode(ops) == "" <==> ops == []
  {
    if ops != [] {
      assert EncodeOp(ops[0])[0] in "adc";
    }
  }

  // Decoding

  /** A run of digits read as a decimal number. */
  function Numeral(s: string): (r: Option<nat>)
    ensures r.Some? <==> s != "" && Js.AllDigits(s)
  {
    if s != "" && Js.AllDigits(s) then Some(Js.DigitsValue(s)) else None
  }

  /** The op a header line announces, with no lines yet; `None` for any other line. */
  function ParseHeader(line: string): (r: Option<Op>)
    ensures r.Some? ==> Inserted(r.value) == []
  {
    var f := Js.SplitOn(line, ' ');
    if |f| == 2 && f[0] == "a" && Numeral(f[1]).Some? then
      Some(Add(Numeral(f[1]).value, []))
    else if |f| == 3 && f[0] == "d" && Numeral(f[1]).Some? && Numeral(f[2]).Some? then
      Some(Delete(Numeral(f[1]).value, Numeral(f[2]).value))
    else if |f| == 3 && f[0] == "c" && Numeral(f[1]).Some? && Numeral(f[2]).Some? then
      Some(Change(Numeral(f[1]).value, Numeral(f[2]).value, []))
    else None
  }

  predicate IsHeader(line: string)
  {
    ParseHeader(line).Some?
  }

  /** The number of leading lines that are not headers: the lines of the current op. */
  function BodyLength(lines: seq<string>): (k: nat)
    ensures k <= |lines|
    ensures forall i :: 0 <= i < k ==> !IsHeader(lines[i])
    ensures k < |lines| ==> IsHeader(lines[k])
  {
    if lines == [] || IsHeader(lines[0]) then 0 else 1 + BodyLength(lines[1..])
  }

  /** The header op given its lines; a Delete takes none. */
  function WithLines(head: Op, body: seq<string>): Option<Op>
  {
    match head
    case Add(i, _) => Some(Add(i, body))
    case Delete(i, n) => if body == [] then Some(head) else None
    case Change(i, n, _) => Some(Change(i, n, body))
  }

  /** Reading encoded lines back into ops: a header, then the lines up to the next
      header. `None` when a line that should be a header is not one. */
  function DecodeLines(lines: seq<string>): Option<seq<Op>>
    decreases |lines|
  {
    if lines == [] then Some([])
    else
      match ParseHeader(lines[0])
      case None => None
      case Some(head) =>
        var k := BodyLength(lines[1..]);
        match WithLines(head, lines[1..][..k])
        case None => None
        case Some(op) => Prefix([op], DecodeLines(lines[1 + k..]))
  }

  lemma DigitsNoSpace(s: string)
    requires Js.AllDigits(s)
    ensures ' ' !in s
  {
    assert forall i :: 0 <= i < |s| ==> s[i] != ' ';
  }

  lemma NumeralOfDecimal(n: nat)
    ensures Numeral(Js.DecimalString(n)) == Some(n)
  {
    Js.DigitsValueOfDecimal(n);
  }

  /** The header of an op parses back to that op without its lines. */
  lemma HeaderRoundTrip(op: Op)
    ensures ParseHeader(HeaderLine(op)) == Some(match op
      case Add(i, _) => Add(i, [])
      case Delete(i, n) => op
      case Change(i, n, _) => Change(i, n, []))
  {
    match op {
      case Add(i, _) => AddHeaderRoundTrip(i);
      case Delete(i, n) => PairHeaderRoundTrip('d', i, n);
      case Change(i, n, _) => PairHeaderRoundTrip('c', i, n);
    }
  }

  lemma AddHeaderRoundTrip(i: nat)
    ensures ParseHeader("a " + Js.DecimalString(i)) == Some(Add(i, []))
  {
    var d := Js.DecimalString(i);
    DigitsNoSpace(d);
    NumeralOfDecimal(i);
    Js.SplitOnNone(d, ' ');
    assert "a " + d == "a" + [' '] + d;
    Js.SplitOnWord("a", ' ', d);
  }

  /** The fields of `k i n` for a letter `k`. */
  lemma PairHeaderFields(k: char, i: nat, n: nat)
    requires k != ' '
    ensures Js.SplitOn([k, ' '] + Js.DecimalString(i) + " " + Js.DecimalString(n), ' ')
         == [[k], Js.DecimalString(i), Js.DecimalString(n)]
  {
    var d1, d2 := Js.DecimalString(i), Js.DecimalString(n);
    DigitsNoSpace(d1);
    DigitsNoSpace(d2);
    Js.SplitOnNone(d2, ' ');
    Js.SplitOnWord(d1, ' ', d2);
    assert [k, ' '] + d1 + " " + d2 == [k] + [' '] + (d1 + [' '] + d2);
    Js.SplitOnWord([k], ' ', d1 + [' '] + d2);
  }

  lemma PairHeaderRoundTrip(k: char, i: nat, n: nat)
    requires k == 'd' || k == 'c'
    ensures ParseHeader([k, ' '] + Js.DecimalString(i) + " " + Js.DecimalString(n))
         == Some(if k == 'd' then Delete(i, n) else Change(i, n, []))
  {
    PairHeaderFields(k, i, n);
    NumeralOfDecimal(i);
    NumeralOfDecimal(n);
    assert "d" == ['d'] && "c" == ['c'] && "a" != [k];
  }

  /** The lines an op list emits, none of which could be read as a header. */
  predicate BodiesPlain(ops: seq<Op>)
  {
    forall i, j :: 0 <= i < |ops| && 0 <= j < |Inserted(ops[i])| ==>
      !IsHeader(Inserted(ops[i])[j]) && PlainLine(Inserted(ops[i])[j])
  }

  lemma {:induction false} BodyLengthOf(body: seq<string>, rest: seq<string>)
    requires forall j :: 0 <= j < |body| ==> !IsHeader(body[j])
    requires rest == [] || IsHeader(rest[0])
    ensures BodyLength(body + rest) == |body|
    decreases |body|
  {
    if body != [] {
      assert (body + rest)[0] == body[0] && (body + rest)[1..] == body[1..] + rest;
      BodyLengthOf(body[1..], rest);
    } else {
      assert body + rest == rest;
    }
  }

  /** One op's header and lines, followed by a header or nothing, decode to that op. */
  lemma DecodeStep(op: Op, tail: seq<string>)
    requires forall j :: 0 <= j < |Inserted(op)| ==> !IsHeader(Inserted(op)[j])
    requires tail == [] || IsHeader(tail[0])
    ensures DecodeLines([HeaderLine(op)] + Inserted(op) + tail) == Prefix([op], DecodeLines(tail))
  {
    var body := Inserted(op);
    HeadBodyTail(HeaderLine(op), body, tail);
    BodyLengthOf(body, tail);
    HeaderWithLines(op);
    DecodeUnfold([HeaderLine(op)] + body + tail, ParseHeader(HeaderLine(op)).value);
  }

  /** The pieces of a sequence made of a head, a body and a tail. */
  lemma HeadBodyTail<T>(h: T, body: seq<T>, tail: seq<T>)
    ensures ([h] + body + tail) != [] && ([h] + body + tail)[0] == h
    ensures ([h] + body + tail)[1..] == body + tail
    ensures (body + tail)[..|body|] == body
    ensures ([h] + body + tail)[1 + |body|..] == tail
  {
  }

  /** The header of an op with that op's lines is the op again. */
  lemma HeaderWithLines(op: Op)
    ensures ParseHeader(HeaderLine(op)).Some?
    ensures WithLines(ParseHeader(HeaderLine(op)).value, Inserted(op)) == Some(op)
  {
    HeaderRoundTrip(op);
  }

  lemma DecodeUnfold(lines: seq<string>, head: Op)
    requires lines != [] && ParseHeader(lines[0]) == Some(head)
    ensures var k := BodyLength(lines[1..]);
      DecodeLines(lines) == match WithLines(head, lines[1..][..k])
        case None => None
        case Some(op) => Prefix([op], DecodeLines(lines[1 + k..]))
  {
  }

  lemma BodiesPlainTail(ops: seq<Op>)
    requires ops != [] && BodiesPlain(ops)
    ensures BodiesPlain(ops[1..])
    ensures forall j :: 0 <= j < |Inserted(ops[0])| ==> !IsHeader(Inserted(ops[0])[j])
  {
    var rest := ops[1..];
    forall i, j | 0 <= i < |rest| && 0 <= j < |Inserted(rest[i])|
      ensures !IsHeader(Inserted(rest[i])[j]) && PlainLine(Inserted(rest[i])[j])
    {
      assert rest[i] == ops[i + 1];
    }
  }

  /** Decoding inverts encoding when no emitted line looks like a header. */
  lemma {:induction false} DecodeEncode(ops: seq<Op>)
    requires BodiesPlain(ops)
    ensures DecodeLines(EncodeLines(ops)) == Some(ops)
    decreases |ops|
  {
    if ops != [] {
      var op, rest := ops[0], ops[1..];
      BodiesPlainTail(ops);
      DecodeEncode(rest);
      var tail := EncodeLines(rest);
      if rest != [] {
        HeaderRoundTrip(rest[0]);
        assert tail[0] == HeaderLine(rest[0]);
      }
      DecodeStep(op, tail);
      assert EncodeLines(ops) == [HeaderLine(op)] + Inserted(op) + tail;
      assert [op] + rest == ops;
    }
  }

  /** Header lines carry no line break. */
  lemma HeaderPlain(op: Op)
    ensures PlainLine(HeaderLine(op))
  {
    var d1 := Js.DecimalString(op.at);
    var d2 := Js.DecimalString(Removed(op));
    assert forall c :: c in d1 ==> Js.IsDigit(c);
    assert forall c :: c in d2 ==> Js.IsDigit(c);
  }

  lemma {:induction false} EncodeLinesPlain(ops: seq<Op>)
    requires BodiesPlain(ops)
    ensures forall i :: 0 <= i < |EncodeLines(ops)| ==> PlainLine(EncodeLines(ops)[i])
    decreases |ops|
  {
    if ops != [] {
      var rest := ops[1..];
      BodiesPlainTail(ops);
      EncodeLinesPlain(rest);
      HeaderPlain(ops[0]);
      var lines := EncodeLines(ops);
      forall i | 0 <= i < |lines|
        ensures PlainLine(lines[i])
      {
        if i == 0 {
        } else if i <= |Inserted(ops[0])| {
          assert lines[i] == Inserted(ops[0])[i - 1];
        } else {
          assert lines[i] == EncodeLines(rest)[i - 1 - |Inserted(ops[0])|];
        }
      }
    }
  }

  // The text-level pair

  /** `computeDiff(base, str)`: the listings split into lines, the walk, the empty
      trailing Change dropped, and the ops encoded with the dispatch on `action.type`.
      `None` when the walk throws. */
  function ComputeDiff(base: string, str: string): Option<string>
  {
    match DiffOps(ParseLines(base), ParseLines(str))
    case None => None
    case Some(ops) => Some(Encode(DropEmptyTail(ops)))
  }

  /** `computeDiff` as the source builds it: the full op list through the encoder as
      written. */
  function ComputeDiffAsWritten(base: string, str: string): Option<string>
  {
    match DiffOps(ParseLines(base), ParseLines(str))
    case None => None
    case Some(ops) => Some(EncodeAsWritten(ops))
  }

  /** `applyDiff(base, diff)`: the diff text decoded into ops and replayed on the base
      lines; `None` for a diff that does not decode or does not fit the base. */
  function ApplyDiff(base: string, diff: string): Option<string>
  {
    match DecodeLines(ParseLines(diff))
    case None => None
    case Some(ops) =>
      match Apply(ParseLines(base), ops)
      case None => None
      case Some(lines) => Some(JoinLines(lines))
  }

  /** Identical listings give the empty diff text, as the tests expect; the op list alone
      would have encoded to `c <n> 0`. */
  lemma ComputeDiffIdentical(s: string)
    ensures ComputeDiff(s, s) == Some("")
    ensures Encode(DiffOps(ParseLines(s), ParseLines(s)).value) == "c " + Js.DecimalString(|ParseLines(s)|) + " 0\n"
  {
    var n := |ParseLines(s)|;
    DiffOfIdentical(ParseLines(s));
    EncodeCons(Change(n, 0, []), []);
    assert [Change(n, 0, [])] + [] == [Change(n, 0, [])];
    assert Js.DecimalString(0) == "0";
    assert JoinLines([]) == "";
  }

  /** As written, every computed diff text is empty, also for listings that differ. */
  lemma ComputeDiffAsWrittenIsEmpty(base: string, str: string)
    ensures ComputeDiffAsWritten(base, str).Some? ==> ComputeDiffAsWritten(base, str) == Some("")
  {
    match DiffOps(ParseLines(base), ParseLines(str)) {
      case None =>
      case Some(ops) => EncodeAsWrittenIsEmpty(ops);
    }
  }

  /** The round trip of the tests: for listings of plain lines none of which reads as a
      diff header, applying the computed diff to the base gives back the target. */
  lemma DiffRoundTrip(baseLines: seq<string>, strLines: seq<string>)
    requires forall i :: 0 <= i < |baseLines| ==> PlainLine(baseLines[i])
    requires forall j :: 0 <= j < |strLines| ==> PlainLine(strLines[j]) && !IsHeader(strLines[j])
    ensures ComputeDiff(JoinLines(baseLines), JoinLines(strLines)).Some? ==>
      ApplyDiff(JoinLines(baseLines), ComputeDiff(JoinLines(baseLines), JoinLines(strLines)).value)
        == Some(JoinLines(strLines))
  {
    ParseLinesJoin(baseLines);
    ParseLinesJoin(strLines);
    var r := DiffOps(baseLines, strLines);
    if r.Some? {
      var ops := r.value;
      WalkRoundTrip(baseLines, strLines, 0, 0, 0, 0, ops);
      WalkShape(baseLines, strLines, 0, 0, 0, 0, ops);
      WalkBodies(baseLines, strLines, 0, 0, 0, 0, ops);
      DropEmptyTailApply(baseLines, ops);
      var kept := DropEmptyTail(ops);
      assert BodiesPlain(kept) by {
        forall i, j | 0 <= i < |kept| && 0 <= j < |Inserted(kept[i])|
          ensures !IsHeader(Inserted(kept[i])[j]) && PlainLine(Inserted(kept[i])[j])
        {
          assert kept[i] == ops[i];
        }
      }
      EncodeIsJoin(kept);
      EncodeLinesPlain(kept);
      ParseLinesJoin(EncodeLines(kept));
      DecodeEncode(kept);
      assert strLines[0..] == strLines;
    }
  }

  /** Every line an op of the walk emits is a line of the target. */
  lemma {:induction false} WalkBodies(base: seq<string>, str: seq<string>, bc: nat, sc: nat, bi: nat, si: nat, ops: seq<Op>)
    requires bi <= bc <= |base| && si <= sc <= |str|
    requires Walk(base, str, bc, sc, bi, si) == Some(ops)
    ensures forall i, j :: 0 <= i < |ops| && 0 <= j < |Inserted(ops[i])| ==> Inserted(ops[i])[j] in str
    decreases |base| - bc + |str| - sc, 1
  {
    if bc < |base| && sc < |str| {
      if base[bc] == str[sc] {
        WalkBodiesMatch(base, str, bc, sc, bi, si, ops);
      } else {
        WalkBodiesDiffer(base, str, bc, sc, bi, si, ops);
      }
    } else {
      WalkAtEnd(base, str, bc, sc, bi, si);
      BodiesWithin(str, si, |str|, [Boundary(base, str, bi, si)]);
    }
  }

  /** At differing lines the walk moves a cursor without pushing anything. */
  lemma {:induction false} WalkBodiesDiffer(base: seq<string>, str: seq<string>, bc: nat, sc: nat, bi: nat, si: nat, ops: seq<Op>)
    requires bi <= bc < |base| && si <= sc < |str| && base[bc] != str[sc]
    requires Walk(base, str, bc, sc, bi, si) == Some(ops)
    ensures forall i, j :: 0 <= i < |ops| && 0 <= j < |Inserted(ops[i])| ==> Inserted(ops[i])[j] in str
    decreases |base| - bc + |str| - sc, 0
  {
    WalkAtDiffer(base, str, bc, sc, bi, si);
    var p, q := PathOf(base[bc]).value, PathOf(str[sc]).value;
    if Js.Less(p, q) {
      WalkBodies(base, str, bc + 1, sc, bi, si, ops);
    } else if Js.Less(q, p) {
      WalkBodies(base, str, bc, sc + 1, bi, si, ops);
    } else {
      WalkBodies(base, str, bc + 1, sc + 1, bi, si, ops);
    }
  }

  /** At identical lines: the region op takes target lines, the rest by induction. */
  lemma {:induction false} WalkBodiesMatch(base: seq<string>, str: seq<string>, bc: nat, sc: nat, bi: nat, si: nat, ops: seq<Op>)
    requires bi <= bc < |base| && si <= sc < |str| && base[bc] == str[sc]
    requires Walk(base, str, bc, sc, bi, si) == Some(ops)
    ensures forall i, j :: 0 <= i < |ops| && 0 <= j < |Inserted(ops[i])| ==> Inserted(ops[i])[j] in str
    decreases |base| - bc + |str| - sc, 0
  {
    var rest := Walk(base, str, bc + 1, sc + 1, bc + 1, sc + 1).value;
    WalkBodies(base, str, bc + 1, sc + 1, bc + 1, sc + 1, rest);
    var region := Region(str, bc, sc, bi, si);
    BodiesWithin(str, si, sc, region);
    BodiesConcat(str, region, rest);
  }

  /** Ops whose lines are none or the target lines from `si` to `e`. */
  lemma BodiesWithin(str: seq<string>, si: nat, e: nat, ops: seq<Op>)
    requires si <= e <= |str|
    requires forall i :: 0 <= i < |ops| ==> Inserted(ops[i]) == [] || Inserted(ops[i]) == str[si..e]
    ensures forall i, j :: 0 <= i < |ops| && 0 <= j < |Inserted(ops[i])| ==> Inserted(ops[i])[j] in str
  {
    forall i, j | 0 <= i < |ops| && 0 <= j < |Inserted(ops[i])|
      ensures Inserted(ops[i])[j] in str
    {
      assert str[si..e][j] == str[si + j];
    }
  }

  lemma BodiesConcat(str: seq<string>, xs: seq<Op>, ys: seq<Op>)
    requires forall i, j :: 0 <= i < |xs| && 0 <= j < |Inserted(xs[i])| ==> Inserted(xs[i])[j] in str
    requires forall i, j :: 0 <= i < |ys| && 0 <= j < |Inserted(ys[i])| ==> Inserted(ys[i])[j] in str
    ensures forall i, j :: 0 <= i < |xs + ys| && 0 <= j < |Inserted((xs + ys)[i])| ==> Inserted((xs + ys)[i])[j] in str
  {
    forall i, j | 0 <= i < |xs + ys| && 0 <= j < |Inserted((xs + ys)[i])|
      ensures Inserted((xs + ys)[i])[j] in str
    {
      if i >= |xs| {
        assert (xs + ys)[i] == ys[i - |xs|];
      }
    }
  }

  /** A listing line starts with its mode, a digit, so it never reads as a header. */
  lemma ListingLineNotHeader(line: string)
    requires line != "" && Js.IsDigit(line[0])
    ensures !IsHeader(line)
  {
    var f := Js.SplitOn(line, ' ');
    assert f[0] != [] && f[0][0] == line[0];
  }

  /** The encoding of an op list is the first op's text followed by the encoding of the
      rest. */
  lemma EncodeCons(op: Op, rest: seq<Op>)
    ensures Encode([op] + rest) == EncodeOp(op) + Encode(rest)
  {
    assert ([op] + rest)[1..] == rest;
  }

  /** The encoding of the ops of the second case of the first diff test is the expected
      text of that case. */
  lemma EncodeExample(b1: string, f2: string)
    ensures Encode([Add(2, [b1]), Delete(3, 1), Change(5, 1, [f2])])
         == "a 2\n" + b1 + "\n" + "d 3 1\n" + "c 5 1\n" + f2 + "\n"
  {
    var o1, o2, o3 := Add(2, [b1]), Delete(3, 1), Change(5, 1, [f2]);
    EncodeCons(o3, []);
    EncodeCons(o2, [o3]);
    EncodeCons(o1, [o2, o3]);
    assert [o1] + [o2, o3] == [o1, o2, o3] && [o2] + [o3] == [o2, o3] && [o3] + [] == [o3];
    ExampleAdd(b1);
    ExampleDelete();
    ExampleChange(f2);
    Regroup(EncodeOp(o1), EncodeOp(o2), EncodeOp(o3), Encode([]), "a 2\n", b1, "\n", "d 3 1\n", "c 5 1\n", f2, "\n");
  }

  lemma ExampleAdd(line: string)
    ensures EncodeOp(Add(2, [line])) == "a 2\n" + line + "\n"
  {
    assert Js.DecimalString(2) == "2";
    assert JoinLines([line]) == line + "\n";
  }

  lemma ExampleChange(line: string)
    ensures EncodeOp(Change(5, 1, [line])) == "c 5 1\n" + line + "\n"
  {
    assert Js.DecimalString(5) == "5" && Js.DecimalString(1) == "1";
    assert JoinLines([line]) == line + "\n";
  }

  lemma ExampleDelete()
    ensures EncodeOp(Delete(3, 1)) == "d 3 1\n"
  {
    assert Js.DecimalString(3) == "3" && Js.DecimalString(1) == "1";
  }

  /** Three texts made of seven pieces, joined in turn, are the seven pieces joined. */
  lemma Regroup<T>(x1: seq<T>, x2: seq<T>, x3: seq<T>, x4: seq<T>,
                   a: seq<T>, b: seq<T>, c: seq<T>, d: seq<T>, e: seq<T>, f: seq<T>, g: seq<T>)
    requires x1 == a + b + c && x2 == d && x3 == e + f + g && x4 == []
    ensures x1 + (x2 + (x3 + x4)) == a + b + c + d + e + f + g
  {
  }
}
