/** lib/diff.js: the merge walk that computes an edit script between two snapshot
    listings (lines `"<mode> <hash> <path>"`), and `applyDiff`, the interpreter that
    replays such a script on the base listing. */
module Diff {
  import opened Wrappers
  import Js

  /** One edit. `at` is a base-line index counted before any edit is applied. */
  datatype Op =
    | Add(at: nat, lines: seq<string>)
    | Delete(at: nat, count: nat)
    | Change(at: nat, count: nat, lines: seq<string>)

  /** The number of base lines the edit consumes. */
  function Removed(op: Op): nat
  {
    match op
    case Add(_, _) => 0
    case Delete(_, n) => n
    case Change(_, n, _) => n
  }

  /** The lines the edit emits. */
  function Inserted(op: Op): seq<string>
  {
    match op
    case Add(_, ls) => ls
    case Delete(_, _) => []
    case Change(_, _, ls) => ls
  }

  function End(op: Op): nat
  {
    op.at + Removed(op)
  }

  /** An edit that changes something: an Add of at least one line, a Delete of at least
      one line, a Change of at least one line into at least one line. */
  predicate NonEmpty(op: Op)
  {
    match op
    case Add(_, ls) => |ls| >= 1
    case Delete(_, n) => n >= 1
    case Change(_, n, ls) => n >= 1 && |ls| >= 1
  }

  /** The text after the first space, as the lazy group `(.*?) ` leaves it. */
  function AfterSpace(s: string): (r: Option<string>)
    ensures r.Some? ==> |r.value| < |s|
  {
    match Js.IndexOf(s, ' ', 0)
    case None => None
    case Some(k) => Some(s[k + 1..])
  }

  /** Group 3 of `/^(.*?) (.*?) (.*)$/`: the path of a `"<mode> <hash> <path>"` line.
      `None` when the regex does not match (a line with fewer than two spaces, or with
      a character `.` does not match). */
  function PathOf(line: string): (r: Option<string>)
    ensures r.Some? ==> Js.NoLineTerminator(line)
  {
    if !Js.NoLineTerminator(line) then None
    else
      match AfterSpace(line)
      case None => None
      case Some(t) => AfterSpace(t)
  }

  lemma AfterSpaceOf(w: string, rest: string)
    requires ' ' !in w
    ensures AfterSpace(w + " " + rest) == Some(rest)
  {
    var s := w + " " + rest;
    var k := Js.IndexOf(s, ' ', 0);
    assert s[|w|] == ' ';
    assert forall j :: 0 <= j < |w| ==> s[j] == w[j] && s[j] != ' ';
    assert k == Some(|w|);
    assert s[|w| + 1..] == rest;
  }

  /** The path of a line built as mode + " " + hash + " " + path is that path. */
  lemma PathOfLine(mode: string, hash: string, path: string)
    requires ' ' !in mode && ' ' !in hash
    requires Js.NoLineTerminator(mode + " " + hash + " " + path)
    ensures PathOf(mode + " " + hash + " " + path) == Some(path)
  {
    assert mode + " " + hash + " " + path == mode + " " + (hash + " " + path);
    AfterSpaceOf(mode, hash + " " + path);
    AfterSpaceOf(hash, path);
  }

  /** The op pushed when the walk meets identical lines at (bc, sc) and the pending
      regions start at (bi, si); empty when neither cursor moved. */
  function Region(str: seq<string>, bc: nat, sc: nat, bi: nat, si: nat): seq<Op>
    requires bi <= bc && si <= sc <= |str|
  {
    if bc == bi && sc > si then [Add(bc, str[si..sc])]
    else if bc > bi && sc == si then [Delete(bi, bc - bi)]
    else if bc > bi && sc > si then [Change(bi, bc - bi, str[si..sc])]
    else []
  }

  /** The op always pushed after the loop, for the regions left pending. */
  function Boundary(base: seq<string>, str: seq<string>, bi: nat, si: nat): Op
    requires bi <= |base| && si <= |str|
  {
    if bi == |base| && si < |str| then Add(bi, str[si..])
    else if bi < |base| && si == |str| then Delete(bi, |base| - bi)
    else Change(bi, |base| - bi, str[si..])
  }

  /** The walk from cursors (bc, sc) with pending regions starting at (bi, si): the ops
      it pushes from there on, or `None` when it throws (a path of a differing line that
      the line regex does not match). */
  function Walk(base: seq<string>, str: seq<string>, bc: nat, sc: nat, bi: nat, si: nat): Option<seq<Op>>
    requires bi <= bc <= |base| && si <= sc <= |str|
    decreases |base| - bc + |str| - sc
  {
    if bc < |base| && sc < |str| then
      if base[bc] == str[sc] then
        Prefix(Region(str, bc, sc, bi, si), Walk(base, str, bc + 1, sc + 1, bc + 1, sc + 1))
      else
        match (PathOf(base[bc]), PathOf(str[sc]))
        case (Some(p), Some(q)) =>
          if Js.Less(p, q) then Walk(base, str, bc + 1, sc, bi, si)
          else if Js.Less(q, p) then Walk(base, str, bc, sc + 1, bi, si)
          else Walk(base, str, bc + 1, sc + 1, bi, si)
        case _ => None
    else
      Some([Boundary(base, str, bi, si)])
  }

  /** The op list `exports.diff` builds for two listings. */
  function DiffOps(base: seq<string>, str: seq<string>): Option<seq<Op>>
  {
    Walk(base, str, 0, 0, 0, 0)
  }

  /** Replaying ops on `base` from base position `cur`: copy base lines up to each op's
      position, emit its lines, skip the base lines it consumes; copy the rest at the end.
      `None` for an op before the cursor or past the end of the base. */
  function ApplyFrom(base: seq<string>, cur: nat, ops: seq<Op>): Option<seq<string>>
    requires cur <= |base|
    decreases |ops|
  {
    if ops == [] then Some(base[cur..])
    else
      var op := ops[0];
      if op.at < cur || End(op) > |base| then None
      else Prefix(base[cur..op.at] + Inserted(op), ApplyFrom(base, End(op), ops[1..]))
  }

  function Apply(base: seq<string>, ops: seq<Op>): Option<seq<string>>
  {
    ApplyFrom(base, 0, ops)
  }

  /** `exports.diff` up to the encoding: the while loop over the two cursors and the
      boundary flush. `None` stands for the TypeError thrown when a differing line has
      no path. What it computes replays to `str` (`DiffSound`). */
  method ComputeOps(base: seq<string>, str: seq<string>) returns (r: Option<seq<Op>>)
    ensures r == DiffOps(base, str)
  {
    var baseCursor: nat, strCursor: nat, baseIndex: nat, strIndex: nat := 0, 0, 0, 0;
    var diff: seq<Op> := [];
    PrefixEmpty(DiffOps(base, str));
    while baseCursor < |base| && strCursor < |str|
      invariant baseIndex <= baseCursor <= |base| && strIndex <= strCursor <= |str|
      invariant DiffOps(base, str) == Prefix(diff, Walk(base, str, baseCursor, strCursor, baseIndex, strIndex))
      decreases |base| - baseCursor + |str| - strCursor
    {
      var ok;
      ok, baseCursor, strCursor, baseIndex, strIndex, diff :=
        Turn(base, str, baseCursor, strCursor, baseIndex, strIndex, diff);
      if !ok {
        return None;
      }
    }

    // boundary
    var last := BoundaryOp(base, str, baseIndex, strIndex);
    WalkAtEnd(base, str, baseCursor, strCursor, baseIndex, strIndex);
    r := Some(diff + [last]);
  }

  /** Lines 15-54: one turn of the loop. At identical lines, push the pending region and
      move both cursors and both region starts past the pair; at differing lines, move
      the cursors (`Advance`). Not `ok` when the turn throws. */
  method Turn(base: seq<string>, str: seq<string>, bc: nat, sc: nat, bi: nat, si: nat, diff: seq<Op>)
    returns (ok: bool, bc': nat, sc': nat, bi': nat, si': nat, diff': seq<Op>)
    requires bi <= bc < |base| && si <= sc < |str|
    ensures !ok ==> Walk(base, str, bc, sc, bi, si) == None
    ensures ok ==> bi' <= bc' <= |base| && si' <= sc' <= |str| && bc + sc < bc' + sc'
    ensures ok ==> Prefix(diff, Walk(base, str, bc, sc, bi, si)) == Prefix(diff', Walk(base, str, bc', sc', bi', si'))
  {
    if base[bc] == str[sc] {
      diff' := AtMatch(base, str, bc, sc, bi, si, diff);
      ok := true;
      bc', sc' := bc + 1, sc + 1;
      bi', si' := bc', sc';
    } else {
      ok, bc', sc' := Advance(base, str, bc, sc, bi, si);
      bi', si', diff' := bi, si, diff;
    }
  }

  /** Lines 16-41: at identical lines, push the pending region; the walk then goes on
      past the pair with both regions starting after it. */
  method AtMatch(base: seq<string>, str: seq<string>, bc: nat, sc: nat, bi: nat, si: nat, diff: seq<Op>)
    returns (diff': seq<Op>)
    requires bi <= bc < |base| && si <= sc < |str| && base[bc] == str[sc]
    ensures Prefix(diff, Walk(base, str, bc, sc, bi, si)) == Prefix(diff', Walk(base, str, bc + 1, sc + 1, bc + 1, sc + 1))
  {
    var pending := PendingRegion(str, bc, sc, bi, si);
    WalkAtMatch(base, str, bc, sc, bi, si, diff);
    diff' := diff + pending;
  }

  /** Lines 43-54: at differing lines, move the cursor whose path sorts first, or both
      when the paths are equal. Not `ok` when either line has no path: there the
      comparison reads a property of `null` and throws. */
  method Advance(base: seq<string>, str: seq<string>, bc: nat, sc: nat, bi: nat, si: nat) returns (ok: bool, b: nat, s: nat)
    requires bi <= bc < |base| && si <= sc < |str| && base[bc] != str[sc]
    ensures !ok ==> Walk(base, str, bc, sc, bi, si) == None
    ensures ok ==> bc <= b <= |base| && sc <= s <= |str| && bc + sc < b + s
    ensures ok ==> Walk(base, str, bc, sc, bi, si) == Walk(base, str, b, s, bi, si)
  {
    var basePath, strPath := PathOf(base[bc]), PathOf(str[sc]);
    WalkAtDiffer(base, str, bc, sc, bi, si);
    if basePath.None? || strPath.None? {
      return false, bc, sc;
    }
    ok := true;
    if Js.Less(basePath.value, strPath.value) {
      b, s := bc + 1, sc;
    } else if Js.Less(strPath.value, basePath.value) {
      b, s := bc, sc + 1;
    } else {
      b, s := bc + 1, sc + 1;
    }
  }

  /** Lines 58-79: the op pushed after the loop, an add when only `str` has lines left, a
      delete when only `base` has, a change otherwise (also when neither has). */
  method BoundaryOp(base: seq<string>, str: seq<string>, bi: nat, si: nat) returns (last: Op)
    requires bi <= |base| && si <= |str|
    ensures last == Boundary(base, str, bi, si)
    ensures last.at == bi && End(last) == |base| && Inserted(last) == str[si..]
    ensures last.Add? <==> bi == |base| && si < |str|
    ensures last.Delete? <==> bi < |base| && si == |str|
  {
    if bi == |base| && si < |str| {
      last := Add(bi, str[si..]);
    } else if bi < |base| && si == |str| {
      last := Delete(bi, |base| - bi);
    } else {
      last := Change(bi, |base| - bi, str[si..]);
    }
  }

  /** The ops the diff builds, when it does not throw, replay on `base` to `str` and are
      shaped as the walk makes them. */
  lemma DiffSound(base: seq<string>, str: seq<string>)
    ensures DiffOps(base, str).Some? ==> Apply(base, DiffOps(base, str).value) == Some(str)
    ensures DiffOps(base, str).Some? ==> Shaped(base, DiffOps(base, str).value)
  {
    if DiffOps(base, str).Some? {
      WalkRoundTrip(base, str, 0, 0, 0, 0, DiffOps(base, str).value);
      WalkShape(base, str, 0, 0, 0, 0, DiffOps(base, str).value);
    }
  }

  /** Lines 16-37: the op for the lines skipped since the last match, if any: an add
      when only `str` moved on, a delete when only `base` did, a change when both did. */
  method PendingRegion(str: seq<string>, bc: nat, sc: nat, bi: nat, si: nat) returns (ops: seq<Op>)
    requires bi <= bc && si <= sc <= |str|
    ensures ops == Region(str, bc, sc, bi, si)
    ensures ops == [] <==> bc == bi && sc == si
    ensures ops != [] ==> |ops| == 1 && NonEmpty(ops[0])
    ensures ops != [] ==> ops[0].at == bi && End(ops[0]) == bc && Inserted(ops[0]) == str[si..sc]
    ensures ops != [] ==> (ops[0].Add? <==> bc == bi) && (ops[0].Delete? <==> sc == si)
  {
    if bc == bi && sc > si {
      ops := [Add(bc, str[si..sc])];
    } else if bc > bi && sc == si {
      ops := [Delete(bi, bc - bi)];
    } else if bc > bi && sc > si {
      ops := [Change(bi, bc - bi, str[si..sc])];
    } else {
      ops := [];
    }
  }

  /** At differing lines the walk throws unless both have a path, and otherwise moves
      the cursor whose path sorts first, or both. */
  lemma WalkAtDiffer(base: seq<string>, str: seq<string>, bc: nat, sc: nat, bi: nat, si: nat)
    requires bi <= bc < |base| && si <= sc < |str| && base[bc] != str[sc]
    ensures PathOf(base[bc]).None? || PathOf(str[sc]).None? ==> Walk(base, str, bc, sc, bi, si) == None
    ensures PathOf(base[bc]).Some? && PathOf(str[sc]).Some? ==>
      var p, q := PathOf(base[bc]).value, PathOf(str[sc]).value;
      Walk(base, str, bc, sc, bi, si)
        == if Js.Less(p, q) then Walk(base, str, bc + 1, sc, bi, si)
           else if Js.Less(q, p) then Walk(base, str, bc, sc + 1, bi, si)
           else Walk(base, str, bc + 1, sc + 1, bi, si)
  {
  }

  /** At differing lines that both have a path the walk moves on to cursors further
      along without pushing anything. */
  lemma WalkDiffer(base: seq<string>, str: seq<string>, bc: nat, sc: nat, bi: nat, si: nat) returns (b: nat, s: nat)
    requires bi <= bc < |base| && si <= sc < |str| && base[bc] != str[sc]
    requires PathOf(base[bc]).Some? && PathOf(str[sc]).Some?
    ensures bc <= b <= |base| && sc <= s <= |str| && bc + sc < b + s
    ensures Walk(base, str, bc, sc, bi, si) == Walk(base, str, b, s, bi, si)
  {
    var p, q := PathOf(base[bc]).value, PathOf(str[sc]).value;
    if Js.Less(p, q) {
      b, s := bc + 1, sc;
    } else if Js.Less(q, p) {
      b, s := bc, sc + 1;
    } else {
      b, s := bc + 1, sc + 1;
    }
  }

  /** Once a listing is exhausted the walk only flushes the pending regions. */
  lemma WalkAtEnd(base: seq<string>, str: seq<string>, bc: nat, sc: nat, bi: nat, si: nat)
    requires bi <= bc <= |base| && si <= sc <= |str| && (bc == |base| || sc == |str|)
    ensures Walk(base, str, bc, sc, bi, si) == Some([Boundary(base, str, bi, si)])
  {
  }

  /** At identical lines the walk pushes the region op and goes on past the pair. */
  lemma WalkAtMatch(base: seq<string>, str: seq<string>, bc: nat, sc: nat, bi: nat, si: nat, done: seq<Op>)
    requires bi <= bc < |base| && si <= sc < |str| && base[bc] == str[sc]
    ensures Prefix(done, Walk(base, str, bc, sc, bi, si))
         == Prefix(done + Region(str, bc, sc, bi, si), Walk(base, str, bc + 1, sc + 1, bc + 1, sc + 1))
  {
    PrefixAssoc(done, Region(str, bc, sc, bi, si), Walk(base, str, bc + 1, sc + 1, bc + 1, sc + 1));
  }

  /** `applyDiff`: one pass over the ops with a base cursor. */
  method ApplyOps(base: seq<string>, ops: seq<Op>) returns (r: Option<seq<string>>)
    ensures r == Apply(base, ops)
  {
    var out: seq<string> := [];
    var cursor: nat := 0;
    var i := 0;
    assert ops[i..] == ops;
    PrefixEmpty(ApplyFrom(base, 0, ops));
    while i < |ops|
      invariant i <= |ops| && cursor <= |base|
      invariant Apply(base, ops) == Prefix(out, ApplyFrom(base, cursor, ops[i..]))
    {
      var op := ops[i];
      assert ops[i..][0] == op && ops[i..][1..] == ops[i + 1..];
      if op.at < cursor || End(op) > |base| {
        return None;
      }
      PrefixAssoc(out, base[cursor..op.at] + Inserted(op), ApplyFrom(base, End(op), ops[i + 1..]));
      match op {
        case Add(at, lines) =>
          out := out + (base[cursor..at] + lines);
          cursor := at;
        case Delete(at, count) =>
          out := out + (base[cursor..at] + []);
          cursor := at + count;
        case Change(at, count, lines) =>
          out := out + (base[cursor..at] + lines);
          cursor := at + count;
      }
      i := i + 1;
    }
    r := Some(out + base[cursor..]);
  }

  lemma PrefixEmpty<T>(r: Option<seq<T>>)
    ensures Prefix([], r) == r
  {
    if r.Some? {
      assert [] + r.value == r.value;
    }
  }

  /** Copying one base line before ops that all lie beyond it. */
  lemma ApplyShift(base: seq<string>, cur: nat, ops: seq<Op>)
    requires cur < |base|
    requires ops == [] || ops[0].at > cur
    ensures ApplyFrom(base, cur, ops) == Prefix([base[cur]], ApplyFrom(base, cur + 1, ops))
  {
    if ops == [] {
      assert base[cur..] == [base[cur]] + base[cur + 1..];
    } else if End(ops[0]) <= |base| {
      var op := ops[0];
      assert base[cur..op.at] + Inserted(op) == [base[cur]] + (base[cur + 1..op.at] + Inserted(op));
      PrefixAssoc([base[cur]], base[cur + 1..op.at] + Inserted(op), ApplyFrom(base, End(op), ops[1..]));
    }
  }

  /** One op that turns base[bi..bc] into str[si..sc], then the kept identical line,
      then ops that replay the rest. */
  lemma RoundTripOneOp(base: seq<string>, str: seq<string>, bc: nat, sc: nat, bi: nat, si: nat, op: Op, rest: seq<Op>)
    requires bi <= bc < |base| && si <= sc < |str| && base[bc] == str[sc]
    requires op.at == bi && End(op) == bc && Inserted(op) == str[si..sc]
    requires rest == [] || rest[0].at >= bc + 1
    requires ApplyFrom(base, bc + 1, rest) == Some(str[sc + 1..])
    ensures ApplyFrom(base, bi, [op] + rest) == Some(str[si..])
  {
    assert ([op] + rest)[0] == op && ([op] + rest)[1..] == rest;
    RoundTripKept(base, str, bc, sc, rest);
    assert base[bi..op.at] + Inserted(op) == str[si..sc];
    assert str[si..sc] + str[sc..] == str[si..];
  }

  /** The step of the round trip at a pair of identical lines: the region op (if any),
      the kept line, then what the rest of the walk replays. */
  lemma RoundTripAtMatch(base: seq<string>, str: seq<string>, bc: nat, sc: nat, bi: nat, si: nat, rest: seq<Op>)
    requires bi <= bc < |base| && si <= sc < |str| && base[bc] == str[sc]
    requires rest != [] && rest[0].at >= bc + 1
    requires ApplyFrom(base, bc + 1, rest) == Some(str[sc + 1..])
    ensures var ops := Region(str, bc, sc, bi, si) + rest;
            ops[0].at >= bi && ApplyFrom(base, bi, ops) == Some(str[si..])
  {
    RegionShape(str, bc, sc, bi, si);
    var region := Region(str, bc, sc, bi, si);
    if region == [] {
      RoundTripKept(base, str, bc, sc, rest);
      assert region + rest == rest;
    } else {
      RoundTripOneOp(base, str, bc, sc, bi, si, region[0], rest);
    }
  }

  /** The region op is absent exactly when neither listing moved since the last match;
      otherwise it is one op from the base region start to the base cursor that inserts
      the target lines skipped. */
  lemma RegionShape(str: seq<string>, bc: nat, sc: nat, bi: nat, si: nat)
    requires bi <= bc && si <= sc <= |str|
    ensures Region(str, bc, sc, bi, si) == [] <==> bc == bi && sc == si
    ensures var region := Region(str, bc, sc, bi, si);
      region != [] ==> (region == [region[0]] && region[0].at == bi && End(region[0]) == bc
                        && Inserted(region[0]) == str[si..sc])
  {
  }

  /** An identical line with no region before it is copied from the base. */
  lemma RoundTripKept(base: seq<string>, str: seq<string>, k: nat, j: nat, rest: seq<Op>)
    requires k < |base| && j < |str| && base[k] == str[j]
    requires rest == [] || rest[0].at >= k + 1
    requires ApplyFrom(base, k + 1, rest) == Some(str[j + 1..])
    ensures ApplyFrom(base, k, rest) == Some(str[j..])
  {
    ApplyShift(base, k, rest);
    assert str[j..] == [str[j]] + str[j + 1..];
  }

  /** The boundary op replaces the pending base suffix by the pending target suffix. */
  lemma RoundTripAtBoundary(base: seq<string>, str: seq<string>, bi: nat, si: nat)
    requires bi <= |base| && si <= |str|
    ensures var op := Boundary(base, str, bi, si);
            op.at == bi && End(op) == |base| && ApplyFrom(base, bi, [op]) == Some(str[si..])
  {
    var op := Boundary(base, str, bi, si);
    assert base[bi..op.at] == [];
    assert [op][1..] == [];
    assert base[End(op)..] == [];
    assert ApplyFrom(base, End(op), []) == Some([]);
    assert Inserted(op) == str[si..];
    assert base[bi..op.at] + Inserted(op) + [] == str[si..];
  }

  /** Round trip of the walk: from any state, the ops it pushes turn the base from the
      pending base position on into the target from the pending target position on. */
  lemma {:induction false} WalkRoundTrip(base: seq<string>, str: seq<string>, bc: nat, sc: nat, bi: nat, si: nat, ops: seq<Op>)
    requires bi <= bc <= |base| && si <= sc <= |str|
    requires Walk(base, str, bc, sc, bi, si) == Some(ops)
    ensures ops != [] && ops[0].at >= bi
    ensures ApplyFrom(base, bi, ops) == Some(str[si..])
    decreases |base| - bc + |str| - sc, 1
  {
    if bc < |base| && sc < |str| {
      if base[bc] == str[sc] {
        RoundTripMatchStep(base, str, bc, sc, bi, si, ops);
      } else {
        var b, s := WalkDiffer(base, str, bc, sc, bi, si);
        WalkRoundTrip(base, str, b, s, bi, si, ops);
      }
    } else {
      WalkAtEnd(base, str, bc, sc, bi, si);
      RoundTripAtBoundary(base, str, bi, si);
    }
  }

  /** The step of `WalkRoundTrip` at a pair of identical lines. */
  lemma {:induction false} RoundTripMatchStep(base: seq<string>, str: seq<string>, bc: nat, sc: nat, bi: nat, si: nat, ops: seq<Op>)
    requires bi <= bc < |base| && si <= sc < |str| && base[bc] == str[sc]
    requires Walk(base, str, bc, sc, bi, si) == Some(ops)
    ensures ops != [] && ops[0].at >= bi
    ensures ApplyFrom(base, bi, ops) == Some(str[si..])
    decreases |base| - bc + |str| - sc, 0
  {
    var rest := WalkMatch(base, str, bc, sc, bi, si, ops);
    WalkRoundTrip(base, str, bc + 1, sc + 1, bc + 1, sc + 1, rest);
    RoundTripAtMatch(base, str, bc, sc, bi, si, rest);
  }

  /** At a pair of identical lines the ops are the region op (if any) followed by what the
      walk pushes after the pair. */
  lemma WalkMatch(base: seq<string>, str: seq<string>, bc: nat, sc: nat, bi: nat, si: nat, ops: seq<Op>) returns (rest: seq<Op>)
    requires bi <= bc < |base| && si <= sc < |str| && base[bc] == str[sc]
    requires Walk(base, str, bc, sc, bi, si) == Some(ops)
    ensures Walk(base, str, bc + 1, sc + 1, bc + 1, sc + 1) == Some(rest)
    ensures ops == Region(str, bc, sc, bi, si) + rest
  {
    rest := Walk(base, str, bc + 1, sc + 1, bc + 1, sc + 1).value;
  }

  /** The shape of an op list the walk produces: every op but the last is non-empty and
      ends before the end of the base; ops are in increasing base position with at least
      one kept line between consecutive ops; the last op (the boundary flush) ends exactly
      at the end of the base and, when it changes nothing, is a Change. */
  predicate Shaped(base: seq<string>, ops: seq<Op>)
  {
    && ops != []
    && (forall i :: 0 <= i < |ops| - 1 ==> NonEmpty(ops[i]) && End(ops[i]) < |base|)
    && (forall i :: 0 <= i < |ops| - 1 ==> End(ops[i]) + 1 <= ops[i + 1].at)
    && End(ops[|ops| - 1]) == |base|
    && (!NonEmpty(ops[|ops| - 1]) ==> ops[|ops| - 1] == Change(|base|, 0, []))
  }

  lemma ShapedAtMatch(base: seq<string>, str: seq<string>, bc: nat, sc: nat, bi: nat, si: nat, rest: seq<Op>)
    requires bi <= bc < |base| && si <= sc < |str|
    requires Shaped(base, rest) && rest[0].at >= bc + 1
    ensures var ops := Region(str, bc, sc, bi, si) + rest;
            Shaped(base, ops) && ops[0].at >= bi
  {
    var region := Region(str, bc, sc, bi, si);
    var ops := region + rest;
    if region != [] {
      assert ops[0] == region[0] && ops[1..] == rest;
      assert End(ops[0]) == bc && NonEmpty(ops[0]);
      forall i | 0 <= i < |ops| - 1
        ensures NonEmpty(ops[i]) && End(ops[i]) < |base|
        ensures End(ops[i]) + 1 <= ops[i + 1].at
      {
        if i > 0 {
          assert ops[i] == rest[i - 1] && ops[i + 1] == rest[i];
        }
      }
      assert ops[|ops| - 1] == rest[|rest| - 1];
    } else {
      assert ops == rest;
    }
  }

  lemma BoundaryShape(base: seq<string>, str: seq<string>, bi: nat, si: nat)
    requires bi <= |base| && si <= |str|
    ensures Shaped(base, [Boundary(base, str, bi, si)]) && Boundary(base, str, bi, si).at == bi
  {
  }

  lemma {:induction false} WalkShape(base: seq<string>, str: seq<string>, bc: nat, sc: nat, bi: nat, si: nat, ops: seq<Op>)
    requires bi <= bc <= |base| && si <= sc <= |str|
    requires Walk(base, str, bc, sc, bi, si) == Some(ops)
    ensures Shaped(base, ops) && ops[0].at >= bi
    decreases |base| - bc + |str| - sc, 1
  {
    if bc < |base| && sc < |str| {
      if base[bc] == str[sc] {
        ShapeMatchStep(base, str, bc, sc, bi, si, ops);
      } else {
        var b, s := WalkDiffer(base, str, bc, sc, bi, si);
        WalkShape(base, str, b, s, bi, si, ops);
      }
    } else {
      WalkAtEnd(base, str, bc, sc, bi, si);
      BoundaryShape(base, str, bi, si);
    }
  }

  /** The step of `WalkShape` at a pair of identical lines. */
  lemma {:induction false} ShapeMatchStep(base: seq<string>, str: seq<string>, bc: nat, sc: nat, bi: nat, si: nat, ops: seq<Op>)
    requires bi <= bc < |base| && si <= sc < |str| && base[bc] == str[sc]
    requires Walk(base, str, bc, sc, bi, si) == Some(ops)
    ensures Shaped(base, ops) && ops[0].at >= bi
    decreases |base| - bc + |str| - sc, 0
  {
    var rest := WalkMatch(base, str, bc, sc, bi, si, ops);
    WalkShape(base, str, bc + 1, sc + 1, bc + 1, sc + 1, rest);
    ShapedAtMatch(base, str, bc, sc, bi, si, rest);
  }

  /** Over a common prefix the walk pushes nothing (each identical pair closes an empty
      region); once one listing ends inside that prefix only the boundary op remains. */
  lemma {:induction false} WalkCommonPrefix(base: seq<string>, str: seq<string>, n: nat, k: nat)
    requires k <= n <= |base| && n <= |str| && (n == |base| || n == |str|)
    requires base[..n] == str[..n]
    ensures Walk(base, str, k, k, k, k) == Some([Boundary(base, str, n, n)])
    decreases n - k
  {
    if k < n {
      assert base[k] == base[..n][k] == str[..n][k] == str[k];
      assert Region(str, k, k, k, k) == [];
      WalkCommonPrefix(base, str, n, k + 1);
      PrefixEmpty(Walk(base, str, k + 1, k + 1, k + 1, k + 1));
    } else {
      WalkAtEnd(base, str, k, k, k, k);
    }
  }

  /** Identical listings still give one op, the empty trailing `Change(|s|, 0, [])`. The
      expected encoding of identical listings in the tests is the empty text, so the op
      list as the loop builds it is one op longer than the tests expect. */
  lemma DiffOfIdentical(s: seq<string>)
    ensures DiffOps(s, s) == Some([Change(|s|, 0, [])])
    ensures !NonEmpty(Change(|s|, 0, []))
  {
    WalkCommonPrefix(s, s, |s|, 0);
    assert s[|s|..] == [];
  }

  /** Lines appended after an unchanged listing give a single Add at the old length;
      with an empty base this is `Add(0, str)`. */
  lemma DiffAppend(base: seq<string>, extra: seq<string>)
    requires extra != []
    ensures DiffOps(base, base + extra) == Some([Add(|base|, extra)])
  {
    assert (base + extra)[..|base|] == base == base[..|base|];
    assert (base + extra)[|base|..] == extra;
    WalkCommonPrefix(base, base + extra, |base|, 0);
  }

  /** Lines removed from the end give a single Delete of them; with an empty target this
      is `Delete(0, |base|)`. */
  lemma DiffTruncate(kept: seq<string>, gone: seq<string>)
    requires gone != []
    ensures DiffOps(kept + gone, kept) == Some([Delete(|kept|, |gone|)])
  {
    assert (kept + gone)[..|kept|] == kept == kept[..|kept|];
    WalkCommonPrefix(kept + gone, kept, |kept|, 0);
  }

  /** With no line in common the walk never closes a region: when it does not throw it
      returns the single boundary op over the pending regions. */
  lemma {:induction false} WalkDisjoint(base: seq<string>, str: seq<string>, bc: nat, sc: nat, bi: nat, si: nat)
    requires bi <= bc <= |base| && si <= sc <= |str|
    requires forall i, j :: 0 <= i < |base| && 0 <= j < |str| ==> base[i] != str[j]
    ensures Walk(base, str, bc, sc, bi, si).Some? ==> Walk(base, str, bc, sc, bi, si) == Some([Boundary(base, str, bi, si)])
    decreases |base| - bc + |str| - sc
  {
    if bc < |base| && sc < |str| {
      WalkAtDiffer(base, str, bc, sc, bi, si);
      if PathOf(base[bc]).Some? && PathOf(str[sc]).Some? {
        var b, s := WalkDiffer(base, str, bc, sc, bi, si);
        WalkDisjoint(base, str, b, s, bi, si);
      }
    } else {
      WalkAtEnd(base, str, bc, sc, bi, si);
    }
  }

  /** Two non-empty listings with no line in common give one Change of all base lines
      into all target lines (the `[a, b] -> [c, d]` case), unless the walk throws. */
  lemma DiffDisjoint(base: seq<string>, str: seq<string>)
    requires base != [] && str != []
    requires forall i, j :: 0 <= i < |base| && 0 <= j < |str| ==> base[i] != str[j]
    ensures DiffOps(base, str).Some? ==> DiffOps(base, str) == Some([Change(0, |base|, str)])
  {
    WalkDisjoint(base, str, 0, 0, 0, 0);
    assert str[0..] == str;
  }

  /** The walk does not throw when every line of both listings has a path. */
  lemma {:induction false} WalkDefined(base: seq<string>, str: seq<string>, bc: nat, sc: nat, bi: nat, si: nat)
    requires bi <= bc <= |base| && si <= sc <= |str|
    requires forall i :: 0 <= i < |base| ==> PathOf(base[i]).Some?
    requires forall j :: 0 <= j < |str| ==> PathOf(str[j]).Some?
    ensures Walk(base, str, bc, sc, bi, si).Some?
    decreases |base| - bc + |str| - sc
  {
    if bc < |base| && sc < |str| {
      if base[bc] == str[sc] {
        WalkDefined(base, str, bc + 1, sc + 1, bc + 1, sc + 1);
      } else {
        var b, s := WalkDiffer(base, str, bc, sc, bi, si);
        WalkDefined(base, str, b, s, bi, si);
      }
    }
  }

  /** A snapshot line with mode 100644. */
  function Entry(hash: string, path: string): string
  {
    "100644 " + hash + " " + path
  }

  lemma EntryPath(hash: string, path: string)
    requires ' ' !in hash && Js.NoLineTerminator(hash) && Js.NoLineTerminator(path)
    ensures PathOf(Entry(hash, path)) == Some(path)
  {
    var line := Entry(hash, path);
    assert line == "100644" + " " + hash + " " + path;
    assert forall i :: 0 <= i < |line| ==> line[i] in "100644 " || line[i] in hash || line[i] in path;
    PathOfLine("100644", hash, path);
  }

  /** The second case of the first diff test: with base lines `a`..`f` and target lines
      `a, b, b1, c, e, f'` (`b1` inserted after `b`, `d` removed, `f` rehashed, the line
      named after its path) the walk gives `Add(2, [b1])`, `Delete(3, 1)` and
      `Change(5, 1, [f'])`. `Entry` lines such as `Entry("hc", "c")` meet the path
      hypotheses (`EntryPath`). */
  lemma DiffExample(a: string, b: string, c: string, d: string, e: string, f: string, b1: string, f2: string)
    requires PathOf(c) == Some("c") && PathOf(b1) == Some("b1")
    requires PathOf(d) == Some("d") && PathOf(e) == Some("e")
    requires PathOf(f) == Some("f") && PathOf(f2) == Some("f") && f != f2
    ensures DiffOps([a, b, c, d, e, f], [a, b, b1, c, e, f2]) == Some([Add(2, [b1]), Delete(3, 1), Change(5, 1, [f2])])
  {
    var base, str := [a, b, c, d, e, f], [a, b, b1, c, e, f2];
    ExampleFromC(a, b, c, d, e, f, b1, f2);
    WalkCommonPrefixStep(base, str, 1);
    WalkCommonPrefixStep(base, str, 0);
  }

  /** The example walk from base line `c` and target line `b1` on. */
  lemma ExampleFromC(a: string, b: string, c: string, d: string, e: string, f: string, b1: string, f2: string)
    requires PathOf(c) == Some("c") && PathOf(b1) == Some("b1")
    requires PathOf(d) == Some("d") && PathOf(e) == Some("e")
    requires PathOf(f) == Some("f") && PathOf(f2) == Some("f") && f != f2
    ensures Walk([a, b, c, d, e, f], [a, b, b1, c, e, f2], 2, 2, 2, 2) == Some([Add(2, [b1]), Delete(3, 1), Change(5, 1, [f2])])
  {
    var base, str := [a, b, c, d, e, f], [a, b, b1, c, e, f2];
    ExampleAtC(a, b, c, d, e, f, b1, f2);
    assert Js.Less("b1", "c");
    WalkAtDiffer(base, str, 2, 2, 2, 2);
  }

  /** The example walk from the two `c` lines on, with `b1` pending. */
  lemma ExampleAtC(a: string, b: string, c: string, d: string, e: string, f: string, b1: string, f2: string)
    requires PathOf(d) == Some("d") && PathOf(e) == Some("e")
    requires PathOf(f) == Some("f") && PathOf(f2) == Some("f") && f != f2
    ensures Walk([a, b, c, d, e, f], [a, b, b1, c, e, f2], 2, 3, 2, 2) == Some([Add(2, [b1]), Delete(3, 1), Change(5, 1, [f2])])
  {
    var base, str := [a, b, c, d, e, f], [a, b, b1, c, e, f2];
    var w4 := [Delete(3, 1), Change(5, 1, [f2])];
    ExampleFromD(a, b, c, d, e, f, b1, f2);
    WalkAtMatch(base, str, 2, 3, 2, 2, []);
    PrefixEmpty(Walk(base, str, 2, 3, 2, 2));
    assert str[2..3] == [b1];
    assert [Add(2, [b1])] + w4 == [Add(2, [b1]), Delete(3, 1), Change(5, 1, [f2])];
  }

  /** The example walk from base line `d` and target line `e` on. */
  lemma ExampleFromD(a: string, b: string, c: string, d: string, e: string, f: string, b1: string, f2: string)
    requires PathOf(d) == Some("d") && PathOf(e) == Some("e")
    requires PathOf(f) == Some("f") && PathOf(f2) == Some("f") && f != f2
    ensures Walk([a, b, c, d, e, f], [a, b, b1, c, e, f2], 3, 4, 3, 4) == Some([Delete(3, 1), Change(5, 1, [f2])])
  {
    var base, str := [a, b, c, d, e, f], [a, b, b1, c, e, f2];
    assert Js.Less("d", "e") && !Js.Less("f", "f");
    var tail := [Change(5, 1, [f2])];
    WalkAtEnd(base, str, 6, 6, 5, 5);
    assert str[5..] == [f2];
    WalkAtDiffer(base, str, 5, 5, 5, 5);
    assert Walk(base, str, 5, 5, 5, 5) == Some(tail);
    WalkAtMatch(base, str, 4, 4, 3, 4, []);
    PrefixEmpty(Walk(base, str, 4, 4, 3, 4));
    assert [Delete(3, 1)] + tail == [Delete(3, 1), Change(5, 1, [f2])];
    assert Walk(base, str, 4, 4, 3, 4) == Some([Delete(3, 1)] + tail);
    WalkAtDiffer(base, str, 3, 4, 3, 4);
  }

  /** One identical pair with no pending region adds nothing. */
  lemma WalkCommonPrefixStep(base: seq<string>, str: seq<string>, k: nat)
    requires k < |base| && k < |str| && base[k] == str[k]
    ensures Walk(base, str, k, k, k, k) == Walk(base, str, k + 1, k + 1, k + 1, k + 1)
  {
    assert Region(str, k, k, k, k) == [];
    PrefixEmpty(Walk(base, str, k + 1, k + 1, k + 1, k + 1));
  }

  /** An empty Change at the end of the base replays to nothing: appending it to any
      ops leaves the replay unchanged. */
  lemma {:induction false} ApplyEmptyTail(base: seq<string>, cur: nat, ops: seq<Op>)
    requires cur <= |base|
    ensures ApplyFrom(base, cur, ops + [Change(|base|, 0, [])]) == ApplyFrom(base, cur, ops)
    decreases |ops|
  {
    var tail := Change(|base|, 0, []);
    if ops == [] {
      assert [] + [tail] == [tail] && [tail][1..] == [];
      assert base[|base|..] == [];
      assert base[cur..tail.at] + Inserted(tail) + [] == base[cur..];
    } else {
      var op := ops[0];
      assert (ops + [tail])[0] == op && (ops + [tail])[1..] == ops[1..] + [tail];
      if op.at >= cur && End(op) <= |base| {
        ApplyEmptyTail(base, End(op), ops[1..]);
      }
    }
  }

  /** The ops without the trailing Change when it changes nothing. */
  function DropEmptyTail(ops: seq<Op>): seq<Op>
  {
    if ops != [] && !NonEmpty(ops[|ops| - 1]) then ops[..|ops| - 1] else ops
  }

  /** For a walk result, dropping the empty trailing Change keeps the replay and leaves
      only ops that change something. */
  lemma DropEmptyTailApply(base: seq<string>, ops: seq<Op>)
    requires Shaped(base, ops)
    ensures Apply(base, DropEmptyTail(ops)) == Apply(base, ops)
    ensures forall i :: 0 <= i < |DropEmptyTail(ops)| ==> NonEmpty(DropEmptyTail(ops)[i])
  {
    var n := |ops|;
    if !NonEmpty(ops[n - 1]) {
      assert ops == ops[..n - 1] + [Change(|base|, 0, [])];
      ApplyEmptyTail(base, 0, ops[..n - 1]);
    }
  }
}
