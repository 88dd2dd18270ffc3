/** lib/git.js: `parseTree`, the decoder of a raw Git tree object. A tree is a sequence of
    records `<mode> <name>\0<20-byte id>`. Modes and names are kept as bytes (their UTF-8
    decoding is not modelled); the id is rendered as lowercase hex. */
module Git {
  import opened Wrappers
  import Js

  newtype byte = x: int | 0 <= x < 256

  const Space: byte := 0x20
  const Nul: byte := 0x00
  const Zero: byte := 0x30

  /** One entry of the parsed tree. */
  datatype TreeEntry = TreeEntry(mode: seq<byte>, name: seq<byte>, id: string)

  /** Git writes tree modes as `40000`; a five-character mode gets a leading `0`. */
  function NormalizeMode(mode: seq<byte>): (r: seq<byte>)
    ensures |mode| == 5 ==> r == [Zero] + mode && |r| == 6
    ensures |mode| != 5 ==> r == mode
  {
    if |mode| == 5 then [Zero] + mode else mode
  }

  function HexDigit(d: nat): (c: char)
    requires d < 16
    ensures Js.IsLowerHex(c)
  {
    if d < 10 then (48 + d) as char else (87 + d) as char
  }

  /** `buffer.toString("hex")`: two lowercase hex digits per byte, high nibble first. */
  function Hex(bytes: seq<byte>): (r: string)
    ensures |r| == 2 * |bytes|
    ensures forall i :: 0 <= i < |r| ==> Js.IsLowerHex(r[i])
  {
    if bytes == [] then ""
    else [HexDigit(bytes[0] as int / 16), HexDigit(bytes[0] as int % 16)] + Hex(bytes[1..])
  }

  /** Different bytes give different hex text. */
  lemma {:induction false} HexInjective(a: seq<byte>, b: seq<byte>)
    requires Hex(a) == Hex(b)
    ensures a == b
  {
    if a != [] {
      assert |b| == |a|;
      var ha := Hex(a);
      assert ha[0] == Hex(b)[0] && ha[1] == Hex(b)[1];
      assert a[0] as int / 16 == b[0] as int / 16 && a[0] as int % 16 == b[0] as int % 16;
      assert Hex(a)[2..] == Hex(a[1..]) && Hex(b)[2..] == Hex(b[1..]);
      HexInjective(a[1..], b[1..]);
      assert a == [a[0]] + a[1..] && b == [b[0]] + b[1..];
    }
  }

  /** One turn of the loop of `parseTree` at cursor `index`: the entry read there and the
      next cursor, `pos2 + 21`. `None` when the record has no space or no NUL: there
      `indexOf` returns -1 and the cursor can move back, so the loop is not guaranteed to
      end. A final record whose id is cut short gets the hex of the bytes that remain, as
      `toString` clamps the range to the buffer. */
  function Step(bytes: seq<byte>, index: nat): (r: Option<(TreeEntry, nat)>)
    ensures r.Some? ==> r.value.1 > index + 1
  {
    match Js.IndexOf(bytes, Space, index)
    case None => None
    case Some(pos1) =>
      match Js.IndexOf(bytes, Nul, pos1 + 1)
      case None => None
      case Some(pos2) => Some((EntryAt(bytes, index, pos1, pos2), pos2 + 21))
  }

  /** The entry of the record whose space is at `pos1` and whose NUL is at `pos2`. */
  function EntryAt(bytes: seq<byte>, index: nat, pos1: nat, pos2: nat): TreeEntry
    requires index <= pos1 < pos2 < |bytes|
  {
    var next := pos2 + 21;
    TreeEntry(NormalizeMode(bytes[index..pos1]), bytes[pos1 + 1..pos2],
              Hex(bytes[pos2 + 1..if next <= |bytes| then next else |bytes|]))
  }

  lemma StepOf(bytes: seq<byte>, index: nat, pos1: nat, pos2: nat)
    requires Js.IndexOf(bytes, Space, index) == Some(pos1)
    requires Js.IndexOf(bytes, Nul, pos1 + 1) == Some(pos2)
    ensures Step(bytes, index) == Some((EntryAt(bytes, index, pos1, pos2), pos2 + 21))
  {
  }

  lemma RecordsUnfold(bytes: seq<byte>, index: nat, e: TreeEntry, next: nat)
    requires index < |bytes| && Step(bytes, index) == Some((e, next))
    ensures Records(bytes, index) == Prefix([e], Records(bytes, next))
  {
  }

  /** What the loop of `parseTree` produces from cursor `index` on. */
  function Records(bytes: seq<byte>, index: nat): (r: Option<seq<TreeEntry>>)
    decreases |bytes| - index
  {
    if index >= |bytes| then Some([])
    else
      match Step(bytes, index)
      case None => None
      case Some(step) => Prefix([step.0], Records(bytes, step.1))
  }

  /** `parseTree`: the entries of a well-formed raw tree, one per record, in order. */
  method ParseTree(bytes: array<byte>) returns (r: seq<TreeEntry>)
    requires Records(bytes[..], 0).Some?
    ensures Records(bytes[..], 0) == Some(r)
  {
    var buf := bytes[..];
    r := [];
    var index := 0;
    assert [] + Records(buf, 0).value == Records(buf, 0).value;
    while index < |buf|
      invariant Records(buf, 0) == Prefix(r, Records(buf, index))
      invariant Records(buf, index).Some?
      decreases |buf| - index
    {
      StepPresent(buf, index);
      var entry, next, _, _ := ReadRecord(buf, index);
      StepTaken(buf, r, index, entry, next);
      r := r + [entry];
      index := next;
    }
    assert Records(buf, index) == Some([]);
    assert r + [] == r;
  }

  /** The body of the loop of `parseTree`: find the space and the NUL after the cursor,
      read the mode, the name and the id, and move the cursor past the id. */
  method ReadRecord(buf: seq<byte>, index: nat) returns (entry: TreeEntry, next: nat, pos1: nat, pos2: nat)
    requires Step(buf, index).Some?
    ensures Step(buf, index) == Some((entry, next))
    ensures index <= pos1 < pos2 < |buf| && buf[pos1] == Space && buf[pos2] == Nul
    ensures Space !in buf[index..pos1] && Nul !in buf[pos1 + 1..pos2]
    ensures entry.mode == NormalizeMode(buf[index..pos1]) && entry.name == buf[pos1 + 1..pos2]
    ensures next == pos2 + 21
    ensures next <= |buf| ==> entry.id == Hex(buf[pos2 + 1..next]) && |entry.id| == 40
  {
    pos1 := Js.IndexOf(buf, Space, index).value;
    var mode := NormalizeMode(buf[index..pos1]);
    pos2 := Js.IndexOf(buf, Nul, pos1 + 1).value;
    var name := buf[pos1 + 1..pos2];
    next := pos2 + 20 + 1;
    var id := Hex(buf[pos2 + 1..if next <= |buf| then next else |buf|]);
    entry := TreeEntry(mode, name, id);
  }

  /** A cursor from which the loop goes on to the end finds a space and then a NUL. */
  lemma StepPresent(s: seq<byte>, index: nat)
    requires index < |s| && Records(s, index).Some?
    ensures Step(s, index).Some?
  {
  }

  /** One turn of the loop keeps its invariant: the entry read at the cursor is appended
      to what was read before. */
  lemma StepTaken(s: seq<byte>, r: seq<TreeEntry>, index: nat, entry: TreeEntry, next: nat)
    requires index < |s| && Records(s, 0) == Prefix(r, Records(s, index))
    requires Step(s, index) == Some((entry, next))
    ensures Records(s, index).Some? ==> Records(s, next).Some?
    ensures Records(s, 0) == Prefix(r + [entry], Records(s, next))
  {
    RecordsUnfold(s, index, entry, next);
    PrefixAssoc(r, [entry], Records(s, next));
  }

  // The writer side, for the round trip

  /** A record as Git writes it: a mode without spaces, a name without NUL, a 20-byte id. */
  datatype Record = Record(mode: seq<byte>, name: seq<byte>, id: seq<byte>)

  predicate WellFormed(rec: Record)
  {
    Space !in rec.mode && Nul !in rec.name && |rec.id| == 20
  }

  function Serialize(rec: Record): (r: seq<byte>)
    ensures |r| == |rec.mode| + 1 + |rec.name| + 1 + |rec.id|
  {
    rec.mode + ([Space] + (rec.name + ([Nul] + rec.id)))
  }

  /** The entry `parseTree` makes of a record. */
  function EntryOf(rec: Record): TreeEntry
  {
    TreeEntry(NormalizeMode(rec.mode), rec.name, Hex(rec.id))
  }

  function EntriesOf(recs: seq<Record>): (r: seq<TreeEntry>)
    ensures |r| == |recs|
  {
    if recs == [] then [] else [EntryOf(recs[0])] + EntriesOf(recs[1..])
  }

  /** `bytes` holds the fields of the well-formed record `rec` at cursor `i`: the mode,
      a space, the name, a NUL and the 20 bytes of the id. */
  predicate RecordAtCursor(bytes: seq<byte>, i: nat, rec: Record)
  {
    var pos1 := i + |rec.mode|;
    var pos2 := pos1 + 1 + |rec.name|;
    WellFormed(rec) && pos2 + 21 <= |bytes|
    && bytes[i..pos1] == rec.mode && bytes[pos1] == Space
    && bytes[pos1 + 1..pos2] == rec.name && bytes[pos2] == Nul
    && bytes[pos2 + 1..pos2 + 21] == rec.id
  }

  /** A serialised record lays out its fields at the cursor. */
  lemma SerializedAtCursor(prefix: seq<byte>, rec: Record, rest: seq<byte>)
    requires WellFormed(rec)
    ensures RecordAtCursor(prefix + (Serialize(rec) + rest), |prefix|, rec)
  {
    var bytes := prefix + (Serialize(rec) + rest);
    assert bytes[|prefix|..] == Serialize(rec) + rest;
    assert Serialize(rec) + rest == rec.mode + ([Space] + (rec.name + ([Nul] + (rec.id + rest))));
    LaidOut(bytes, |prefix|, rec, rest);
  }

  /** A tail that starts with the fields of a record holds the record at its cursor. */
  lemma LaidOut(bytes: seq<byte>, k: nat, rec: Record, rest: seq<byte>)
    requires WellFormed(rec) && k <= |bytes|
    requires bytes[k..] == rec.mode + ([Space] + (rec.name + ([Nul] + (rec.id + rest))))
    ensures RecordAtCursor(bytes, k, rec)
  {
    FieldAt(bytes, k, rec.mode, Space, rec.name + ([Nul] + (rec.id + rest)));
    var pos1 := k + |rec.mode|;
    FieldAt(bytes, pos1 + 1, rec.name, Nul, rec.id + rest);
    TakeAt(bytes, pos1 + 1 + |rec.name| + 1, rec.id, rest);
  }

  /** The tail `bytes[k..]` starting with `m` holds `m` right at `k`. */
  lemma TakeAt(bytes: seq<byte>, k: nat, m: seq<byte>, t: seq<byte>)
    requires k <= |bytes| && bytes[k..] == m + t
    ensures bytes[k..k + |m|] == m
  {
    assert bytes[k..k + |m|] == bytes[k..][..|m|];
  }

  /** Where a field and the byte after it sit when the tail `bytes[k..]` starts with them. */
  lemma FieldAt(bytes: seq<byte>, k: nat, m: seq<byte>, c: byte, t: seq<byte>)
    requires k <= |bytes| && bytes[k..] == m + ([c] + t)
    ensures bytes[k..k + |m|] == m && bytes[k + |m|] == c && bytes[k + |m| + 1..] == t
  {
    assert bytes[k..k + |m|] == bytes[k..][..|m|];
    assert bytes[k + |m| + 1..] == bytes[k..][|m| + 1..];
  }

  lemma StepAt(bytes: seq<byte>, i: nat, rec: Record)
    requires RecordAtCursor(bytes, i, rec)
    ensures Step(bytes, i) == Some((EntryOf(rec), i + |Serialize(rec)|))
  {
    var pos1 := i + |rec.mode|;
    var pos2 := pos1 + 1 + |rec.name|;
    FieldsFound(bytes, i, pos1, pos2);
    StepOf(bytes, i, pos1, pos2);
    EntryAtOf(bytes, i, pos1, pos2, rec);
  }

  /** The space and the NUL of a record are the first ones after the cursor. */
  lemma FieldsFound(bytes: seq<byte>, i: nat, pos1: nat, pos2: nat)
    requires i <= pos1 < pos2 < |bytes| && bytes[pos1] == Space && bytes[pos2] == Nul
    requires Space !in bytes[i..pos1] && Nul !in bytes[pos1 + 1..pos2]
    ensures Js.IndexOf(bytes, Space, i) == Some(pos1)
    ensures Js.IndexOf(bytes, Nul, pos1 + 1) == Some(pos2)
  {
    NotInWindow(bytes, i, pos1, Space);
    Js.IndexOfFirst(bytes, Space, i, pos1);
    NotInWindow(bytes, pos1 + 1, pos2, Nul);
    Js.IndexOfFirst(bytes, Nul, pos1 + 1, pos2);
  }

  lemma EntryAtOf(bytes: seq<byte>, i: nat, pos1: nat, pos2: nat, rec: Record)
    requires i <= pos1 < pos2 && pos2 + 21 <= |bytes|
    requires bytes[i..pos1] == rec.mode && bytes[pos1 + 1..pos2] == rec.name
    requires bytes[pos2 + 1..pos2 + 21] == rec.id
    ensures EntryAt(bytes, i, pos1, pos2) == EntryOf(rec)
  {
  }

  lemma NotInWindow(s: seq<byte>, lo: nat, hi: nat, c: byte)
    requires lo <= hi <= |s| && c !in s[lo..hi]
    ensures forall j :: lo <= j < hi ==> s[j] != c
  {
    forall j | lo <= j < hi
      ensures s[j] != c
    {
      assert s[j] == s[lo..hi][j - lo];
    }
  }

  /** `bytes` holds the records `recs` one after another from cursor `i`, and nothing
      after them: the cursor advances by |mode| + 1 + |name| + 1 + 20 per record and
      ends exactly at the end of the buffer. */
  predicate RecordsAtCursor(bytes: seq<byte>, i: nat, recs: seq<Record>)
    decreases |recs|
  {
    if recs == [] then i == |bytes|
    else RecordAtCursor(bytes, i, recs[0]) && RecordsAtCursor(bytes, i + |Serialize(recs[0])|, recs[1..])
  }

  /** Each turn of the loop, from cursor `i` on, reads the next of `recs` and moves the
      cursor past it; after the last one the cursor is at the end of the buffer. */
  predicate StepsAt(bytes: seq<byte>, i: nat, recs: seq<Record>)
    decreases |recs|
  {
    if recs == [] then i == |bytes|
    else
      i < |bytes| && Step(bytes, i) == Some((EntryOf(recs[0]), i + |Serialize(recs[0])|))
      && StepsAt(bytes, i + |Serialize(recs[0])|, recs[1..])
  }

  lemma {:induction false} LaidOutSteps(bytes: seq<byte>, i: nat, recs: seq<Record>)
    requires RecordsAtCursor(bytes, i, recs)
    ensures StepsAt(bytes, i, recs)
    decreases |recs|
  {
    if recs != [] {
      StepAt(bytes, i, recs[0]);
      LaidOutSteps(bytes, i + |Serialize(recs[0])|, recs[1..]);
    }
  }

  /** The loop reads back the records it steps over, in order. */
  lemma {:induction false} ParseSteps(bytes: seq<byte>, i: nat, recs: seq<Record>)
    requires StepsAt(bytes, i, recs)
    ensures Records(bytes, i) == Some(EntriesOf(recs))
    decreases |recs|
  {
    if recs != [] {
      var next := i + |Serialize(recs[0])|;
      RecordsUnfold(bytes, i, EntryOf(recs[0]), next);
      ParseSteps(bytes, next, recs[1..]);
    }
  }

  /** Round trip: a buffer of well-formed records laid out one after another parses
      back to their entries, in order. */
  lemma ParseTreeOf(bytes: seq<byte>, recs: seq<Record>)
    requires RecordsAtCursor(bytes, 0, recs)
    ensures Records(bytes, 0) == Some(EntriesOf(recs))
  {
    LaidOutSteps(bytes, 0, recs);
    ParseSteps(bytes, 0, recs);
  }

  /** The parsed entries determine the records: ids are recovered from their hex, and
      a mode is recovered up to the normalisation of five-byte modes. */
  lemma EntryDetermines(a: Record, b: Record)
    requires WellFormed(a) && WellFormed(b) && EntryOf(a) == EntryOf(b)
    requires |a.mode| != 5 && |b.mode| != 5
    ensures a == b
  {
    HexInjective(a.id, b.id);
  }
}
