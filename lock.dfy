/** lib/lock.js: the parser of base-lock content, the tag-body extraction of
    `getContent`/`getContentAsync`, and the `gitlock-NNN-<hash>` names. */
module Lock {
  import opened Wrappers
  import Js
  import opened Util
  import Diff
  import DiffCodec

  /** One line of a file listing: `<mode> <hash> <path>`. */
  datatype FileEntry = FileEntry(mode: string, hash: string, path: string)

  /** What `parseContent` returns: nothing (`undefined`) for signature and timestamp
      locks, otherwise the parent hashes, the commit id, and either the file listing or
      the diff text of the body. */
  datatype Content =
    | Unparsed
    | FullContent(parentHashes: seq<string>, files: seq<FileEntry>, commitId: string)
    | DiffContent(parentHashes: seq<string>, diff: string, commitId: string)

  /** The capture groups of the content regex. */
  datatype Match = Match(parents: string, body: string, commitId: string, data: string)

  // The content regex, part by part. Each repeated group is greedy, and giving back a
  // repetition never lets the rest match (a `parent` line cannot start a body line or
  // `commit`, a body line cannot start `commit`), so the first match is the greedy one.

  /** The length of the prefix matched by `(?:parent [^\s]*\n)*`. */
  function ParentRun(s: string): (n: nat)
    ensures n <= |s|
    decreases |s|
  {
    if Js.StartsWith(s, "parent ") then
      var h := Js.NonSpaceRun(s[7..]);
      if 7 + |h| < |s| && s[7 + |h|] == '\n' then 8 + |h| + ParentRun(s[8 + |h|..]) else 0
    else 0
  }

  /** The length of the prefix matched by `\n*`. */
  function NewlineRun(s: string): (n: nat)
    ensures n <= |s|
    ensures forall i :: 0 <= i < n ==> s[i] == '\n'
    ensures n < |s| ==> s[n] != '\n'
  {
    if s != [] && s[0] == '\n' then 1 + NewlineRun(s[1..]) else 0
  }

  /** `(?:a|d|c|\d{6}) ` at the start of `s`. */
  predicate BodyHead(s: string)
  {
    (|s| >= 2 && (s[0] == 'a' || s[0] == 'd' || s[0] == 'c') && s[1] == ' ')
    || (|s| >= 7 && Js.AllDigits(s[..6]) && s[6] == ' ')
  }

  /** The length of the prefix matched by `(?:(?:a|d|c|\d{6}) [^\n]*\n)*`. */
  function BodyRun(s: string): (n: nat)
    ensures n <= |s|
    decreases |s|
  {
    if BodyHead(s) then
      match Js.IndexOf(s, '\n', 0)
      case None => 0
      case Some(k) => k + 1 + BodyRun(s[k + 1..])
    else 0
  }

  /** `commit ([^\s]*)\n\n*base64-([^\s]*)\n`, the rest of the content being ignored. */
  function MatchTail(s: string): Option<(string, string)>
  {
    if !Js.StartsWith(s, "commit ") then None
    else
      var id := Js.NonSpaceRun(s[7..]);
      AfterCommitId(id, s[7 + |id|..])
  }

  /** `\n\n*base64-([^\s]*)\n` after the commit id. */
  function AfterCommitId(id: string, t: string): Option<(string, string)>
  {
    if t == [] || t[0] != '\n' then None
    else
      match MatchData(t[1 + NewlineRun(t[1..])..])
      case None => None
      case Some(data) => Some((id, data))
  }

  /** `base64-([^\s]*)\n` */
  function MatchData(u: string): Option<string>
  {
    if !Js.StartsWith(u, "base64-") then None
    else
      var data := Js.NonSpaceRun(u[7..]);
      var v := u[7 + |data|..];
      if v == [] || v[0] != '\n' then None else Some(data)
  }

  /** The content regex of `parseContent`; `None` when it does not match. */
  function MatchContent(content: string): Option<Match>
  {
    var p := ParentRun(content);
    var s1 := content[p..];
    var s2 := s1[NewlineRun(s1)..];
    var b := BodyRun(s2);
    var s3 := s2[b..];
    match MatchTail(s3[NewlineRun(s3)..])
    case None => None
    case Some(tail) => Some(Match(content[..p], s2[..b], tail.0, tail.1))
  }

  /** `line.split(" ")[1]` for a parent line. The regex only lets through lines
      `parent <hash>`, which always have that field. */
  function ParentHash(line: string): string
  {
    var f := Js.SplitOn(line, ' ');
    if |f| >= 2 then f[1] else ""
  }

  /** `/^(\d{6}) ([^\s]*) (.*)$/` on one listing line; `None` (a TypeError in the source,
      reading a group of `null`) when it does not match. */
  function FileLine(line: string): (r: Option<FileEntry>)
    ensures r.Some? ==> ValidEntry(r.value)
  {
    if |line| >= 7 && Js.AllDigits(line[..6]) && line[6] == ' ' then AfterMode(line[..6], line[7..])
    else None
  }

  /** `([^\s]*) (.*)$` after the mode and its space. */
  function AfterMode(mode: string, rest: string): (r: Option<FileEntry>)
    requires |mode| == 6 && Js.AllDigits(mode)
    ensures r.Some? ==> ValidEntry(r.value)
  {
    var hash := Js.NonSpaceRun(rest);
    var k := |hash|;
    if k < |rest| && rest[k] == ' ' && Js.NoLineTerminator(rest[k + 1..]) then
      Some(FileEntry(mode, hash, rest[k + 1..]))
    else None
  }

  /** Every listing line through `FileLine`; `None` when one of them fails. */
  function ParseFiles(lines: seq<string>): (r: Option<seq<FileEntry>>)
    ensures r.Some? ==> |r.value| == |lines|
    ensures r.Some? ==> forall i :: 0 <= i < |r.value| ==> ValidEntry(r.value[i])
  {
    if lines == [] then Some([])
    else
      match FileLine(lines[0])
      case None => None
      case Some(e) => Prefix([e], ParseFiles(lines[1..]))
  }

  /** A body that starts like a diff: `a `, `d ` or `c `. */
  predicate DiffBody(body: string)
  {
    Js.StartsWith(body, "a ") || Js.StartsWith(body, "d ") || Js.StartsWith(body, "c ")
  }

  /** `parseContent`. `None` stands for the TypeError thrown when the content regex or a
      file-line regex does not match. */
  function ParseContent(content: string): (r: Option<Content>)
    ensures Js.StartsWith(content, "signatures\n") || Js.StartsWith(content, "timestamps\n") ==> r == Some(Unparsed)
    ensures r.Some? && r.value.FullContent? ==> forall i :: 0 <= i < |r.value.files| ==> ValidEntry(r.value.files[i])
    ensures r.Some? && r.value.DiffContent? ==> DiffBody(r.value.diff)
  {
    if Js.StartsWith(content, "signatures\n") then Some(Unparsed)
    else if Js.StartsWith(content, "timestamps\n") then Some(Unparsed)
    else
      match MatchContent(content)
      case None => None
      case Some(m) => ContentOf(m)
  }

  /** The groups of a content match turned into the result of `parseContent`. */
  function ContentOf(m: Match): (r: Option<Content>)
    ensures r.Some? ==> !r.value.Unparsed?
    ensures r.Some? && r.value.FullContent? ==> forall i :: 0 <= i < |r.value.files| ==> ValidEntry(r.value.files[i])
    ensures r.Some? && r.value.DiffContent? ==> DiffBody(r.value.diff)
  {
    var parentLines := ParseLines(m.parents);
    var parentHashes := seq(|parentLines|, i requires 0 <= i < |parentLines| => ParentHash(parentLines[i]));
    if DiffBody(m.body) then
      Some(DiffContent(parentHashes, m.body, m.commitId))
    else
      match ParseFiles(ParseLines(m.body))
      case None => None
      case Some(files) => Some(FullContent(parentHashes, files, m.commitId))
  }

  // Rendering, as the base locks are written (test/base.js:124-139)

  /** A listing entry the file-line regex reads back: a six-digit mode, a hash without
      whitespace, a path without line terminators. */
  predicate ValidEntry(e: FileEntry)
  {
    |e.mode| == 6 && Js.AllDigits(e.mode) && Js.NoWhitespace(e.hash) && Js.NoLineTerminator(e.path)
  }

  function EntryLine(e: FileEntry): string
  {
    e.mode + " " + e.hash + " " + e.path
  }

  function ParentLines(hashes: seq<string>): (r: seq<string>)
    ensures |r| == |hashes| && forall i :: 0 <= i < |hashes| ==> r[i] == "parent " + hashes[i]
  {
    if hashes == [] then [] else ["parent " + hashes[0]] + ParentLines(hashes[1..])
  }

  function EntryLines(files: seq<FileEntry>): seq<string>
  {
    seq(|files|, i requires 0 <= i < |files| => EntryLine(files[i]))
  }

  /** Base-lock content: the parent lines and a blank line if there are parents, the body
      and a blank line if it is not empty, the commit line, a blank line, the base64
      commit message, a blank line and the nonce. */
  function Render(parents: seq<string>, body: string, commitId: string, data: string, nonce: string): string
  {
    JoinLines(ParentLines(parents)) + (Blank(parents != []) + (body + (Blank(body != "") + Tail(commitId, data, nonce))))
  }

  /** The blank line that follows a non-empty block. */
  function Blank(nonEmpty: bool): string
  {
    if nonEmpty then "\n" else ""
  }

  // Lemmas for the parts of the regex

  lemma ParentRunStops(s: string)
    requires s == [] || s[0] != 'p'
    ensures ParentRun(s) == 0
  {
  }

  lemma {:induction false} ParentRunJoin(hashes: seq<string>, rest: string)
    requires forall i :: 0 <= i < |hashes| ==> Js.NoWhitespace(hashes[i])
    requires rest == [] || rest[0] != 'p'
    ensures ParentRun(JoinLines(ParentLines(hashes)) + rest) == |JoinLines(ParentLines(hashes))|
    decreases |hashes|
  {
    if hashes == [] {
      assert ParentLines(hashes) == [];
      assert JoinLines([]) + rest == rest;
    } else {
      var h, more := hashes[0], JoinLines(ParentLines(hashes[1..]));
      ParentLinesCons(hashes, rest);
      ParentRunStep(h, more + rest);
      ParentRunJoin(hashes[1..], rest);
    }
  }

  /** The first parent line of a joined block, and the rest. */
  lemma ParentLinesCons(hashes: seq<string>, rest: string)
    requires hashes != []
    ensures JoinLines(ParentLines(hashes)) + rest
         == "parent " + (hashes[0] + ("\n" + (JoinLines(ParentLines(hashes[1..])) + rest)))
    ensures |JoinLines(ParentLines(hashes))| == 8 + |hashes[0]| + |JoinLines(ParentLines(hashes[1..]))|
  {
    var lines := ParentLines(hashes);
    assert lines[1..] == ParentLines(hashes[1..]);
    RightAssoc("parent ", hashes[0], "\n", JoinLines(lines[1..]), rest);
  }

  /** One parent line and its newline are consumed by one repetition. */
  lemma ParentRunStep(h: string, tail: string)
    requires Js.NoWhitespace(h)
    ensures ParentRun("parent " + (h + ("\n" + tail))) == 8 + |h| + ParentRun(tail)
  {
    var s := "parent " + (h + ("\n" + tail));
    PieceAt("parent ", h, '\n', tail);
    Js.NonSpaceRunOf(h, "\n" + tail);
  }

  /** A sequence of five pieces joined from the left, regrouped from the right. */
  lemma RightAssoc<T>(a: seq<T>, b: seq<T>, c: seq<T>, d: seq<T>, e: seq<T>)
    ensures a + b + c + d + e == a + (b + (c + (d + e)))
    ensures (a + b + c + d) + e == a + (b + (c + (d + e)))
  {
  }

  /** The pieces of `p + (w + ([c] + t))`. */
  lemma PieceAt<T>(p: seq<T>, w: seq<T>, c: T, t: seq<T>)
    ensures var s := p + (w + ([c] + t));
      |s| == |p| + |w| + 1 + |t| && s[..|p|] == p && s[|p|..] == w + ([c] + t) &&
      s[|p|..][..|w|] == w && s[|p| + |w|] == c && s[|p| + |w| + 1..] == t
  {
  }

  lemma {:induction false} BodyRunJoin(lines: seq<string>, rest: string)
    requires forall i :: 0 <= i < |lines| ==> BodyHead(lines[i]) && '\n' !in lines[i]
    requires !BodyHead(rest)
    ensures BodyRun(JoinLines(lines) + rest) == |JoinLines(lines)|
    decreases |lines|
  {
    if lines == [] {
      assert JoinLines(lines) + rest == rest;
    } else {
      var tail := JoinLines(lines[1..]) + rest;
      assert JoinLines(lines) + rest == lines[0] + ("\n" + tail);
      BodyRunStep(lines[0], tail);
      BodyRunJoin(lines[1..], rest);
    }
  }

  /** One body line and its newline are consumed by one repetition. */
  lemma BodyRunStep(l: string, tail: string)
    requires BodyHead(l) && '\n' !in l
    ensures BodyRun(l + ("\n" + tail)) == |l| + 1 + BodyRun(tail)
  {
    var s := l + ("\n" + tail);
    WordThen(l, '\n', tail);
    BodyHeadPrefix(l, s);
    BodyRunAt(s, |l|);
  }

  /** A repetition ends at the first newline. */
  lemma BodyRunAt(s: string, k: nat)
    requires BodyHead(s) && Js.IndexOf(s, '\n', 0) == Some(k)
    ensures BodyRun(s) == k + 1 + BodyRun(s[k + 1..])
  {
  }

  /** The pieces of `w + ([c] + t)` for a word `w` without `c`: `indexOf(c)` finds the
      `c` after the word. */
  lemma WordThen<T>(w: seq<T>, c: T, t: seq<T>)
    requires c !in w
    ensures var s := w + ([c] + t);
      |w| <= |s| && s[..|w|] == w && s[|w| + 1..] == t && Js.IndexOf(s, c, 0) == Some(|w|)
  {
    var s := w + ([c] + t);
    assert forall j :: 0 <= j < |w| ==> s[j] == w[j];
    Js.IndexOfFirst(s, c, 0, |w|);
  }

  /** `BodyHead` only looks at the first seven characters. */
  lemma BodyHeadPrefix(l: string, s: string)
    requires BodyHead(l) && |l| <= |s| && s[..|l|] == l
    ensures BodyHead(s)
  {
    if |l| >= 7 && Js.AllDigits(l[..6]) && l[6] == ' ' {
      assert s[..6] == l[..6];
    }
  }

  /** The text after the first `|p|` characters of `p + s` is `s`. */
  lemma DropPrefix(p: string, s: string)
    ensures (p + s)[..|p|] == p && (p + s)[|p|..] == s
  {
  }

  function Tail(commitId: string, data: string, nonce: string): string
  {
    "commit " + commitId + "\n" + "\n" + "base64-" + data + "\n" + "\n" + nonce
  }

  lemma MatchDataOf(data: string, v: string)
    requires Js.NoWhitespace(data) && v != [] && v[0] == '\n'
    ensures MatchData("base64-" + (data + v)) == Some(data)
  {
    var u := "base64-" + (data + v);
    DropPrefix("base64-", data + v);
    Js.NonSpaceRunOf(data, v);
    DropPrefix(data, v);
  }

  lemma MatchTailOf(commitId: string, data: string, nonce: string)
    requires Js.NoWhitespace(commitId) && Js.NoWhitespace(data)
    ensures MatchTail(Tail(commitId, data, nonce)) == Some((commitId, data))
  {
    var v := "\n" + ("\n" + nonce);
    var u := "base64-" + (data + v);
    var t := "\n" + ("\n" + u);
    TailShape(commitId, data, nonce);
    MatchTailAt(commitId, t);
    PieceAt([], [], '\n', "\n" + u);
    assert [] + ([] + ("\n" + ("\n" + u))) == t;
    NewlineRunOf("\n", u);
    PieceAt(['\n'], [], '\n', u);
    assert ['\n'] + ([] + ("\n" + u)) == t;
    MatchDataOf(data, v);
  }

  /** The tail of rendered content with its pieces grouped from the right. */
  lemma TailShape(commitId: string, data: string, nonce: string)
    ensures Tail(commitId, data, nonce)
         == "commit " + (commitId + ("\n" + ("\n" + ("base64-" + (data + ("\n" + ("\n" + nonce)))))))
  {
    RightAssoc("commit " + commitId + "\n" + "\n", "base64-", data, "\n", "\n" + nonce);
    RightAssoc([], "commit ", commitId, "\n", "\n");
    assert [] + "commit " == "commit ";
  }

  /** `commit <id>` followed by a newline: the rest is read past the blank lines. */
  lemma MatchTailAt(id: string, t: string)
    requires Js.NoWhitespace(id) && t != [] && t[0] == '\n'
    ensures MatchTail("commit " + (id + t)) == AfterCommitId(id, t)
  {
    PieceAt("commit ", id, t[0], t[1..]);
    assert [t[0]] + t[1..] == t;
    Js.NonSpaceRunOf(id, t);
  }

  /** The regex on content split into the parts it captures and skips. */
  lemma MatchContentParts(P: string, R1: string, B: string, R2: string, T: string, commitId: string, data: string)
    requires ParentRun(P + (R1 + (B + (R2 + T)))) == |P|
    requires NewlineRun(R1 + (B + (R2 + T))) == |R1|
    requires BodyRun(B + (R2 + T)) == |B|
    requires NewlineRun(R2 + T) == |R2|
    requires MatchTail(T) == Some((commitId, data))
    ensures MatchContent(P + (R1 + (B + (R2 + T)))) == Some(Match(P, B, commitId, data))
  {
    DropPrefix(P, R1 + (B + (R2 + T)));
    DropPrefix(R1, B + (R2 + T));
    DropPrefix(B, R2 + T);
    DropPrefix(R2, T);
  }

  lemma NewlineRunOf(sep: string, x: string)
    requires sep == "" || sep == "\n"
    requires x != [] && x[0] != '\n'
    ensures NewlineRun(sep + x) == |sep|
  {
    if sep == "\n" {
      assert (sep + x)[1..] == x;
    } else {
      assert sep + x == x;
    }
  }

  /** Neither a blank line nor the commit line matches the body-line head. */
  lemma NotBodyHead(s: string)
    requires s != [] && (s[0] == '\n' || (|s| >= 2 && s[0] == 'c' && s[1] == 'o'))
    ensures !BodyHead(s)
  {
    if |s| >= 7 {
      assert s[..6][0] == s[0];
    }
  }

  /** The first character of a non-empty body. */
  lemma BodyStart(bodyLines: seq<string>)
    requires bodyLines != [] && BodyHead(bodyLines[0])
    ensures var b := JoinLines(bodyLines); b != [] && b[0] == bodyLines[0][0]
    ensures var b := JoinLines(bodyLines); b[0] == 'a' || b[0] == 'd' || b[0] == 'c' || Js.IsDigit(b[0])
    ensures var b := JoinLines(bodyLines); b[0] != '\n' && b[0] != 'p'
  {
    var l := bodyLines[0];
    assert JoinLines(bodyLines) == l + "\n" + JoinLines(bodyLines[1..]);
    if |l| >= 7 && Js.AllDigits(l[..6]) && l[6] == ' ' {
      assert Js.IsDigit(l[..6][0]);
    }
  }

  /** The regex on rendered content captures the parent block, the body, the commit id
      and the base64 data. */
  lemma MatchRender(parents: seq<string>, bodyLines: seq<string>, commitId: string, data: string, nonce: string)
    requires forall i :: 0 <= i < |parents| ==> Js.NoWhitespace(parents[i])
    requires forall i :: 0 <= i < |bodyLines| ==> BodyHead(bodyLines[i]) && '\n' !in bodyLines[i]
    requires Js.NoWhitespace(commitId) && Js.NoWhitespace(data)
    ensures MatchContent(Render(parents, JoinLines(bodyLines), commitId, data, nonce))
         == Some(Match(JoinLines(ParentLines(parents)), JoinLines(bodyLines), commitId, data))
  {
    var P := JoinLines(ParentLines(parents));
    var sep1 := Blank(parents != []);
    var B := JoinLines(bodyLines);
    var sep2 := Blank(B != "");
    var T := Tail(commitId, data, nonce);
    JoinLinesEnds(bodyLines);
    var x := B + (sep2 + T);
    TailStart(commitId, data, nonce);
    if bodyLines != [] {
      BodyStart(bodyLines);
      assert x[0] == B[0];
    } else {
      assert x == T;
    }
    NewlineRunOf(sep1, x);
    var rest1 := sep1 + x;
    assert rest1[0] != 'p';
    ParentRunJoin(parents, rest1);
    if sep2 == "" {
      assert sep2 + T == T;
    }
    NotBodyHead(sep2 + T);
    BodyRunJoin(bodyLines, sep2 + T);
    NewlineRunOf(sep2, T);
    MatchTailOf(commitId, data, nonce);
    MatchContentParts(P, sep1, B, sep2, T, commitId, data);
  }

  // Lemmas for the groups

  lemma ParentHashOf(h: string)
    requires Js.NoWhitespace(h)
    ensures ParentHash("parent " + h) == h
  {
    assert ' ' !in h by {
      assert forall i :: 0 <= i < |h| ==> h[i] != ' ';
    }
    Js.SplitOnNone(h, ' ');
    assert "parent " + h == "parent" + [' '] + h;
    Js.SplitOnWord("parent", ' ', h);
  }

  lemma ParentLinesPlain(parents: seq<string>)
    requires forall i :: 0 <= i < |parents| ==> Js.NoWhitespace(parents[i])
    ensures forall i :: 0 <= i < |ParentLines(parents)| ==> PlainLine(ParentLines(parents)[i])
  {
    forall i | 0 <= i < |parents|
      ensures PlainLine(ParentLines(parents)[i])
    {
      var h := parents[i];
      assert forall j :: 0 <= j < |h| ==> h[j] != '\n' && h[j] != '\r';
    }
  }

  /** The file-line regex reads a rendered entry back. */
  lemma FileLineOf(e: FileEntry)
    requires ValidEntry(e)
    ensures FileLine(EntryLine(e)) == Some(e)
  {
    var line := EntryLine(e);
    RightAssoc(e.mode, " ", e.hash, " ", e.path);
    SplitAt(e.mode, ' ', e.hash + (" " + e.path));
    SplitAt(e.hash, ' ', e.path);
    Js.NonSpaceRunOf(e.hash, " " + e.path);
  }

  /** The pieces of `w + ([c] + t)`. */
  lemma SplitAt<T>(w: seq<T>, c: T, t: seq<T>)
    ensures var s := w + ([c] + t);
      |s| == |w| + 1 + |t| && s[..|w|] == w && s[|w|] == c && s[|w| + 1..] == t
  {
  }

  lemma {:induction false} ParseFilesOf(files: seq<FileEntry>)
    requires forall i :: 0 <= i < |files| ==> ValidEntry(files[i])
    ensures ParseFiles(EntryLines(files)) == Some(files)
    decreases |files|
  {
    if files != [] {
      FileLineOf(files[0]);
      assert EntryLines(files)[1..] == EntryLines(files[1..]);
      ParseFilesOf(files[1..]);
      assert [files[0]] + files[1..] == files;
    }
  }

  lemma EntryLinesShape(files: seq<FileEntry>)
    requires forall i :: 0 <= i < |files| ==> ValidEntry(files[i])
    ensures forall i :: 0 <= i < |files| ==>
      BodyHead(EntryLines(files)[i]) && '\n' !in EntryLines(files)[i] && PlainLine(EntryLines(files)[i])
  {
    forall i | 0 <= i < |files|
      ensures BodyHead(EntryLines(files)[i]) && '\n' !in EntryLines(files)[i] && PlainLine(EntryLines(files)[i])
    {
      var e := files[i];
      var line := EntryLine(e);
      assert line[..6] == e.mode && line[6] == ' ';
      assert forall j :: 0 <= j < |e.mode| ==> Js.IsDigit(e.mode[j]);
      assert forall j :: 0 <= j < |e.hash| ==> !Js.IsWhitespace(e.hash[j]);
      assert forall j :: 0 <= j < |e.path| ==> !Js.IsLineTerminator(e.path[j]);
      assert forall j :: 0 <= j < |line| ==> line[j] in e.mode || line[j] == ' ' || line[j] in e.hash || line[j] in e.path;
    }
  }

  lemma ParentHashesOf(parents: seq<string>)
    requires forall i :: 0 <= i < |parents| ==> Js.NoWhitespace(parents[i])
    ensures var lines := ParseLines(JoinLines(ParentLines(parents)));
      seq(|lines|, i requires 0 <= i < |lines| => ParentHash(lines[i])) == parents
  {
    ParentLinesPlain(parents);
    ParseLinesJoin(ParentLines(parents));
    forall i | 0 <= i < |parents|
      ensures ParentHash(ParentLines(parents)[i]) == parents[i]
    {
      ParentHashOf(parents[i]);
    }
  }

  /** Rendered content never starts like a signature or timestamp lock. */
  lemma RenderNotUnparsed(parents: seq<string>, bodyLines: seq<string>, commitId: string, data: string, nonce: string)
    requires forall i :: 0 <= i < |bodyLines| ==> BodyHead(bodyLines[i])
    ensures var content := Render(parents, JoinLines(bodyLines), commitId, data, nonce);
      !Js.StartsWith(content, "signatures\n") && !Js.StartsWith(content, "timestamps\n")
  {
    var content := Render(parents, JoinLines(bodyLines), commitId, data, nonce);
    var P := JoinLines(ParentLines(parents));
    var B := JoinLines(bodyLines);
    var x := B + (Blank(B != "") + Tail(commitId, data, nonce));
    JoinLinesEnds(bodyLines);
    TailStart(commitId, data, nonce);
    if parents != [] {
      ParentsStart(parents);
      assert content[0] == P[0];
    } else {
      assert content == x;
      if bodyLines != [] {
        BodyStart(bodyLines);
        assert x[0] == B[0];
      } else {
        assert x == Tail(commitId, data, nonce);
      }
    }
    assert content[0] != 's' && content[0] != 't';
    FirstChar(content, "signatures\n");
    FirstChar(content, "timestamps\n");
  }

  lemma ParentsStart(parents: seq<string>)
    requires parents != []
    ensures var p := JoinLines(ParentLines(parents)); p != [] && p[0] == 'p'
  {
    var lines := ParentLines(parents);
    assert JoinLines(lines) == lines[0] + "\n" + JoinLines(lines[1..]);
    assert lines[0] == "parent " + parents[0];
  }

  lemma FirstChar(s: string, p: string)
    requires p != [] && s != [] && s[0] != p[0]
    ensures !Js.StartsWith(s, p)
  {
    if |p| <= |s| {
      assert s[..|p|][0] != p[0];
    }
  }

  lemma TailStart(commitId: string, data: string, nonce: string)
    ensures var t := Tail(commitId, data, nonce); |t| > 7 && t[..7] == "commit " && t[0] == 'c' && t[1] == 'o'
  {
    var rest := commitId + "\n" + "\n" + "base64-" + data + "\n" + "\n" + nonce;
    assert Tail(commitId, data, nonce) == "commit " + rest;
    DropPrefix("commit ", rest);
  }

  /** Round trip of a full base lock: the parent hashes, the file entries and the commit
      id come back as written. */
  lemma ParseFullContent(parents: seq<string>, files: seq<FileEntry>, commitId: string, data: string, nonce: string)
    requires forall i :: 0 <= i < |parents| ==> Js.NoWhitespace(parents[i])
    requires forall i :: 0 <= i < |files| ==> ValidEntry(files[i])
    requires Js.NoWhitespace(commitId) && Js.NoWhitespace(data)
    ensures ParseContent(Render(parents, JoinLines(EntryLines(files)), commitId, data, nonce))
         == Some(FullContent(parents, files, commitId))
  {
    var lines := EntryLines(files);
    var m := Match(JoinLines(ParentLines(parents)), JoinLines(lines), commitId, data);
    EntryLinesShape(files);
    RenderNotUnparsed(parents, lines, commitId, data, nonce);
    MatchRender(parents, lines, commitId, data, nonce);
    ParseContentOf(Render(parents, JoinLines(lines), commitId, data, nonce), m);
    ListingNotDiff(files);
    ContentOfFull(parents, files, commitId, data);
  }

  /** A listing starts with a digit, so it is never taken for a diff. */
  lemma ListingNotDiff(files: seq<FileEntry>)
    requires forall i :: 0 <= i < |files| ==> ValidEntry(files[i])
    ensures !DiffBody(JoinLines(EntryLines(files)))
  {
    var lines := EntryLines(files);
    var B := JoinLines(lines);
    if lines != [] {
      var e := files[0];
      EntryLinesShape(files);
      BodyStart(lines);
      assert lines[0] == EntryLine(e) && EntryLine(e)[0] == e.mode[0];
      assert Js.IsDigit(e.mode[0]);
      FirstChar(B, "a ");
      FirstChar(B, "d ");
      FirstChar(B, "c ");
    } else {
      assert B == "";
    }
  }

  lemma ContentOfFull(parents: seq<string>, files: seq<FileEntry>, commitId: string, data: string)
    requires forall i :: 0 <= i < |parents| ==> Js.NoWhitespace(parents[i])
    requires forall i :: 0 <= i < |files| ==> ValidEntry(files[i])
    requires !DiffBody(JoinLines(EntryLines(files)))
    ensures ContentOf(Match(JoinLines(ParentLines(parents)), JoinLines(EntryLines(files)), commitId, data))
         == Some(FullContent(parents, files, commitId))
  {
    ParentHashesOf(parents);
    EntryLinesShape(files);
    ParseLinesJoin(EntryLines(files));
    ParseFilesOf(files);
  }

  /** Round trip of a diff base lock: a body whose first line is a diff header comes back
      verbatim as the diff. */
  lemma ParseDiffContent(parents: seq<string>, bodyLines: seq<string>, commitId: string, data: string, nonce: string)
    requires forall i :: 0 <= i < |parents| ==> Js.NoWhitespace(parents[i])
    requires forall i :: 0 <= i < |bodyLines| ==> BodyHead(bodyLines[i]) && '\n' !in bodyLines[i]
    requires bodyLines != [] && |bodyLines[0]| >= 2 && bodyLines[0][0] in "adc" && bodyLines[0][1] == ' '
    requires Js.NoWhitespace(commitId) && Js.NoWhitespace(data)
    ensures ParseContent(Render(parents, JoinLines(bodyLines), commitId, data, nonce))
         == Some(DiffContent(parents, JoinLines(bodyLines), commitId))
  {
    var B := JoinLines(bodyLines);
    var content := Render(parents, B, commitId, data, nonce);
    var m := Match(JoinLines(ParentLines(parents)), B, commitId, data);
    RenderNotUnparsed(parents, bodyLines, commitId, data, nonce);
    MatchRender(parents, bodyLines, commitId, data, nonce);
    ParseContentOf(content, m);
    DiffBodyOf(bodyLines);
    ContentOfDiff(parents, B, commitId, data);
  }

  lemma DiffBodyOf(bodyLines: seq<string>)
    requires bodyLines != [] && |bodyLines[0]| >= 2 && bodyLines[0][0] in "adc" && bodyLines[0][1] == ' '
    ensures DiffBody(JoinLines(bodyLines))
  {
    var B := JoinLines(bodyLines);
    assert B == bodyLines[0] + ("\n" + JoinLines(bodyLines[1..]));
    assert B[..2] == bodyLines[0][..2];
  }

  /** Content that the regex matches, and that is not a signature or timestamp lock,
      is read from its groups. */
  lemma ParseContentOf(content: string, m: Match)
    requires !Js.StartsWith(content, "signatures\n") && !Js.StartsWith(content, "timestamps\n")
    requires MatchContent(content) == Some(m)
    ensures ParseContent(content) == ContentOf(m)
  {
  }

  lemma ContentOfDiff(parents: seq<string>, body: string, commitId: string, data: string)
    requires forall i :: 0 <= i < |parents| ==> Js.NoWhitespace(parents[i])
    requires DiffBody(body)
    ensures ContentOf(Match(JoinLines(ParentLines(parents)), body, commitId, data))
         == Some(DiffContent(parents, body, commitId))
  {
    ParentHashesOf(parents);
  }
}

/** lib/lock.js: the tag body of a lock (`getContent`, `getContentAsync`) and the
    `gitlock-NNN-<hash>` names (`generateLabel`, `getHash`). The git calls that fetch the
    tag are not modelled; their output is the parameter. */
module LockName {
  import opened Wrappers
  import Js
  import opened Util

  /** The lines after the first empty line, each followed by a newline; with no empty
      line `indexOf` gives -1 and every line is kept. */
  function TagBody(lines: seq<string>): (r: string)
    ensures r == "" || Js.EndsWith(r, "\n")
    ensures "" !in lines ==> r == JoinLines(lines)
  {
    JoinLinesEnds(Rest(lines));
    JoinLines(Rest(lines))
  }

  /** `lines.slice(lines.indexOf("") + 1)` */
  function Rest(lines: seq<string>): (r: seq<string>)
    ensures |r| <= |lines| && r == lines[|lines| - |r|..]
    ensures "" !in lines ==> r == lines
    ensures "" in lines ==> |r| < |lines| && r == lines[|lines| - |r|..] && lines[|lines| - |r| - 1] == ""
    ensures "" in lines ==> forall j :: 0 <= j < |lines| - |r| - 1 ==> lines[j] != ""
  {
    match Js.IndexOf(lines, "", 0)
    case None => lines
    case Some(k) => lines[k + 1..]
  }

  /** The body as the asynchronous variant reads it from the raw `git cat-file` output. */
  function TagContent(stdout: string): (r: string)
    ensures r == "" || Js.EndsWith(r, "\n")
  {
    TagBody(ParseLines(stdout))
  }

  /** A tag object of header lines, an empty line and the lock content gives back the
      content, empty lines inside it included. */
  lemma TagContentOf(header: seq<string>, content: seq<string>)
    requires forall i :: 0 <= i < |header| ==> PlainLine(header[i]) && header[i] != ""
    requires forall i :: 0 <= i < |content| ==> PlainLine(content[i])
    ensures TagContent(JoinLines(header + [""] + content)) == JoinLines(content)
  {
    var lines := header + [""] + content;
    PlainConcat(header, content);
    ParseLinesJoin(lines);
    RestOf(header, content);
  }

  lemma PlainConcat(header: seq<string>, content: seq<string>)
    requires forall i :: 0 <= i < |header| ==> PlainLine(header[i])
    requires forall i :: 0 <= i < |content| ==> PlainLine(content[i])
    ensures forall i :: 0 <= i < |header + [""] + content| ==> PlainLine((header + [""] + content)[i])
  {
    var lines := header + [""] + content;
    forall i | 0 <= i < |lines| ensures PlainLine(lines[i]) {
      if i < |header| {
        assert lines[i] == header[i];
      } else if i > |header| {
        assert lines[i] == content[i - |header| - 1];
      }
    }
  }

  /** The first empty line is the one after the header. */
  lemma RestOf(header: seq<string>, content: seq<string>)
    requires forall i :: 0 <= i < |header| ==> header[i] != ""
    ensures Rest(header + [""] + content) == content
  {
    var lines := header + [""] + content;
    assert forall j :: 0 <= j < |header| ==> lines[j] == header[j];
    Js.IndexOfFirst(lines, "", 0, |header|);
    assert lines[|header| + 1..] == content;
  }

  /** `^gitlock-(\d\d\d)-.*$`: `.` does not match a line terminator and `$` (without the
      `m` flag) is the end of the string. */
  predicate IsLockName(name: string)
  {
    |name| >= 12 && name[..8] == "gitlock-" && Js.AllDigits(name[8..11]) && name[11] == '-'
    && Js.NoLineTerminator(name[12..])
  }

  /** The label of the next lock in a chain: the three digits of `baseName` plus one,
      zero-padded to three characters. `None` stands for the TypeError of a name that
      does not match. */
  function GenerateLabel(baseName: string): (r: Option<string>)
    ensures r.Some? <==> IsLockName(baseName)
    ensures r.Some? ==> Js.AllDigits(r.value) && 3 <= |r.value|
    ensures r.Some? ==> Js.DigitsValue(r.value) == Js.DigitsValue(baseName[8..11]) + 1
  {
    if !IsLockName(baseName) then None
    else
      var n := Js.DigitsValue(baseName[8..11]) + 1;
      Js.DigitsValueOfDecimal(n);
      Some(ThreeDigits(Js.DecimalString(n)))
  }

  /** `"00" + s` for one digit, `"0" + s` for two, `s` otherwise. */
  function ThreeDigits(s: string): (r: string)
    requires |s| >= 1 && Js.AllDigits(s)
    ensures |s| > 2 ==> r == s
    ensures Js.AllDigits(r) && Js.DigitsValue(r) == Js.DigitsValue(s)
    ensures |r| == if |s| < 3 then 3 else |s|
  {
    if |s| == 1 then
      LeadingZeros("00", s);
      "00" + s
    else if |s| == 2 then
      LeadingZeros("0", s);
      "0" + s
    else s
  }

  /** The label is `pad(n + 1, 3)` below 999; 999 becomes the four digits `1000`. */
  lemma GenerateLabelPad(digits: string, rest: string)
    requires |digits| == 3 && Js.AllDigits(digits) && Js.NoLineTerminator(rest)
    ensures Js.DigitsValue(digits) < 999 ==>
      GenerateLabel("gitlock-" + digits + "-" + rest) == Pad(Js.DigitsValue(digits) + 1, 3)
    ensures Js.DigitsValue(digits) >= 999 ==>
      GenerateLabel("gitlock-" + digits + "-" + rest) == Some("1000")
  {
    var name := "gitlock-" + digits + "-" + rest;
    LockNameParts(digits, rest);
    var v := Js.DigitsValue(digits);
    GenerateLabelOf(name, v);
    ThreeDigitBound(digits);
    if v < 999 {
      LabelBelow(v + 1);
    } else {
      Decimal1000();
    }
  }

  lemma GenerateLabelOf(name: string, v: nat)
    requires IsLockName(name) && v == Js.DigitsValue(name[8..11])
    ensures GenerateLabel(name) == Some(ThreeDigits(Js.DecimalString(v + 1)))
  {
  }

  lemma ThreeDigitBound(digits: string)
    requires |digits| == 3 && Js.AllDigits(digits)
    ensures Js.DigitsValue(digits) <= 999
  {
    Js.DigitsBounds(digits);
    assert Js.Pow10(3) == 1000;
  }

  /** Below 1000, `ThreeDigits` is `pad(n, 3)`. */
  lemma LabelBelow(n: nat)
    requires n < 1000
    ensures Pad(n, 3) == Some(ThreeDigits(Js.DecimalString(n)))
  {
    var s := Js.DecimalString(n);
    assert Js.Pow10(3) == 1000;
    Js.DecimalLength(n, 3);
    assert Repeat('0', 0) == "";
    assert Repeat('0', 1) == "0";
    assert Repeat('0', 2) == "00";
  }

  /** The parts of a name built from three digits and a rest. */
  lemma LockNameParts(digits: string, rest: string)
    requires |digits| == 3 && Js.AllDigits(digits) && Js.NoLineTerminator(rest)
    ensures var name := "gitlock-" + digits + "-" + rest;
      IsLockName(name) && name[8..11] == digits && name[12..] == rest
  {
    var name := "gitlock-" + digits + "-" + rest;
    assert name[..8] == "gitlock-" && name[8..11] == digits && name[11] == '-' && name[12..] == rest;
  }

  lemma Decimal1000()
    ensures Js.DecimalString(1000) == "1000"
  {
    assert Js.DecimalString(1) == "1";
    assert Js.DecimalString(10) == "10";
    assert Js.DecimalString(100) == "100";
  }

  /** `getHash`: the text after `gitlock-NNN-`; `None` for a name that does not match. */
  function GetHash(name: string): (r: Option<string>)
    ensures r.Some? <==> IsLockName(name)
    ensures r.Some? ==> name == "gitlock-" + name[8..11] + "-" + r.value
  {
    if IsLockName(name) then Some(name[12..]) else None
  }

  /** The name built from three digits and a hash gives back the hash. */
  lemma GetHashOf(digits: string, h: string)
    requires |digits| == 3 && Js.AllDigits(digits) && Js.NoLineTerminator(h)
    ensures GetHash("gitlock-" + digits + "-" + h) == Some(h)
  {
    LockNameParts(digits, h);
  }
}
