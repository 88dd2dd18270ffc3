/** lib/main.js, `addLocks`: the bookkeeping that walks the commits of `HEAD` from the
    oldest, gives every commit without a lock a base lock diffed against its first
    parent's, and releases base locks that no child still needs. Git, the lock objects and
    their content are not modelled: their outputs are parameters. Times are whole seconds
    after `TAGGER_TIME_ORIGIN` (2005-04-08T00:00:00Z), so the origin is 0. */
module AddLocks {
  import opened Wrappers
  import Js
  import opened Util
  import LockName

  /** The fields of a commit's line in `git rev-list --children` (or `--parents`) output:
      its id, then the ids of the related commits. */
  function Head(line: string): string
  {
    Js.SplitOn(line, ' ')[0]
  }

  function Others(line: string): seq<string>
  {
    Js.SplitOn(line, ' ')[1..]
  }

  /* ---------------------------------------------------------------------------------
     Restoring the commit message (lib/main.js:101-115)
     --------------------------------------------------------------------------------- */

  datatype CommitText = CommitText(directoryId: string, message: string)

  /** The tree id from the first line, which must be `tree <id>` (the `assert`), and the
      message: the lines after the first empty line joined by newlines, with a final
      newline added when it is not empty and the raw text ends with one. `None` stands for
      the failed `assert` and for the TypeError of an empty text (no `lines[0]`). */
  function ReadCommit(content: string): (r: Option<CommitText>)
    ensures r.Some? ==> ' ' !in r.value.directoryId && '\n' !in r.value.directoryId
    ensures r.Some? ==> ParseLines(content) != [] && ParseLines(content)[0] == "tree " + r.value.directoryId
  {
    var lines := ParseLines(content);
    if lines == [] then None
    else
      var first := Js.SplitOn(lines[0], ' ');
      assert forall i :: 0 <= i < |first| ==> ' ' !in first[i];
      if |first| != 2 || first[0] != "tree" then None
      else
        assert '\n' !in first[1] by { SplitOnKeeps(lines[0], ' ', '\n'); }
        assert lines[0] == "tree " + first[1] by {
          Js.SplitOnJoin(lines[0], ' ');
          assert first[1..] == [first[1]];
        }
        Some(CommitText(first[1], Message(content, JoinNewline(LockName.Rest(lines)))))
  }

  /** A text whose first line is `tree <id>`, the id free of spaces, is read with that
      id: with the ensures of `ReadCommit`, a text is accepted exactly when its first
      line has that form. */
  lemma ReadCommitTree(content: string, id: string)
    requires ParseLines(content) != [] && ParseLines(content)[0] == "tree " + id && ' ' !in id
    ensures ReadCommit(content).Some? && ReadCommit(content).value.directoryId == id
  {
    assert "tree " + id == "tree" + [' '] + id;
    Js.SplitOnWord("tree", ' ', id);
    Js.SplitOnNone(id, ' ');
  }

  /** The pieces of a split hold no character the text does not hold. */
  lemma {:induction false} SplitOnKeeps(s: string, c: char, d: char)
    requires d !in s
    ensures forall i :: 0 <= i < |Js.SplitOn(s, c)| ==> d !in Js.SplitOn(s, c)[i]
  {
    var r := Js.SplitOn(s, c);
    forall i | 0 <= i < |r|
      ensures d !in r[i]
    {
      SplitOnSub(s, c, d, i);
    }
  }

  lemma {:induction false} SplitOnSub(s: string, c: char, d: char, i: nat)
    requires d !in s && i < |Js.SplitOn(s, c)|
    ensures d !in Js.SplitOn(s, c)[i]
    decreases |s|
  {
    if s != [] {
      assert s[1..] <= s[1..];
      assert forall x :: x in s[1..] ==> x in s;
      SplitOnSub(s[1..], c, d, 0);
      if i > 0 && s[0] == c {
        SplitOnSub(s[1..], c, d, i - 1);
      } else if i > 0 {
        SplitOnSub(s[1..], c, d, i);
      }
    }
  }

  /** Lines 112-115: the joined lines, plus `"\n"` when that is not empty and the raw text
      ends with a newline. */
  function Message(content: string, joined: string): (r: string)
    ensures r == "" <==> joined == ""
    ensures Js.EndsWith(content, "\n") && r != "" ==> Js.EndsWith(r, "\n")
  {
    if joined != "" && Js.EndsWith(content, "\n") then joined + "\n" else joined
  }

  /** The restored message ends with a newline exactly when the raw commit text does
      (unless the message is empty). */
  lemma MessageNewline(content: string)
    requires ReadCommit(content).Some? && ReadCommit(content).value.message != ""
    ensures Js.EndsWith(ReadCommit(content).value.message, "\n") <==> Js.EndsWith(content, "\n")
  {
    ReadCommitMessage(content);
    if !Js.EndsWith(content, "\n") {
      MessageNoNewline(content, ParseLines(content));
    }
  }

  /** A text that does not end with a newline gives a message that does not either. */
  lemma MessageNoNewline(content: string, lines: seq<string>)
    requires lines == ParseLines(content) && lines != [] && !Js.EndsWith(content, "\n")
    requires Message(content, JoinNewline(LockName.Rest(lines))) != ""
    ensures !Js.EndsWith(Message(content, JoinNewline(LockName.Rest(lines))), "\n")
  {
    LastNotBreak(content);
    SplitLinesLast(content);
    ParseLinesKeeps(content);
    MessageEnds(content, lines);
  }

  lemma LastNotBreak(content: string)
    requires content != "" && !Js.EndsWith(content, "\n")
    ensures content[|content| - 1] != '\n'
  {
    assert content[|content| - 1..] == [content[|content| - 1]];
  }

  lemma ReadCommitMessage(content: string)
    requires ReadCommit(content).Some?
    ensures ReadCommit(content).value.message
         == Message(content, JoinNewline(LockName.Rest(ParseLines(content))))
  {
  }

  /** A message whose last line is the non-empty last line of the text. */
  lemma MessageEnds(content: string, lines: seq<string>)
    requires lines != [] && lines[|lines| - 1] != "" && '\n' !in lines[|lines| - 1]
    requires Message(content, JoinNewline(LockName.Rest(lines))) != ""
    requires !Js.EndsWith(content, "\n")
    ensures !Js.EndsWith(Message(content, JoinNewline(LockName.Rest(lines))), "\n")
  {
    var rest := LockName.Rest(lines);
    assert JoinNewline([]) == "";
    assert rest[|rest| - 1] == lines[|lines| - 1];
    JoinNewlineLast(rest);
  }

  /** The message is given back verbatim for a commit object of a `tree` line, further
      header lines and an empty line, except that a message of one lone newline comes back
      empty. */
  lemma ReadCommitOf(treeId: string, header: seq<string>, m: string)
    requires ' ' !in treeId && PlainLine(treeId)
    requires forall i :: 0 <= i < |header| ==> PlainLine(header[i]) && header[i] != ""
    requires '\r' !in m
    ensures ReadCommit(JoinLines(["tree " + treeId] + header + [""]) + m)
         == Some(CommitText(treeId, if m == "\n" then "" else m))
  {
    var h := ["tree " + treeId] + header;
    HeaderLines(treeId, header);
    var s := SplitLines(m);
    SplitLinesLast(m);
    JoinNewlineSplit(m);
    var body := if s[|s| - 1] == "" then s[..|s| - 1] else s;
    ReadCommitParts(h, treeId, m, s, body);
    MessageOf(JoinLines(h + [""]) + m, m, s, body);
  }

  /** The header lines, the `tree` line first, are plain and not empty. */
  lemma HeaderLines(treeId: string, header: seq<string>)
    requires ' ' !in treeId && PlainLine(treeId)
    requires forall i :: 0 <= i < |header| ==> PlainLine(header[i]) && header[i] != ""
    ensures var h := ["tree " + treeId] + header;
      (forall i :: 0 <= i < |h + [""]| ==> PlainLine((h + [""])[i])) && (forall i :: 0 <= i < |h| ==> h[i] != "")
  {
    var h := ["tree " + treeId] + header;
    assert PlainLine("tree " + treeId) by {
      assert forall x :: x in "tree " + treeId ==> x in "tree " || x in treeId;
    }
    forall i | 0 <= i < |h + [""]|
      ensures PlainLine((h + [""])[i])
    {
      if 0 < i < |h| { assert (h + [""])[i] == header[i - 1]; }
    }
    forall i | 0 <= i < |h|
      ensures h[i] != ""
    {
      if i > 0 { assert h[i] == header[i - 1]; }
    }
  }

  /** The commit text as lines: the header, the empty line, the message's lines. */
  lemma ReadCommitParts(h: seq<string>, treeId: string, m: string, s: seq<string>, body: seq<string>)
    requires h != [] && h[0] == "tree " + treeId && ' ' !in treeId
    requires (forall i :: 0 <= i < |h + [""]| ==> PlainLine((h + [""])[i])) && (forall i :: 0 <= i < |h| ==> h[i] != "")
    requires s == SplitLines(m)
    requires body == if s[|s| - 1] == "" then s[..|s| - 1] else s
    ensures ReadCommit(JoinLines(h + [""]) + m)
         == Some(CommitText(treeId, Message(JoinLines(h + [""]) + m, JoinNewline(body))))
    ensures Js.EndsWith(JoinLines(h + [""]) + m, "\n") <==> Js.EndsWith(m, "\n") || m == ""
  {
    var content := JoinLines(h + [""]) + m;
    SplitLinesAppend(h + [""], m);
    ParseLinesOf(content, h + [""], s, body);
    LockName.RestOf(h, body);
    FirstLineOf(treeId);
    assert (h + [""] + body)[0] == h[0];
    ReadCommitLines(content, h + [""] + body, treeId, body);
    JoinLinesEnds(h + [""]);
    NewlineAppend(JoinLines(h + [""]), m);
  }

  lemma ParseLinesOf(content: string, h: seq<string>, s: seq<string>, body: seq<string>)
    requires SplitLines(content) == h + s && |s| >= 1
    requires body == if s[|s| - 1] == "" then s[..|s| - 1] else s
    ensures ParseLines(content) == h + body
  {
    var parts := h + s;
    assert parts[|parts| - 1] == s[|s| - 1];
    assert parts[..|parts| - 1] == h + s[..|s| - 1];
  }

  lemma ParseLinesKeeps(content: string)
    requires var parts := SplitLines(content); parts[|parts| - 1] != ""
    ensures ParseLines(content) == SplitLines(content)
  {
  }

  /** `ReadCommit` once the lines are known. */
  lemma ReadCommitLines(content: string, lines: seq<string>, treeId: string, body: seq<string>)
    requires ParseLines(content) == lines && lines != []
    requires Js.SplitOn(lines[0], ' ') == ["tree", treeId]
    requires LockName.Rest(lines) == body
    ensures ReadCommit(content) == Some(CommitText(treeId, Message(content, JoinNewline(body))))
  {
  }

  lemma NewlineAppend(p: string, m: string)
    requires Js.EndsWith(p, "\n")
    ensures Js.EndsWith(p + m, "\n") <==> Js.EndsWith(m, "\n") || m == ""
  {
    if m == "" {
      assert p + m == p;
    } else {
      assert (p + m)[|p + m| - 1..] == m[|m| - 1..];
    }
  }

  lemma FirstLineOf(treeId: string)
    requires ' ' !in treeId
    ensures Js.SplitOn("tree " + treeId, ' ') == ["tree", treeId]
  {
    assert "tree " + treeId == "tree" + [' '] + treeId;
    Js.SplitOnWord("tree", ' ', treeId);
    Js.SplitOnNone(treeId, ' ');
  }

  /** The message step of `ReadCommitOf`, on the lines split from `m` alone. */
  lemma MessageOf(content: string, m: string, s: seq<string>, body: seq<string>)
    requires |s| >= 1 && JoinNewline(s) == m
    requires s[|s| - 1] == "" <==> m == "" || m[|m| - 1] == '\n'
    requires '\n' in m ==> |s| > 1
    requires body == if s[|s| - 1] == "" then s[..|s| - 1] else s
    requires Js.EndsWith(content, "\n") <==> Js.EndsWith(m, "\n") || m == ""
    ensures Message(content, JoinNewline(body)) == if m == "\n" then "" else m
  {
    if m == "" {
      assert body == [];
    } else if m[|m| - 1] == '\n' {
      assert m[|m| - 1] in m;
      assert s[|s| - 1] == "" && body == s[..|s| - 1];
      MessageTrailing(content, m, s, body);
    } else {
      assert m[|m| - 1..] == [m[|m| - 1]];
    }
  }

  /** A message ending with a newline: the last split piece is the empty one dropped. */
  lemma MessageTrailing(content: string, m: string, s: seq<string>, body: seq<string>)
    requires |s| > 1 && JoinNewline(s) == m && m != ""
    requires s[|s| - 1] == "" && body == s[..|s| - 1]
    requires Js.EndsWith(content, "\n")
    ensures Message(content, JoinNewline(body)) == if m == "\n" then "" else m
  {
    assert s == body + [s[|s| - 1]];
    JoinNewlineSnoc(body, "");
    assert m == JoinNewline(body) + "\n";
  }

  /* ---------------------------------------------------------------------------------
     The commit map (lib/main.js:58-79)
     --------------------------------------------------------------------------------- */

  /** A commit's record: its lock hashes, child and parent ids, whether it had no lock
      when the run started, whether it is processed, the tagger time of its last loaded
      lock and the hash of the base lock held in memory (lock objects are known by their
      hash). */
  datatype Commit = Commit(
    lockHashes: seq<string>, childIds: seq<string>, parentIds: seq<string>,
    isNew: bool, traversed: bool, time: Option<int>, baseLock: Option<string>)

  /** The record a `--children` line creates. */
  function Fresh(childIds: seq<string>): Commit
  {
    Commit([], childIds, [], true, false, None, None)
  }

  /** The map after the `--children` listing: every line stores a fresh record under its
      id, so a later line for the same id replaces an earlier one. */
  function Listed(lines: seq<string>): map<string, Commit>
    decreases |lines|
  {
    if lines == [] then map[]
    else
      var last := lines[|lines| - 1];
      Listed(lines[..|lines| - 1])[Head(last) := Fresh(Others(last))]
  }

  /** Every listed id has a record and nothing else has one. */
  lemma {:induction false} ListedKeys(lines: seq<string>)
    ensures Listed(lines).Keys == set k | 0 <= k < |lines| :: Head(lines[k])
    decreases |lines|
  {
    if lines != [] {
      var init := lines[..|lines| - 1];
      ListedKeys(init);
      assert forall k :: 0 <= k < |init| ==> init[k] == lines[k];
    }
  }

  /** An id's record is the fresh record of the last line listing it. */
  lemma {:induction false} ListedAt(lines: seq<string>, k: nat)
    requires k < |lines|
    requires forall j :: k < j < |lines| ==> Head(lines[j]) != Head(lines[k])
    ensures Head(lines[k]) in Listed(lines) && Listed(lines)[Head(lines[k])] == Fresh(Others(lines[k]))
    decreases |lines|
  {
    if k < |lines| - 1 {
      var init := lines[..|lines| - 1];
      assert init[k] == lines[k];
      ListedAt(init, k);
    }
  }

  /** Lines 76-79: each `--parents` line sets `parentIDs` of its commit. `None` is the
      TypeError of an id missing from the map. */
  function WithParents(commits: map<string, Commit>, lines: seq<string>): Option<map<string, Commit>>
    decreases |lines|
  {
    if lines == [] then Some(commits)
    else
      var id := Head(lines[0]);
      if id !in commits then None
      else WithParents(commits[id := commits[id].(parentIds := Others(lines[0]))], lines[1..])
  }

  /** Setting parents fails exactly on an unknown id; otherwise it keeps the ids and
      changes nothing but `parentIDs`, and leaves commits no line names untouched. */
  lemma {:induction false} WithParentsKeeps(commits: map<string, Commit>, lines: seq<string>)
    ensures WithParents(commits, lines).Some? <==> forall k :: 0 <= k < |lines| ==> Head(lines[k]) in commits
    ensures WithParents(commits, lines).Some? ==>
      var r := WithParents(commits, lines).value;
      r.Keys == commits.Keys
      && (forall id :: id in commits ==> r[id].(parentIds := commits[id].parentIds) == commits[id])
      && (forall id :: id in commits && (forall k :: 0 <= k < |lines| ==> Head(lines[k]) != id) ==> r[id] == commits[id])
    decreases |lines|
  {
    if lines != [] {
      var id := Head(lines[0]);
      if id in commits {
        var next := commits[id := commits[id].(parentIds := Others(lines[0]))];
        WithParentsKeeps(next, lines[1..]);
        assert forall k :: 0 <= k < |lines[1..]| ==> lines[1..][k] == lines[k + 1];
      }
    }
  }

  /** The parents of an id are those of the last line naming it. */
  lemma {:induction false} WithParentsAt(commits: map<string, Commit>, lines: seq<string>, k: nat)
    requires WithParents(commits, lines).Some? && k < |lines|
    requires forall j :: k < j < |lines| ==> Head(lines[j]) != Head(lines[k])
    requires Head(lines[k]) in commits
    ensures Head(lines[k]) in WithParents(commits, lines).value
    ensures WithParents(commits, lines).value[Head(lines[k])].parentIds == Others(lines[k])
    decreases |lines|
  {
    var id := Head(lines[0]);
    var next := commits[id := commits[id].(parentIds := Others(lines[0]))];
    assert forall j :: 0 <= j < |lines[1..]| ==> lines[1..][j] == lines[j + 1];
    if k == 0 {
      WithParentsKeeps(next, lines[1..]);
    } else {
      WithParentsAt(next, lines[1..], k - 1);
    }
  }

  /* ---------------------------------------------------------------------------------
     Loading existing locks (lib/main.js:81-96)
     --------------------------------------------------------------------------------- */

  /** A lock `getAllLocks` reports: the commit it is on, its hash and its tagger time. */
  datatype ExistingLock = ExistingLock(commitId: string, hash: string, taggerTime: int)

  /** Lines 85-89: a lock on a commit of the map appends its hash, sets the time and marks
      the commit as not new; a lock on any other commit is ignored. */
  function Loaded(commits: map<string, Commit>, locks: seq<ExistingLock>): map<string, Commit>
    decreases |locks|
  {
    if locks == [] then commits
    else
      var l := locks[0];
      var next :=
        if l.commitId in commits then
          commits[l.commitId := commits[l.commitId].(
            lockHashes := commits[l.commitId].lockHashes + [l.hash], time := Some(l.taggerTime), isNew := false)]
        else commits;
      Loaded(next, locks[1..])
  }

  /** The hashes of the locks on `id`, in listing order. */
  function HashesOn(locks: seq<ExistingLock>, id: string): seq<string>
    decreases |locks|
  {
    if locks == [] then []
    else (if locks[0].commitId == id then [locks[0].hash] else []) + HashesOn(locks[1..], id)
  }

  /** Loading keeps the ids, appends to each commit exactly the hashes of its locks in
      order, and a commit stays new exactly when it has none; parents, children and the
      traversal flag are untouched. */
  lemma {:induction false} LoadedHashes(commits: map<string, Commit>, locks: seq<ExistingLock>, id: string)
    requires id in commits
    ensures Loaded(commits, locks).Keys == commits.Keys
    ensures Loaded(commits, locks)[id].lockHashes == commits[id].lockHashes + HashesOn(locks, id)
    ensures Loaded(commits, locks)[id].isNew == (commits[id].isNew && HashesOn(locks, id) == [])
    ensures Loaded(commits, locks)[id].(lockHashes := commits[id].lockHashes, isNew := commits[id].isNew,
                                        time := commits[id].time) == commits[id]
    decreases |locks|
  {
    if locks != [] {
      var l := locks[0];
      var next :=
        if l.commitId in commits then
          commits[l.commitId := commits[l.commitId].(
            lockHashes := commits[l.commitId].lockHashes + [l.hash], time := Some(l.taggerTime), isNew := false)]
        else commits;
      LoadedHashes(next, locks[1..], id);
    }
  }

  /** Lines 91-94: the tagger time moves to a lock's time only when that is later by a
      positive even number of seconds. */
  function TaggerTime(t: int, locks: seq<ExistingLock>): int
    decreases |locks|
  {
    if locks == [] then t
    else
      var span := locks[0].taggerTime - t;
      TaggerTime(if span > 0 && span % 2 == 0 then locks[0].taggerTime else t, locks[1..])
  }

  /** The tagger time never goes back, stays an even number of seconds from where it
      started, and is either unchanged or the time of one of the locks. */
  lemma {:induction false} TaggerTimeRule(t: int, locks: seq<ExistingLock>)
    ensures TaggerTime(t, locks) >= t && (TaggerTime(t, locks) - t) % 2 == 0
    ensures TaggerTime(t, locks) == t || exists k :: 0 <= k < |locks| && TaggerTime(t, locks) == locks[k].taggerTime
    decreases |locks|
  {
    if locks != [] {
      var span := locks[0].taggerTime - t;
      var t' := if span > 0 && span % 2 == 0 then locks[0].taggerTime else t;
      TaggerTimeRule(t', locks[1..]);
      var r := TaggerTime(t', locks[1..]);
      assert r - t == (r - t') + (t' - t);
      if r != t' {
        var k :| 0 <= k < |locks[1..]| && r == locks[1..][k].taggerTime;
        assert r == locks[k + 1].taggerTime;
      }
    }
  }

  /* ---------------------------------------------------------------------------------
     Processing a commit (lib/main.js:98-185)
     --------------------------------------------------------------------------------- */

  /** What `new $lock.BaseLock(obj)` is given. `None` in `parentHashes` is the
      `undefined` of a parent without a lock. */
  datatype BaseLockInput = BaseLockInput(parentHashes: seq<Option<string>>, commitId: string, commitMessage: string)

  /** A `$lock.add(name, storedContent, commitId, taggerTime)` call; the stored content
      belongs to the lock object and is not modelled. */
  datatype TagWrite = TagWrite(name: string, commitId: string, taggerTime: int)

  /** The name of a base lock. */
  function BaseName(hash: string): string
  {
    "gitlock-000-" + hash
  }

  /** `lockHashes[0]`. */
  function FirstHash(c: Commit): Option<string>
  {
    if c.lockHashes == [] then None else Some(c.lockHashes[0])
  }

  /** What `+` makes of the hash in a lock name: `undefined` becomes the text. */
  function NameText(h: Option<string>): string
  {
    match h
    case Some(s) => s
    case None => "undefined"
  }

  /** Line 133: `parentIDs.map(id => commits[id].lockHashes[0])`. `None` is the TypeError
      of a parent missing from the map. */
  function ParentHashes(commits: map<string, Commit>, parents: seq<string>): (r: Option<seq<Option<string>>>)
    ensures r.Some? <==> forall i :: 0 <= i < |parents| ==> parents[i] in commits
    ensures r.Some? ==> (|r.value| == |parents|
      && forall i :: 0 <= i < |parents| ==> r.value[i] == FirstHash(commits[parents[i]]))
  {
    if parents == [] then Some([])
    else if parents[0] !in commits then None
    else
      match ParentHashes(commits, parents[1..])
      case None => None
      case Some(rest) => Some([FirstHash(commits[parents[0]])] + rest)
  }

  /** The input of a new commit's base lock: `None` when the commit text cannot be read or
      a parent is missing. */
  function BaseInput(commits: map<string, Commit>, commitId: string, content: string): Option<BaseLockInput>
    requires commitId in commits
  {
    match ReadCommit(content)
    case None => None
    case Some(text) =>
      match ParentHashes(commits, commits[commitId].parentIds)
      case None => None
      case Some(hashes) => Some(BaseLockInput(hashes, commitId, text.message))
  }

  /** Lines 138-148: the commit gets the new hash and holds the new lock; its first
      parent, if it holds no base lock, is given the one named after its first hash. */
  function WithBase(commits: map<string, Commit>, commitId: string, hash: string): (r: map<string, Commit>)
    requires commitId in commits
    ensures r.Keys == commits.Keys
  {
    var c := commits[commitId];
    var m := commits[commitId := c.(lockHashes := c.lockHashes + [hash], baseLock := Some(hash))];
    if c.parentIds != [] && c.parentIds[0] in m && m[c.parentIds[0]].baseLock.None? then
      var p := m[c.parentIds[0]];
      m[c.parentIds[0] := p.(baseLock := Some(NameText(FirstHash(p))))]
    else m
  }

  /** Adding a base lock appends exactly one hash to the commit, touches no other
      commit's hashes, and gives the first parent a base lock while changing nothing else
      about it; every other commit is unchanged. */
  lemma WithBaseShape(commits: map<string, Commit>, commitId: string, hash: string)
    requires commitId in commits
    requires commits[commitId].parentIds != [] ==> commits[commitId].parentIds[0] != commitId
    ensures var r := WithBase(commits, commitId, hash); var c := commits[commitId];
      r.Keys == commits.Keys
      && r[commitId] == c.(lockHashes := c.lockHashes + [hash], baseLock := Some(hash))
      && (forall id :: id in commits && id != commitId ==> r[id].(baseLock := commits[id].baseLock) == commits[id])
      && (forall id :: id in commits && id != commitId && r[id] != commits[id] ==>
            c.parentIds != [] && id == c.parentIds[0] && commits[id].baseLock.None?)
      && (c.parentIds != [] && c.parentIds[0] in commits ==>
            r[c.parentIds[0]].baseLock
              == if commits[c.parentIds[0]].baseLock.Some? then commits[c.parentIds[0]].baseLock
                 else Some(NameText(FirstHash(commits[c.parentIds[0]]))))
  {
  }

  /** Adding a base lock keeps what `Evolves` keeps, and only the commit's own hashes
      grow. */
  lemma WithBaseEvolves(commits: map<string, Commit>, commitId: string, hash: string)
    requires commitId in commits
    requires commits[commitId].parentIds != [] ==> commits[commitId].parentIds[0] != commitId
    ensures Evolves(commits, WithBase(commits, commitId, hash))
    ensures WithBase(commits, commitId, hash)[commitId].lockHashes == commits[commitId].lockHashes + [hash]
    ensures forall id :: id in commits && id != commitId ==>
      WithBase(commits, commitId, hash)[id].lockHashes == commits[id].lockHashes
  {
    WithBaseShape(commits, commitId, hash);
    var r := WithBase(commits, commitId, hash);
    forall id | id in commits && id != commitId
      ensures r[id].lockHashes == commits[id].lockHashes
    {
      assert r[id].(baseLock := commits[id].baseLock) == commits[id];
    }
  }

  /** `commit.childIDs.every(m => commits[m].traversed)`, stopping at the first child
      that is not traversed; `None` is the TypeError of a child missing from the map. */
  function EveryTraversed(commits: map<string, Commit>, kids: seq<string>): Option<bool>
    decreases |kids|
  {
    if kids == [] then Some(true)
    else if kids[0] !in commits then None
    else if !commits[kids[0]].traversed then Some(false)
    else EveryTraversed(commits, kids[1..])
  }

  /** Lines 165-172: each parent holding a base lock whose children are all traversed
      drops it, and its name leaves `locksCache`. `None` is a TypeError. */
  function Released(commits: map<string, Commit>, cache: map<string, string>, parents: seq<string>)
    : Option<(map<string, Commit>, map<string, string>)>
    decreases |parents|
  {
    if parents == [] then Some((commits, cache))
    else if parents[0] !in commits then None
    else
      var c := commits[parents[0]];
      if c.baseLock.None? then Released(commits, cache, parents[1..])
      else
        match EveryTraversed(commits, c.childIds)
        case None => None
        case Some(false) => Released(commits, cache, parents[1..])
        case Some(true) =>
          Released(commits[parents[0] := c.(baseLock := None)], cache - {BaseName(c.baseLock.value)}, parents[1..])
  }

  /** Changing base locks does not change which children are traversed. */
  lemma {:induction false} EveryTraversedFrame(a: map<string, Commit>, b: map<string, Commit>, kids: seq<string>)
    requires a.Keys == b.Keys
    requires forall id :: id in a ==> a[id].traversed == b[id].traversed
    ensures EveryTraversed(a, kids) == EveryTraversed(b, kids)
    decreases |kids|
  {
    if kids != [] {
      EveryTraversedFrame(a, b, kids[1..]);
    }
  }

  /** Releasing changes nothing but base locks, only of the listed parents, and only
      removes entries from the cache. */
  lemma {:induction false} ReleasedKeeps(commits: map<string, Commit>, cache: map<string, string>, parents: seq<string>)
    requires Released(commits, cache, parents).Some?
    ensures var (m, c) := Released(commits, cache, parents).value;
      m.Keys == commits.Keys
      && (forall id :: id in commits ==> m[id].(baseLock := commits[id].baseLock) == commits[id])
      && (forall id :: id in commits && m[id] != commits[id] ==>
            id in parents && m[id].baseLock.None? && Releasable(commits, id))
      && (forall k :: k in c ==> k in cache && c[k] == cache[k])
      && (forall k :: k in cache && k !in c ==> ReleasedName(commits, parents, k))
    decreases |parents|
  {
    if parents != [] {
      var c := commits[parents[0]];
      if c.baseLock.None? || EveryTraversed(commits, c.childIds) == Some(false) {
        ReleasedKeeps(commits, cache, parents[1..]);
        ReleasedNameTail(commits, commits, parents);
      } else {
        var next := commits[parents[0] := c.(baseLock := None)];
        ReleasedKeeps(next, cache - {BaseName(c.baseLock.value)}, parents[1..]);
        ReleasedNameTail(commits, next, parents);
        assert Releasable(commits, parents[0]);
        var m := Released(next, cache - {BaseName(c.baseLock.value)}, parents[1..]).value.0;
        forall id | id in commits && id != parents[0] && m[id] != next[id]
          ensures Releasable(commits, id)
        {
          EveryTraversedFrame(commits, next, commits[id].childIds);
        }
      }
    }
  }

  /** Line 166: a parent that drops its base lock, one that holds one and whose children
      are all traversed. */
  predicate Releasable(commits: map<string, Commit>, p: string)
  {
    p in commits && commits[p].baseLock.Some? && EveryTraversed(commits, commits[p].childIds) == Some(true)
  }

  /** `k` is the name of the base lock of a listed parent that drops it. */
  predicate ReleasedName(commits: map<string, Commit>, parents: seq<string>, k: string)
  {
    exists i :: 0 <= i < |parents| && Releasable(commits, parents[i])
      && k == BaseName(commits[parents[i]].baseLock.value)
  }

  /** A name released by the later parents, in a map where the first parent at most
      dropped its base lock, is released by the listed parents in the original map. */
  lemma ReleasedNameTail(commits: map<string, Commit>, next: map<string, Commit>, parents: seq<string>)
    requires parents != [] && parents[0] in commits
    requires next == commits || next == commits[parents[0] := commits[parents[0]].(baseLock := None)]
    ensures forall k :: ReleasedName(next, parents[1..], k) ==> ReleasedName(commits, parents, k)
  {
    forall k | ReleasedName(next, parents[1..], k)
      ensures ReleasedName(commits, parents, k)
    {
      var i :| 0 <= i < |parents[1..]| && Releasable(next, parents[1..][i])
        && k == BaseName(next[parents[1..][i]].baseLock.value);
      var p := parents[i + 1];
      assert next[p] == commits[p];
      EveryTraversedFrame(commits, next, commits[p].childIds);
      assert Releasable(commits, parents[i + 1]);
    }
  }

  /** After releasing, no listed parent whose children are all traversed holds a base
      lock, and a released lock's name is gone from the cache. */
  lemma {:induction false} ReleasedDrops(commits: map<string, Commit>, cache: map<string, string>, parents: seq<string>, p: string)
    requires Released(commits, cache, parents).Some?
    requires p in parents && p in commits && EveryTraversed(commits, commits[p].childIds) == Some(true)
    ensures p in Released(commits, cache, parents).value.0
    ensures Released(commits, cache, parents).value.0[p].baseLock.None?
    ensures commits[p].baseLock.Some? ==> BaseName(commits[p].baseLock.value) !in Released(commits, cache, parents).value.1
    decreases |parents|
  {
    var c := commits[parents[0]];
    var next := if c.baseLock.None? || EveryTraversed(commits, c.childIds) == Some(false) then commits
      else commits[parents[0] := c.(baseLock := None)];
    var nextCache := if c.baseLock.None? || EveryTraversed(commits, c.childIds) == Some(false) then cache
      else cache - {BaseName(c.baseLock.value)};
    assert Released(commits, cache, parents) == Released(next, nextCache, parents[1..]);
    ReleasedKeeps(next, nextCache, parents[1..]);
    if p == parents[0] {
    } else {
      assert p in parents[1..];
      EveryTraversedFrame(commits, next, commits[p].childIds);
      ReleasedDrops(next, nextCache, parents[1..], p);
    }
  }

  /* ---------------------------------------------------------------------------------
     One commit and the whole walk, on values
     --------------------------------------------------------------------------------- */

  /** The variables `addLocks` updates as it walks: the commit map, the base locks in
      memory by name, the processed count, the tagger time and the tags written. */
  datatype RunState = RunState(
    commits: map<string, Commit>, locksCache: map<string, string>,
    finishedCount: nat, taggerTime: int, written: seq<TagWrite>)

  /** Lines 180-184: an old commit passes; a new one needs every child known and new. */
  predicate ChildrenOk(commits: map<string, Commit>, commitId: string)
    requires commitId in commits
  {
    var kids := commits[commitId].childIds;
    !commits[commitId].isNew || forall i :: 0 <= i < |kids| ==> kids[i] in commits && commits[kids[i]].isNew
  }

  /** Lines 100-157: a new commit gets its base lock, one tag written two seconds on; an
      old commit changes nothing. `None` is a thrown error. */
  function Added(s: RunState, commitId: string, content: string, hashOf: BaseLockInput -> string): (r: Option<RunState>)
    requires commitId in s.commits
    ensures r.Some? ==> r.value.commits.Keys == s.commits.Keys
  {
    if !s.commits[commitId].isNew then Some(s)
    else
      match BaseInput(s.commits, commitId, content)
      case None => None
      case Some(input) =>
        var h := hashOf(input);
        Some(s.(commits := WithBase(s.commits, commitId, h), locksCache := s.locksCache[BaseName(h) := h],
                taggerTime := s.taggerTime + 2,
                written := s.written + [TagWrite(BaseName(h), commitId, s.taggerTime + 2)]))
  }

  /** The state after a new commit gets its base lock, field by field. */
  lemma AddedNew(s: RunState, commitId: string, content: string, hashOf: BaseLockInput -> string)
    requires commitId in s.commits && s.commits[commitId].isNew
    requires BaseInput(s.commits, commitId, content).Some?
    ensures var h := hashOf(BaseInput(s.commits, commitId, content).value);
      Added(s, commitId, content, hashOf)
        == Some(RunState(WithBase(s.commits, commitId, h), s.locksCache[BaseName(h) := h], s.finishedCount,
                         s.taggerTime + 2, s.written + [TagWrite(BaseName(h), commitId, s.taggerTime + 2)]))
  {
  }

  /** Lines 160-184: the commit is marked traversed and counted, its parents release
      what they can, and its children are checked (marking and releasing change neither
      `isNew` nor child lists, so the check reads the same on the map before them). */
  function Finished(s: RunState, commitId: string): (r: Option<RunState>)
    requires commitId in s.commits
  {
    var c := s.commits[commitId];
    match Released(s.commits[commitId := c.(traversed := true)], s.locksCache, c.parentIds)
    case None => None
    case Some(released) =>
      if ChildrenOk(s.commits, commitId) then
        Some(RunState(released.0, released.1, s.finishedCount + 1, s.taggerTime, s.written))
      else None
  }

  /** Finishing a commit marks it traversed, counts it, keeps what `Evolves` keeps and
      changes no lock hashes, the tagger time or the tags written. */
  lemma FinishedKeeps(s: RunState, commitId: string)
    requires commitId in s.commits && Finished(s, commitId).Some?
    ensures var r := Finished(s, commitId).value;
      Evolves(s.commits, r.commits) && HashesKept(s.commits, r.commits)
      && r.commits[commitId].traversed && r.finishedCount == s.finishedCount + 1
      && r.taggerTime == s.taggerTime && r.written == s.written
  {
    MarkReleaseKeeps(s.commits, s.locksCache, commitId);
  }

  /** Marking a commit traversed and releasing its parents' base locks keeps what
      `Evolves` keeps and changes no lock hashes. */
  lemma MarkReleaseKeeps(commits: map<string, Commit>, cache: map<string, string>, commitId: string)
    requires commitId in commits
    requires Released(commits[commitId := commits[commitId].(traversed := true)], cache, commits[commitId].parentIds).Some?
    ensures var m := Released(commits[commitId := commits[commitId].(traversed := true)], cache, commits[commitId].parentIds).value.0;
      Evolves(commits, m) && HashesKept(commits, m) && m[commitId].traversed
  {
    var c := commits[commitId];
    var marked := commits[commitId := c.(traversed := true)];
    ReleasedKeeps(marked, cache, c.parentIds);
    var m := Released(marked, cache, c.parentIds).value.0;
    forall id | id in commits
      ensures m[id].isNew == commits[id].isNew && m[id].childIds == commits[id].childIds
      ensures m[id].parentIds == commits[id].parentIds && m[id].lockHashes == commits[id].lockHashes
      ensures commits[id].traversed ==> m[id].traversed
    {
      assert m[id].(baseLock := marked[id].baseLock) == marked[id];
    }
    assert m[commitId].(baseLock := marked[commitId].baseLock) == marked[commitId];
  }

  /** Lines 98-185: `processCommit` on the state `s`. */
  function Processed(s: RunState, commitId: string, content: string, hashOf: BaseLockInput -> string): Option<RunState>
    requires commitId in s.commits
  {
    match Added(s, commitId, content, hashOf)
    case None => None
    case Some(added) => Finished(added, commitId)
  }

  /** Processing a commit marks it traversed and counts it; a new commit gets the new
      base lock's hash appended and one tag written two seconds on, while no other lock
      hashes change; an old commit changes no hashes, time or tags. */
  lemma ProcessedHashes(s: RunState, commitId: string, content: string, hashOf: BaseLockInput -> string)
    requires commitId in s.commits
    requires s.commits[commitId].parentIds != [] ==> s.commits[commitId].parentIds[0] != commitId
    requires Processed(s, commitId, content, hashOf).Some?
    ensures var r := Processed(s, commitId, content, hashOf).value;
      Evolves(s.commits, r.commits) && r.commits[commitId].traversed
      && r.finishedCount == s.finishedCount + 1
      && (s.commits[commitId].isNew ==> BaseInput(s.commits, commitId, content).Some?)
      && (forall id :: id in s.commits ==>
           r.commits[id].lockHashes
             == s.commits[id].lockHashes
                + if id == commitId && s.commits[id].isNew
                  then [hashOf(BaseInput(s.commits, commitId, content).value)] else [])
      && (!s.commits[commitId].isNew ==> r.taggerTime == s.taggerTime && r.written == s.written)
      && (s.commits[commitId].isNew ==>
           var h := hashOf(BaseInput(s.commits, commitId, content).value);
           r.taggerTime == s.taggerTime + 2
           && r.written == s.written + [TagWrite(BaseName(h), commitId, s.taggerTime + 2)])
  {
    if s.commits[commitId].isNew {
      ProcessedNew(s, commitId, content, hashOf);
    } else {
      ProcessedOld(s, commitId, content, hashOf);
    }
  }

  lemma ProcessedNew(s: RunState, commitId: string, content: string, hashOf: BaseLockInput -> string)
    requires commitId in s.commits && s.commits[commitId].isNew
    requires s.commits[commitId].parentIds != [] ==> s.commits[commitId].parentIds[0] != commitId
    requires Processed(s, commitId, content, hashOf).Some?
    ensures BaseInput(s.commits, commitId, content).Some?
    ensures var r := Processed(s, commitId, content, hashOf).value;
      var h := hashOf(BaseInput(s.commits, commitId, content).value);
      Evolves(s.commits, r.commits) && r.commits[commitId].traversed
      && r.finishedCount == s.finishedCount + 1
      && r.commits[commitId].lockHashes == s.commits[commitId].lockHashes + [h]
      && (forall id :: id in s.commits && id != commitId ==> r.commits[id].lockHashes == s.commits[id].lockHashes)
      && r.taggerTime == s.taggerTime + 2
      && r.written == s.written + [TagWrite(BaseName(h), commitId, s.taggerTime + 2)]
  {
    var h := hashOf(BaseInput(s.commits, commitId, content).value);
    AddedNew(s, commitId, content, hashOf);
    var added := Added(s, commitId, content, hashOf).value;
    FinishedKeeps(added, commitId);
    WithBaseEvolves(s.commits, commitId, h);
    EvolvesTrans(s.commits, added.commits, Finished(added, commitId).value.commits);
  }

  lemma ProcessedOld(s: RunState, commitId: string, content: string, hashOf: BaseLockInput -> string)
    requires commitId in s.commits && !s.commits[commitId].isNew
    requires Processed(s, commitId, content, hashOf).Some?
    ensures var r := Processed(s, commitId, content, hashOf).value;
      Evolves(s.commits, r.commits) && r.commits[commitId].traversed
      && r.finishedCount == s.finishedCount + 1 && HashesKept(s.commits, r.commits)
      && r.taggerTime == s.taggerTime && r.written == s.written
  {
    FinishedKeeps(s, commitId);
  }

  /** How many times `x` is listed in `ids`. */
  function Count(ids: seq<string>, x: string): nat
    decreases |ids|
  {
    if ids == [] then 0
    else Count(ids[..|ids| - 1], x) + if ids[|ids| - 1] == x then 1 else 0
  }

  /** From `start` to `now`, every commit kept its lock hashes and, if it had no lock at
      the start, gained one more for each time it is listed in `ids`. */
  predicate HashesGrown(start: map<string, Commit>, now: map<string, Commit>, ids: seq<string>)
  {
    forall id :: id in start ==>
      id in now && start[id].lockHashes <= now[id].lockHashes
      && |now[id].lockHashes| == |start[id].lockHashes| + if start[id].isNew then Count(ids, id) else 0
  }

  /** One more processed commit keeps `HashesGrown` over one more listed id. */
  lemma HashesGrownStep(start: map<string, Commit>, before: RunState, ids: seq<string>, i: nat,
                        contentOf: string -> string, hashOf: BaseLockInput -> string)
    requires i < |ids| && ids[i] in before.commits
    requires before.commits[ids[i]].parentIds != [] ==> before.commits[ids[i]].parentIds[0] != ids[i]
    requires Evolves(start, before.commits) && HashesGrown(start, before.commits, ids[..i])
    requires Processed(before, ids[i], contentOf(ids[i]), hashOf).Some?
    ensures HashesGrown(start, Processed(before, ids[i], contentOf(ids[i]), hashOf).value.commits, ids[..i + 1])
  {
    ProcessedHashes(before, ids[i], contentOf(ids[i]), hashOf);
    TakeOneMore(ids, i);
    assert ids[..i + 1][..|ids[..i + 1]| - 1] == ids[..i];
    var after := Processed(before, ids[i], contentOf(ids[i]), hashOf).value.commits;
    forall id | id in start
      ensures id in after && start[id].lockHashes <= after[id].lockHashes
      ensures |after[id].lockHashes| == |start[id].lockHashes| + if start[id].isNew then Count(ids[..i + 1], id) else 0
    {
      assert id in before.commits;
    }
  }

  /** Lines 190-197: `processCommit` on each listed id in turn, from the state `s`;
      `None` when one of them throws (also for an id missing from the map). */
  function RunFrom(s: RunState, ids: seq<string>, contentOf: string -> string, hashOf: BaseLockInput -> string)
    : Option<RunState>
    decreases |ids|
  {
    if ids == [] then Some(s)
    else if ids[0] !in s.commits then None
    else
      match Processed(s, ids[0], contentOf(ids[0]), hashOf)
      case None => None
      case Some(next) => RunFrom(next, ids[1..], contentOf, hashOf)
  }

  /** The walk from the `i`th id: the `i`th commit, then the walk from the next. */
  lemma RunFromAt(s: RunState, ids: seq<string>, i: nat, contentOf: string -> string, hashOf: BaseLockInput -> string)
    requires i < |ids| && ids[i] in s.commits
    ensures RunFrom(s, ids[i..], contentOf, hashOf)
         == match Processed(s, ids[i], contentOf(ids[i]), hashOf)
            case None => None
            case Some(next) => RunFrom(next, ids[i + 1..], contentOf, hashOf)
  {
    assert ids[i..][0] == ids[i] && ids[i..][1..] == ids[i + 1..];
  }

  /* ---------------------------------------------------------------------------------
     The state of one `addLocks` run
     --------------------------------------------------------------------------------- */

  /** The variables `addLocks` keeps: the commit map, the ids in listing order, the base
      locks in memory by name, the processed count, the tagger time and the tags written. */
  class LockRun {
    var commits: map<string, Commit>
    var commitIds: seq<string>
    var locksCache: map<string, string>
    var finishedCount: nat
    var taggerTime: int
    var written: seq<TagWrite>

    /** The variables the walk updates, as a value. */
    function State(): RunState
      reads this
    {
      RunState(commits, locksCache, finishedCount, taggerTime, written)
    }

    /** Lines 58-73: one fresh record per `--children` line, ids kept in line order. */
    constructor (childListing: seq<string>)
      ensures commits == Listed(childListing)
      ensures |commitIds| == |childListing|
      ensures forall k :: 0 <= k < |childListing| ==> commitIds[k] == Head(childListing[k])
      ensures locksCache == map[] && finishedCount == 0 && taggerTime == 0 && written == []
    {
      commits := map[];
      commitIds := [];
      locksCache := map[];
      finishedCount := 0;
      taggerTime := 0;
      written := [];
      new;
      var i := 0;
      while i < |childListing|
        invariant 0 <= i <= |childListing|
        invariant commits == Listed(childListing[..i])
        invariant |commitIds| == i
        invariant forall k :: 0 <= k < i ==> commitIds[k] == Head(childListing[k])
        invariant locksCache == map[] && finishedCount == 0 && taggerTime == 0 && written == []
      {
        var parts := Js.SplitOn(childListing[i], ' ');
        commits := commits[parts[0] := Fresh(parts[1..])];
        commitIds := commitIds + [parts[0]];
        assert childListing[..i + 1][..i] == childListing[..i];
        i := i + 1;
      }
      assert childListing[..i] == childListing;
    }

    /** Lines 76-79. `ok` is false for the TypeError of an id not in the map; the run
        stops there. */
    method SetParents(parentListing: seq<string>) returns (ok: bool)
      modifies this
      ensures ok <==> WithParents(old(commits), parentListing).Some?
      ensures ok ==> commits == WithParents(old(commits), parentListing).value
      ensures commitIds == old(commitIds) && locksCache == old(locksCache) && finishedCount == old(finishedCount)
      ensures taggerTime == old(taggerTime) && written == old(written)
    {
      var i := 0;
      while i < |parentListing|
        invariant 0 <= i <= |parentListing|
        invariant WithParents(old(commits), parentListing) == WithParents(commits, parentListing[i..])
        invariant commitIds == old(commitIds) && locksCache == old(locksCache) && finishedCount == old(finishedCount)
        invariant taggerTime == old(taggerTime) && written == old(written)
      {
        var parts := Js.SplitOn(parentListing[i], ' ');
        if parts[0] !in commits {
          return false;
        }
        commits := commits[parts[0] := commits[parts[0]].(parentIds := parts[1..])];
        assert parentListing[i..][1..] == parentListing[i + 1..];
        i := i + 1;
      }
      ok := true;
    }

    /** Lines 81-96. */
    method LoadAllLocks(locks: seq<ExistingLock>)
      modifies this
      ensures commits == Loaded(old(commits), locks)
      ensures taggerTime == TaggerTime(old(taggerTime), locks)
      ensures commitIds == old(commitIds) && locksCache == old(locksCache) && finishedCount == old(finishedCount)
      ensures written == old(written)
    {
      var i := 0;
      while i < |locks|
        invariant 0 <= i <= |locks|
        invariant Loaded(old(commits), locks) == Loaded(commits, locks[i..])
        invariant TaggerTime(old(taggerTime), locks) == TaggerTime(taggerTime, locks[i..])
        invariant commitIds == old(commitIds) && locksCache == old(locksCache) && finishedCount == old(finishedCount)
        invariant written == old(written)
      {
        var lock := locks[i];
        if lock.commitId in commits {
          var c := commits[lock.commitId];
          commits := commits[lock.commitId := c.(lockHashes := c.lockHashes + [lock.hash], time := Some(lock.taggerTime), isNew := false)];
        }
        var timespan := lock.taggerTime - taggerTime;
        if timespan > 0 && timespan % 2 == 0 {
          taggerTime := lock.taggerTime;
        }
        assert locks[i..][1..] == locks[i + 1..];
        i := i + 1;
      }
    }

    /** Lines 100-157 for a new commit: read the commit, make the base lock from the
        parents' first hashes, hold it, load the first parent's base lock when needed and
        report it as the diff base, cache the new lock, move the tagger time on by 2
        seconds and write the tag. `ok` is false for the failures of the reads. */
    method AddBaseLock(commitId: string, content: string, hashOf: BaseLockInput -> string)
      returns (ok: bool, diffBase: Option<string>)
      requires commitId in commits
      modifies this
      ensures ok <==> BaseInput(old(commits), commitId, content).Some?
      ensures !ok ==> (commits == old(commits) && locksCache == old(locksCache)
        && taggerTime == old(taggerTime) && written == old(written))
      ensures ok ==>
        var h := hashOf(BaseInput(old(commits), commitId, content).value);
        commits == WithBase(old(commits), commitId, h)
        && locksCache == old(locksCache)[BaseName(h) := h]
        && taggerTime == old(taggerTime) + 2
        && written == old(written) + [TagWrite(BaseName(h), commitId, old(taggerTime) + 2)]
        && diffBase == (if old(commits)[commitId].parentIds == [] then None
                        else commits[old(commits)[commitId].parentIds[0]].baseLock)
      ensures commitIds == old(commitIds) && finishedCount == old(finishedCount)
    {
      diffBase := None;
      var c := commits[commitId];
      var text := ReadCommit(content);
      if text.None? {
        return false, None;
      }
      var hashes := ParentHashes(commits, c.parentIds);
      if hashes.None? {
        return false, None;
      }
      var h := hashOf(BaseLockInput(hashes.value, commitId, text.value.message));
      diffBase := HoldBaseLock(commitId, h);
      ok := true;
    }

    /** Lines 137-157 once the lock's hash is known. */
    method HoldBaseLock(commitId: string, h: string) returns (diffBase: Option<string>)
      requires commitId in commits
      requires commits[commitId].parentIds != [] ==> commits[commitId].parentIds[0] in commits
      modifies this
      ensures commits == WithBase(old(commits), commitId, h)
      ensures locksCache == old(locksCache)[BaseName(h) := h]
      ensures taggerTime == old(taggerTime) + 2
      ensures written == old(written) + [TagWrite(BaseName(h), commitId, old(taggerTime) + 2)]
      ensures diffBase == if old(commits)[commitId].parentIds == [] then None
                          else commits[old(commits)[commitId].parentIds[0]].baseLock
      ensures commitIds == old(commitIds) && finishedCount == old(finishedCount)
    {
      diffBase := None;
      var c := commits[commitId];
      commits := commits[commitId := c.(lockHashes := c.lockHashes + [h], baseLock := Some(h))];
      if c.parentIds != [] {
        var parentId := c.parentIds[0];
        var parent := commits[parentId];
        if parent.baseLock.None? {
          parent := parent.(baseLock := Some(NameText(FirstHash(parent))));
          commits := commits[parentId := parent];
        }
        diffBase := parent.baseLock;
      }
      locksCache := locksCache[BaseName(h) := h];
      taggerTime := taggerTime + 2;
      written := written + [TagWrite(BaseName(h), commitId, taggerTime)];
    }

    /** Lines 165-172. `ok` is false for a TypeError. */
    method Release(commitId: string) returns (ok: bool)
      requires commitId in commits
      modifies this
      ensures ok <==> Released(old(commits), old(locksCache), old(commits)[commitId].parentIds).Some?
      ensures ok ==> (commits, locksCache) == Released(old(commits), old(locksCache), old(commits)[commitId].parentIds).value
      ensures commitIds == old(commitIds) && finishedCount == old(finishedCount)
      ensures taggerTime == old(taggerTime) && written == old(written)
    {
      var parents := commits[commitId].parentIds;
      var i := 0;
      while i < |parents|
        invariant 0 <= i <= |parents|
        invariant Released(old(commits), old(locksCache), parents) == Released(commits, locksCache, parents[i..])
        invariant commitIds == old(commitIds) && finishedCount == old(finishedCount)
        invariant taggerTime == old(taggerTime) && written == old(written)
      {
        var parentId := parents[i];
        if parentId !in commits {
          return false;
        }
        var parent := commits[parentId];
        if parent.baseLock.Some? {
          var every := AllTraversed(parent.childIds);
          if every.None? {
            return false;
          }
          if every.value {
            locksCache := locksCache - {BaseName(parent.baseLock.value)};
            commits := commits[parentId := parent.(baseLock := None)];
          }
        }
        assert parents[i..][1..] == parents[i + 1..];
        i := i + 1;
      }
      ok := true;
    }

    /** `childIDs.every(m => commits[m].traversed)`. */
    method AllTraversed(kids: seq<string>) returns (r: Option<bool>)
      ensures r == EveryTraversed(commits, kids)
    {
      var i := 0;
      while i < |kids|
        invariant 0 <= i <= |kids|
        invariant EveryTraversed(commits, kids) == EveryTraversed(commits, kids[i..])
      {
        if kids[i] !in commits {
          return None;
        }
        if !commits[kids[i]].traversed {
          return Some(false);
        }
        assert kids[i..][1..] == kids[i + 1..];
        i := i + 1;
      }
      return Some(true);
    }

    /** Lines 180-184: a new commit must have no child that already has a lock. `ok` is
        false for the "Old lock already exists after a new lock." error and for the
        TypeError of a child missing from the map. */
    method CheckChildren(commitId: string) returns (ok: bool)
      requires commitId in commits
      ensures ok <==> ChildrenOk(commits, commitId)
    {
      var commit := commits[commitId];
      var i := 0;
      while i < |commit.childIds|
        invariant 0 <= i <= |commit.childIds|
        invariant commit.isNew ==> forall j :: 0 <= j < i ==>
          commit.childIds[j] in commits && commits[commit.childIds[j]].isNew
      {
        var child := commit.childIds[i];
        if commit.isNew && (child !in commits || !commits[child].isNew) {
          return false;
        }
        i := i + 1;
      }
      ok := true;
    }

    /** Lines 160-184: mark the commit traversed, count it, release its parents' base
        locks and check its children. */
    method Finish(commitId: string) returns (ok: bool)
      requires commitId in commits
      modifies this
      ensures ok <==> Finished(old(State()), commitId).Some?
      ensures ok ==> State() == Finished(old(State()), commitId).value
      ensures ok ==> Evolves(old(commits), commits) && HashesKept(old(commits), commits)
      ensures ok ==> commits[commitId].traversed && finishedCount == old(finishedCount) + 1
      ensures commitIds == old(commitIds) && taggerTime == old(taggerTime) && written == old(written)
    {
      ghost var start := State();
      commits := commits[commitId := commits[commitId].(traversed := true)];
      finishedCount := finishedCount + 1;
      ghost var marked := commits;
      ghost var cache := locksCache;
      ok := Release(commitId);
      if !ok {
        return;
      }
      MarkReleaseKeeps(start.commits, cache, commitId);
      ChildrenOkEvolves(start.commits, commits, commitId);
      ok := CheckChildren(commitId);
      if ok {
        FinishedKeeps(start, commitId);
      }
    }

    /** Lines 98-185: a new commit gets its base lock, then the commit is finished. */
    method ProcessCommit(commitId: string, content: string, hashOf: BaseLockInput -> string)
      returns (ok: bool, diffBase: Option<string>)
      requires commitId in commits
      requires commits[commitId].parentIds != [] ==> commits[commitId].parentIds[0] != commitId
      modifies this
      ensures ok <==> Processed(old(State()), commitId, content, hashOf).Some?
      ensures ok ==> State() == Processed(old(State()), commitId, content, hashOf).value
      ensures ok && old(commits)[commitId].isNew ==>
        var parents := old(commits)[commitId].parentIds;
        diffBase == if parents == [] then None
                    else WithBase(old(commits), commitId, hashOf(BaseInput(old(commits), commitId, content).value))[parents[0]].baseLock
      ensures ok ==> Evolves(old(commits), commits) && commits[commitId].traversed
      ensures ok ==> finishedCount == old(finishedCount) + 1
      ensures ok && old(commits)[commitId].isNew ==>
        BaseInput(old(commits), commitId, content).Some?
        && commits[commitId].lockHashes
           == old(commits)[commitId].lockHashes + [hashOf(BaseInput(old(commits), commitId, content).value)]
        && (forall id :: id in old(commits) && id != commitId ==> commits[id].lockHashes == old(commits)[id].lockHashes)
        && taggerTime == old(taggerTime) + 2 && |written| == |old(written)| + 1
      ensures ok && !old(commits)[commitId].isNew ==>
        HashesKept(old(commits), commits) && taggerTime == old(taggerTime) && written == old(written) && diffBase.None?
      ensures commitIds == old(commitIds)
    {
      ghost var start := State();
      diffBase := None;
      var isNew := commits[commitId].isNew;
      if isNew {
        ok, diffBase := AddBaseLock(commitId, content, hashOf);
        if !ok {
          assert Added(start, commitId, content, hashOf).None?;
          return;
        }
        ghost var h := hashOf(BaseInput(start.commits, commitId, content).value);
        AddedNew(start, commitId, content, hashOf);
        assert State() == RunState(WithBase(start.commits, commitId, h), start.locksCache[BaseName(h) := h],
          start.finishedCount, start.taggerTime + 2, start.written + [TagWrite(BaseName(h), commitId, start.taggerTime + 2)]);
      } else {
        assert State() == start;
      }
      ghost var added := State();
      assert Added(start, commitId, content, hashOf) == Some(added);
      ok := Finish(commitId);
      assert Processed(start, commitId, content, hashOf) == Finished(added, commitId);
      if ok {
        ProcessedHashes(start, commitId, content, hashOf);
      }
    }

    /** Lines 190-202: every commit in listing order, then the last commit's base lock,
        which the caller caches (`None` when the last commit holds none). `ok` is false
        when a commit fails or the listing is empty. */
    method ProcessAll(contentOf: string -> string, hashOf: BaseLockInput -> string)
      returns (ok: bool, lastBase: Option<string>)
      requires forall k :: 0 <= k < |commitIds| ==> commitIds[k] in commits
      requires forall id :: id in commits && commits[id].parentIds != [] ==> commits[id].parentIds[0] != id
      modifies this
      ensures commitIds == old(commitIds)
      ensures ok <==> commitIds != [] && RunFrom(old(State()), commitIds, contentOf, hashOf).Some?
      ensures ok ==> State() == RunFrom(old(State()), commitIds, contentOf, hashOf).value
      ensures ok ==> Evolves(old(commits), commits) && commits.Keys == old(commits).Keys
      ensures ok ==> forall k :: 0 <= k < |commitIds| ==> commits[commitIds[k]].traversed
      ensures ok ==> finishedCount == old(finishedCount) + |commitIds|
      ensures ok ==> taggerTime == old(taggerTime) + 2 * NewCount(old(commits), commitIds)
      ensures ok ==> |written| == |old(written)| + NewCount(old(commits), commitIds)
      ensures ok ==> HashesGrown(old(commits), commits, commitIds)
      ensures ok ==> commitIds != [] && lastBase == commits[commitIds[|commitIds| - 1]].baseLock
    {
      lastBase := None;
      var i := 0;
      while i < |commitIds|
        invariant 0 <= i <= |commitIds|
        invariant commitIds == old(commitIds)
        invariant Progress(old(commits), commits, commitIds, i)
        invariant finishedCount == old(finishedCount) + i
        invariant taggerTime == old(taggerTime) + 2 * NewCount(old(commits), commitIds[..i])
        invariant |written| == |old(written)| + NewCount(old(commits), commitIds[..i])
        invariant RunFrom(old(State()), commitIds, contentOf, hashOf) == RunFrom(State(), commitIds[i..], contentOf, hashOf)
        invariant HashesGrown(old(commits), commits, commitIds[..i])
      {
        var id := commitIds[i];
        ghost var before := commits;
        ghost var state := State();
        ReadyAt(old(commits), commits, commitIds, i);
        RunFromAt(state, commitIds, i, contentOf, hashOf);
        var diffBase;
        ok, diffBase := ProcessCommit(id, contentOf(id), hashOf);
        if !ok {
          return;
        }
        HashesGrownStep(old(commits), state, commitIds, i, contentOf, hashOf);
        ProgressStep(old(commits), before, commits, commitIds, i);
        NewCountStep(old(commits), commitIds, i);
        i := i + 1;
      }
      assert commitIds[..i] == commitIds;
      if commitIds == [] {
        return false, None;
      }
      lastBase := commits[commitIds[|commitIds| - 1]].baseLock;
      ok := true;
    }
  }

  /** The first `n` listed commits are traversed, and the map has evolved from `start`. */
  predicate Progress(start: map<string, Commit>, now: map<string, Commit>, ids: seq<string>, n: nat)
  {
    Evolves(start, now) && n <= |ids| && forall k :: 0 <= k < n ==> ids[k] in now && now[ids[k]].traversed
  }

  /** A listed commit can be processed: it is in the map and is not its own first parent. */
  lemma ReadyAt(start: map<string, Commit>, now: map<string, Commit>, ids: seq<string>, i: nat)
    requires i < |ids| && Evolves(start, now)
    requires forall k :: 0 <= k < |ids| ==> ids[k] in start
    requires forall id :: id in start && start[id].parentIds != [] ==> start[id].parentIds[0] != id
    ensures ids[i] in now && (now[ids[i]].parentIds != [] ==> now[ids[i]].parentIds[0] != ids[i])
  {
    assert ids[i] in start;
  }

  lemma ProgressStep(start: map<string, Commit>, before: map<string, Commit>, after: map<string, Commit>, ids: seq<string>, i: nat)
    requires i < |ids| && Progress(start, before, ids, i) && Evolves(before, after)
    requires ids[i] in after && after[ids[i]].traversed
    ensures Progress(start, after, ids, i + 1)
  {
    EvolvesTrans(start, before, after);
  }

  /** How many of `ids` had no lock when the run started. */
  function NewCount(commits: map<string, Commit>, ids: seq<string>): nat
    decreases |ids|
  {
    if ids == [] then 0
    else NewCount(commits, ids[..|ids| - 1]) + if ids[|ids| - 1] in commits && commits[ids[|ids| - 1]].isNew then 1 else 0
  }

  /** The count over one more id of the listing. */
  lemma NewCountStep(commits: map<string, Commit>, ids: seq<string>, i: nat)
    requires i < |ids|
    ensures NewCount(commits, ids[..i + 1]) == NewCount(commits, ids[..i]) + if ids[i] in commits && commits[ids[i]].isNew then 1 else 0
  {
    TakeOneMore(ids, i);
  }

  lemma TakeOneMore<T>(s: seq<T>, i: nat)
    requires i < |s|
    ensures |s[..i + 1]| == i + 1 && s[..i + 1][..i] == s[..i] && s[..i + 1][i] == s[i]
  {
  }

  /** Processing keeps the ids and what the listings and the loaded locks set, and never
      clears a traversal flag. */
  predicate Evolves(a: map<string, Commit>, b: map<string, Commit>)
  {
    a.Keys == b.Keys
    && forall id :: id in a ==>
         b[id].isNew == a[id].isNew && b[id].childIds == a[id].childIds && b[id].parentIds == a[id].parentIds
         && (a[id].traversed ==> b[id].traversed)
  }

  /** No commit's lock hashes change. */
  predicate HashesKept(a: map<string, Commit>, b: map<string, Commit>)
  {
    forall id :: id in a ==> id in b && b[id].lockHashes == a[id].lockHashes
  }

  /** The children check reads the same on a map that has evolved. */
  lemma ChildrenOkEvolves(a: map<string, Commit>, b: map<string, Commit>, commitId: string)
    requires commitId in a && Evolves(a, b)
    ensures ChildrenOk(a, commitId) == ChildrenOk(b, commitId)
  {
  }

  lemma EvolvesTrans(a: map<string, Commit>, b: map<string, Commit>, c: map<string, Commit>)
    requires Evolves(a, b) && Evolves(b, c)
    ensures Evolves(a, c)
  {
  }
}
