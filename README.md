# gitlock core, modelled in Dafny

gitlock gives every commit of a Git repository a "lock". A lock is an annotated tag
named `gitlock-NNN-<hash>`. Its content lists the commit's files, or a line diff
against the first parent's lock, followed by the commit id and the base64 commit
message. This project models the parts of gitlock that compute and read those
locks. Each Dafny module follows one source file.

- `Diff` (lib/diff.js) models the merge walk over two snapshot listings, whose lines
  have the form `<mode> <hash> <path>`, together with the boundary flush.
  - The walk is the imperative method `Diff.ComputeOps`. It is proved equal to the
    specification function `Diff.DiffOps`.
  - The source leaves `applyDiff` empty. Here it is the interpreter `Diff.ApplyOps`,
    which replays an op list on the base lines.
  - `Diff.DiffSound` proves that replaying the walk's ops on any two listings gives
    back the target listing.
- `DiffCodec` (lib/diff.js) models the text side of a diff.
  - It has the encoder as the source writes it, and the encoder as evidently intended.
  - It has a decoder for the intended encoding.
  - It has the text-level `computeDiff`/`applyDiff` pair that the repository's tests
    call, with its round trip.
- `Util` (lib/util.js) models `parseLines`, `parseLine`, `slashPath`, `pad` and
  `last`.
- `Js` holds the JavaScript built-ins the code relies on:
  - `split`, `indexOf`, `startsWith`, `endsWith` and the `\s` class;
  - `Number#toString` and `parseInt` on digit strings;
  - string `<`, which compares UTF-16 code units, while Dafny's `<` on characters
    compares code points.
- `Lock` (lib/lock.js) models the base-lock content parser `parseContent`, with
  round trips from the rendered lock format. `LockName` models the tag-body
  extraction of `getContent`/`getContentAsync`, `generateLabel` and `getHash`.
- `Git` (lib/git.js) models `parseTree`, the raw tree decoder. It is a loop over a
  byte `array` with a cursor, with a round trip from serialized records.
- `Validate` (lib/validate.js) models the argument guards as the predicates their
  regexes define.
- `AddLocks` (lib/main.js, `addLocks`) models the bookkeeping of one run.
  - The class `AddLocks.LockRun` holds the commit map, the listing order,
    `locksCache`, the processed count, the tagger time and the tags written.
  - Its methods update that state step by step, as the `forEach` loops do.
- `Cache` (lib/cache.js) is the class `Cache.CacheState`.
  - It holds the three memory maps, `baseLockCache` and the program-data directory,
    modelled as a map from file name to content.
  - It models the start-up trim and sweep and `addPdBaseLock`.

A thrown exception, a failed `assert` or a TypeError from reading a property of
`undefined` is modelled as `None`.

Three facts about the code shape the model:

- The walk in lib/diff.js:58-79 always pushes a trailing op, which is `Change(n, 0, [])`
  for identical listings. The model keeps that op in `Diff.DiffOps`. The repository's
  test (test/diff.js:97-113) expects `computeDiff(s, s)` to be `""`; only the corrected
  text-level `DiffCodec.ComputeDiff` drops the op to meet it (see Findings).
- The walk compares paths with `<` (lib/diff.js:44-53) but never checks that the
  listings are sorted. `Diff.DiffSound` holds for any two listings; path order only
  shapes the ops.
- In lib/diff.js, `exports.diff` is the walk and `applyDiff` has an empty body. The
  model's `Diff.ApplyOps` and `DiffCodec.ApplyDiff` give what test/diff.js expects of
  them. Rebuilding a snapshot through a chain of base locks (`BaseLock`/`fillDiff`) is
  not part of this model.

As written, `addLocks` throws on every commit without a lock. It calls `$v.id` at
lib/main.js:101, and lib/validate.js calls `assert` without importing it, so that call
throws a ReferenceError. It also reads `$cache` at lib/main.js:122, which main.js never
declares. Before that, lib/main.js:55 and lib/cache.js:18 read `$programData.generated`,
and both modules call `$programData.saveGenerated`. lib/program-data.js exports
neither name: it exports only `path`, `config` and `saveConfig`. So both modules fail
as soon as they are loaded. The model follows the program as evidently intended:
- the base-lock list is a given `seq`;
- the id check passes for a Git id;
- the pruning of `directoryIdToFiles` is left out.

## Model

| member | source | states |
|---|---|---|
| Util.SplitLines | lib/util.js:7 | splitting on `\r\n` or `\n` gives at least one piece, and no piece holds a newline |
| Util.ParseLines | lib/util.js:6-12 | no line returned holds a newline; the empty text has no lines |
| Util.ParseLinesSingle | lib/util.js:6-12 | a non-empty text without a newline is one line |
| Util.SplitLinesJoin | lib/util.js:7 | splitting lines that are each followed by `\n` gives those lines and one trailing empty piece |
| Util.ParseLinesJoin | lib/util.js:6-12 | `parseLines` inverts the `m + "\n"` join: for lines without `\n` or `\r` it gives back exactly the same lines |
| Util.JoinLinesEnds | lib/lock.js:40 | a newline-terminated join is empty or ends with `\n`, and is empty exactly when there are no lines |
| Util.JoinNewlineSplit | lib/util.js:7 | joining the pieces of a split with `"\n"` gives back any text without `\r` |
| Util.ParseLine | lib/util.js:16-20 | succeeds exactly when there is one line, and returns that line, which holds no newline |
| Util.ParseLineStrips | lib/util.js:14-20 | only the trailing newline is stripped: `parseLine(l + "\n") == l`, and `parseLine(l) == l` for non-empty `l` |
| Util.ReplaceBackslashes | lib/util.js:25 | same length; every backslash becomes `/` and every other character is kept |
| Util.SlashPath | lib/util.js:23-30 | a non-string comes back unchanged; a string keeps its length, has no backslash left, and keeps every other character |
| Util.SlashPathIdempotent | lib/util.js:23-30 | applying `slashPath` twice is the same as once |
| Util.Pad | lib/util.js:44-47 | defined exactly when `len` is at least the digit count (otherwise `repeat` throws a RangeError); the result has length `len`, is all digits, ends with the number's digits and has its value |
| Util.LeadingZeros | lib/util.js:46 | leading zeros keep a digit string's value |
| Util.Last | lib/util.js:57 | `undefined` exactly for the empty array; otherwise an element of the array |
| Util.LastOfPush | lib/util.js:57 | after pushing `x`, `last` is `x` |
| Js.Units | lib/diff.js:44-53 | a character below U+10000 is one code unit; above it, two, the first a high surrogate |
| Js.Utf16Injective | lib/diff.js:44-53 | strings with the same code units are equal |
| Js.AstralBeforeHighBmp | lib/diff.js:44-53 | `<` compares code units: U+1F600 sorts before U+FF61, though its code point is larger |
| Js.LessTrichotomy | lib/diff.js:44-53 | exactly one of `p < q`, `q < p`, `p == q` holds, so the three branches of the differ case cover every pair of paths |
| Js.DecimalString | lib/diff.js:83-89 | `${n}` is a non-empty digit string without a leading zero |
| Js.DigitsValueOfDecimal | lib/lock.js:75 | `parseInt` of `n.toString()` is `n` |
| Js.DecimalOfDigits | lib/lock.js:75 | `toString` of `parseInt` of a canonical digit string gives it back |
| Js.IndexOf | lib/lock.js:37 | `indexOf` finds the first occurrence from the start index, or none |
| Js.SplitOn | lib/main.js:66 | `split(" ")` gives at least one piece, and no piece holds the separator |
| Js.SplitOnJoin | lib/main.js:103 | joining the pieces of `split(c)` with `c` gives back the text |
| Js.SplitOnWord | lib/main.js:66 | splitting a word, the separator and a rest gives the word, then the split of the rest |
| Js.NonSpaceRun | lib/lock.js:16 | `[^\s]*` takes the longest whitespace-free prefix |
| Diff.PathOf | lib/diff.js:6-7 | a line the path regex matches holds no line terminator |
| Diff.PathOfLine | lib/diff.js:6-7 | for a space-free mode and hash, the third group of `mode hash path` is the path, spaces included |
| Diff.EntryPath | lib/diff.js:6-7 | a listing line `100644 <hash> <path>` has the path as its third group |
| Diff.ComputeOps | lib/diff.js:3-79 | the imperative walk with its boundary flush returns `DiffOps`, the op list of the walk, or `None` for the TypeError of a differing line without a path |
| Diff.Turn | lib/diff.js:14-55 | one iteration moves at least one cursor forward, keeps the cursors in bounds and keeps the ops still to come |
| Diff.AtMatch | lib/diff.js:16-41 | at identical lines, pushing the pending region and moving past the pair keeps the ops still to come |
| Diff.Advance | lib/diff.js:43-54 | on differing lines, the path comparison moves at least one cursor and keeps the ops still to come; it reports a failure only where the walk throws |
| Diff.PendingRegion | lib/diff.js:16-37 | at identical lines it pushes nothing exactly when neither cursor moved since the last match; otherwise one op that changes something, from the base region's start to the base cursor, inserting the skipped target lines: an Add when only the target moved, a Delete when only the base moved, a Change when both did |
| Diff.BoundaryOp | lib/diff.js:57-79 | after the loop one op is pushed: it runs from the base region's start to the base's end and inserts the target lines left; it is an Add exactly when only the target has lines left, and a Delete exactly when only the base has |
| Diff.DiffSound | lib/diff.js:3-79 | replaying the ops on the base gives the target; every op but the last changes something and ends inside the base; ops increase, with at least one kept line between them; the last op ends at the base's end and, if empty, is `Change(n, 0, [])` |
| Diff.ApplyOps | lib/diff.js:94-95 | the interpreter loop (copy up to the op, emit its lines, skip what it consumes, copy the rest) computes `Apply`, which fails on ops out of order or past the base |
| Diff.DiffOfIdentical | lib/diff.js:72-79 | identical listings give the single op `Change(n, 0, [])`, which changes nothing |
| Diff.DiffAppend | lib/diff.js:58-64 | lines appended after an unchanged listing give one `Add` at the old length; an empty base gives one `Add(0, all lines)` |
| Diff.DiffTruncate | lib/diff.js:65-71 | lines removed from the end give one `Delete` at the kept length; an empty target gives one `Delete(0, n)` |
| Diff.DiffDisjoint | lib/diff.js:72-79 | listings sharing no line give the single op `Change(0, n, target)` |
| Diff.WalkDefined | lib/diff.js:43-54 | when every line matches the path regex, the walk never throws |
| Diff.DiffExample | test/diff.js:33-47 | the example yields `Add(2, [b1])`, `Delete(3, 1)`, `Change(5, 1, [f'])`; the last comes from a same-path line with a new hash |
| Diff.ApplyEmptyTail | lib/diff.js:72-79 | a trailing `Change(n, 0, [])` does not change the replay |
| Diff.DropEmptyTailApply | lib/diff.js:72-79 | dropping the empty trailing Change keeps the replay and leaves only ops that change something |
| DiffCodec.EncodeIsJoin | lib/diff.js:81-91 | the encoding is each op's header line (`a i`, `d i n`, `c i n`) followed by the lines it emits, each line ending in `\n` |
| DiffCodec.EncodeAsWrittenIsEmpty | lib/diff.js:81-91 | `EncodeAsWritten`, the encoder as written, returns `""` for every op list |
| DiffCodec.EncodeEmptyIff | lib/diff.js:81-91 | the intended encoding is empty exactly for the empty op list |
| DiffCodec.Numeral | lib/diff.js:94-95 | a numeral is read exactly from a non-empty digit string |
| DiffCodec.ParseHeader | lib/diff.js:94-95 | a parsed header carries no lines yet |
| DiffCodec.BodyLength | lib/diff.js:94-95 | an op's body runs up to the next header line |
| DiffCodec.HeaderRoundTrip | lib/diff.js:83-89 | reading a header back gives the op's kind, index and count |
| DiffCodec.DecodeEncode | lib/diff.js:81-91 | decoding the encoding gives back the op list, for emitted lines that hold no line break and do not look like a header |
| DiffCodec.ComputeDiffIdentical | test/diff.js:97-113 | `computeDiff(s, s)` is `""`, as the tests expect; the op list alone would encode to `c n 0` |
| DiffCodec.ComputeDiffAsWrittenIsEmpty | lib/diff.js:81-91 | `ComputeDiffAsWritten`, the source's pipeline, yields `""` whenever it does not throw |
| DiffCodec.DiffRoundTrip | lib/diff.js:3-95 | `ApplyDiff(base, ComputeDiff(base, str)) == str` for listings of plain lines, as the tests' `applyDiff(base, computeDiff(base, str))` expects |
| DiffCodec.EncodeExample | test/diff.js:40-47 | the example's ops encode to the expected text `a 2`, the line, `d 3 1`, `c 5 1`, the line |
| Lock.NewlineRun | lib/lock.js:16 | `\n*` takes the longest run of newlines |
| Lock.ParentRunJoin | lib/lock.js:16 | `(?:parent [^\s]*\n)*` takes exactly the rendered parent lines |
| Lock.BodyRunJoin | lib/lock.js:16 | the body group takes exactly the rendered listing or diff lines |
| Lock.MatchTailOf | lib/lock.js:16 | the commit line, blank lines and the `base64-` line yield the commit id and data, and the nonce after them is ignored |
| Lock.MatchRender | lib/lock.js:15-17 | the content regex captures the parent block, the body, the commit id and the data of a rendered lock |
| Lock.ParentHashOf | lib/lock.js:19 | `split(" ")[1]` of `parent <h>` is `h` |
| Lock.ParentHashesOf | lib/lock.js:18-19 | the parent hashes are the rendered hashes, in order |
| Lock.FileLine | lib/lock.js:25-28 | a parsed listing line is a valid entry: a 6-digit mode, a whitespace-free hash and a terminator-free path |
| Lock.ParseFiles | lib/lock.js:24-28 | one valid entry per line |
| Lock.FileLineOf | lib/lock.js:26-27 | a valid entry written as `mode hash path` parses back to itself, spaces in the path included |
| Lock.ParseFilesOf | lib/lock.js:24-28 | a listing of valid entries parses back to the same entries, in order |
| Lock.ListingNotDiff | lib/lock.js:20 | a file listing never starts with `a `, `d ` or `c ` |
| Lock.NotBodyHead | lib/lock.js:16 | a blank line or the `commit` line cannot start a body line |
| Lock.ParseContent | lib/lock.js:9-32 | content starting with `signatures\n` or `timestamps\n` gives nothing; a parsed listing holds only valid entries; a parsed diff starts with `a `, `d ` or `c ` |
| Lock.ContentOf | lib/lock.js:18-30 | after the regex: a diff body is kept verbatim, otherwise each line is parsed as a file entry |
| Lock.ContentOfFull | lib/lock.js:23-29 | a matched listing gives the parent hashes, the entries and the commit id |
| Lock.ContentOfDiff | lib/lock.js:20-21 | a matched diff body gives the parent hashes, the body verbatim and the commit id |
| Lock.RenderNotUnparsed | lib/lock.js:10-13 | a rendered base lock never starts with `signatures\n` or `timestamps\n` |
| Lock.ParseFullContent | lib/lock.js:9-32 | a rendered full lock parses back to its parent hashes, file entries and commit id |
| Lock.ParseDiffContent | lib/lock.js:9-32 | a rendered diff lock parses back to its parent hashes, diff text and commit id |
| Lock.ParentLines | test/base.js:128 | one `parent <h>` line per parent hash, in order |
| LockName.Rest | lib/lock.js:37-40 | `slice(indexOf("") + 1)`: the lines after the first empty line, or all lines when there is none |
| LockName.TagBody | lib/lock.js:37-40 | the body is `""` or ends with `\n`; with no empty line it is the whole text |
| LockName.TagContent | lib/lock.js:57-63 | the same extraction from the raw `cat-file` output |
| LockName.RestOf | lib/lock.js:37-40 | with a header of non-empty lines, the rest is the content after the blank line |
| LockName.TagContentOf | lib/lock.js:57-63 | a tag of header lines, a blank line and content gives back the content, empty lines inside it included |
| LockName.GenerateLabel | lib/lock.js:74-85 | defined exactly for names `gitlock-NNN-…` (otherwise a TypeError); the label is a digit string worth `NNN + 1`, at least 3 characters |
| LockName.ThreeDigits | lib/lock.js:76-84 | zero-pads to 3 characters and keeps the value |
| LockName.GenerateLabelPad | lib/lock.js:74-85 | the label is `pad(NNN + 1, 3)` below 999, and `999` becomes `1000` |
| LockName.GetHash | lib/lock.js:87-89 | defined exactly for lock names; the name is `gitlock-NNN-` followed by the result |
| LockName.GetHashOf | lib/lock.js:87-89 | `getHash("gitlock-" + NNN + "-" + h) == h` |
| Git.NormalizeMode | lib/git.js:33-35 | a 5-character mode gets a leading `0`; other modes are unchanged |
| Git.Hex | lib/git.js:39 | two lowercase hex digits per byte |
| Git.HexInjective | lib/git.js:39 | different ids give different hex text |
| Git.Step | lib/git.js:30-39 | on a well-formed record the cursor moves forward past the record |
| Git.ReadRecord | lib/git.js:30-40 | the loop body finds the first space after the cursor and the first NUL after it; the mode is the bytes before the space (normalised), the name the bytes between, the id the hex of the 20 bytes after the NUL (40 hex digits when they are all there), and the cursor moves to the NUL plus 21 |
| Git.ParseTree | lib/git.js:26-43 | the imperative loop over the byte array returns the entries of the well-formed buffer, one per record, in order |
| Git.Serialize | lib/git.js:31-38 | a record takes mode, space, name, NUL and 20 id bytes |
| Git.EntriesOf | lib/git.js:40 | one entry per record |
| Git.ParseTreeOf | lib/git.js:26-43 | a buffer made of serialized records, one after another to its end, parses back to their entries in order, modes normalised |
| Git.EntryDetermines | lib/git.js:26-43 | two well-formed records with the same entry are equal when neither mode has 5 characters |
| Validate.Arg | lib/validate.js:10-13 | accepts exactly letters, digits, `.`, `_` and `-` (the empty string too), and returns its argument |
| Validate.Id | lib/validate.js:14-17 | accepts exactly 40 lowercase hex characters, and returns its argument |
| Validate.Hash | lib/validate.js:18-21 | accepts exactly `sha256-` and 64 lowercase hex characters, and returns its argument |
| Validate.TagName | lib/validate.js:22-25 | accepts exactly `gitlock-`, 3 digits, `-` and a valid hash, and returns its argument |
| Validate.IdOrHashOrTagName | lib/validate.js:26-41 | accepts exactly what `id`, `hash` or `tagName` accepts, and returns its argument |
| Validate.FormsDisjoint | lib/validate.js:26-41 | at most one of the three forms accepts a value, so the order of the cascade does not matter |
| Validate.StrictIsArg | lib/validate.js:10-25 | everything the strict guards accept also passes `arg` |
| Validate.TagNameHash | lib/validate.js:22-25 | `getHash` of a valid tag name is a valid hash |
| Validate.TagNameOf | lib/validate.js:22-25 | a name built from 3 digits and a valid hash is a valid tag name, and `getHash` gives the hash back |
| Validate.HexIsId | lib/validate.js:14-17 | the hex rendering of a tree entry's 20-byte id passes `id` |
| Cache.Extname | lib/cache.js:29 | `path.extname`: empty, or a suffix of the name that starts with its only `.` |
| Cache.ExtnameJson | lib/cache.js:28-29 | for `sha256-` names, the extension is `.json` exactly when the name ends with `.json` |
| Cache.IsStaleByName | lib/cache.js:27-31 | a file is stale exactly when its name starts with `sha256-`, does not end in `.json` and is the hash of no cached base lock |
| Cache.StaleNamesExact | lib/cache.js:26-35 | the sweep deletes exactly the listed names that start with `sha256-`, are not `.json` and equal no cached hash |
| Cache.AddedNotSwept | lib/cache.js:47-52 | a base lock just added to the cache is never swept |
| Cache.CacheState.constructor | lib/cache.js:15-18 | empty memory maps, with the cache list and directory given |
| Cache.CacheState.FlushMemory | lib/cache.js:9-13 | resets the three memory maps to empty and touches nothing else |
| Cache.CacheState.TrimAsWritten | lib/cache.js:19-24 | the loop as written keeps a suffix, after `ShiftsAsWritten(n)` shifts |
| Cache.CacheState.Trim | lib/cache.js:19-24 | the intended trim: nothing for at most 50 entries, otherwise only the newest 50, in the same order |
| Cache.ShiftsAsWritten | lib/cache.js:20-22 | the loop as written never shifts more entries than there are |
| Cache.Kept | lib/cache.js:17-22 | the intended trim keeps at most 50 entries, and all of them when there are at most 50 |
| Cache.TrimAsWrittenKeeps | lib/cache.js:20-22 | as written, `n > 50` entries shrink to `50 + floor((n - 50) / 2)` |
| Cache.TrimAsWrittenSixty | lib/cache.js:20-22 | as written, 60 entries shrink to 55, not 50 |
| Cache.CacheState.IsCached | lib/cache.js:30 | `some(m => m.hash === item)` |
| Cache.CacheState.Sweep | lib/cache.js:26-35 | deletes exactly the stale names, in listing order, and nothing else changes |
| Cache.CacheState.PdLockContent | lib/cache.js:37-45 | a read succeeds exactly for a file in the program data, which is what `InProgramData` tests |
| Cache.CacheState.AddPdBaseLock | lib/cache.js:47-52 | writes the content under the hash and appends the info as the last entry; earlier entries are unchanged |
| Cache.CacheState.Load | lib/cache.js:15-35 | loading with the intended trim: the memory maps are empty; the cache list is the newest `Kept(n)` entries (at most 50), in order; the program data holds exactly the files that were there and are not stale against that list, with their contents unchanged |
| Cache.CacheState.LoadAsWritten | lib/cache.js:15-35 | loading as written: the list keeps the suffix after `ShiftsAsWritten(n)` shifts (60 entries become 55), and the sweep keeps exactly the files not stale against that longer list |
| AddLocks.ReadCommit | lib/main.js:101-115 | a commit text is read only when its first line is `tree <id>`, and the tree id is that `<id>`, with no space or newline |
| AddLocks.ReadCommitTree | lib/main.js:103-105 | conversely, a text whose first line is `tree <id>` with a space-free id is read, with that id |
| AddLocks.Message | lib/main.js:112-115 | the message is empty exactly when the joined lines are; a non-empty message ends with `\n` when the raw text does |
| AddLocks.MessageNewline | lib/main.js:108-115 | a non-empty message ends with a newline exactly when the raw commit text does |
| AddLocks.MessageNoNewline | lib/main.js:113-115 | without a trailing newline in the raw text, a non-empty message has none |
| AddLocks.MessageEnds | lib/main.js:112 | joining lines whose last line is non-empty adds no trailing newline |
| AddLocks.ReadCommitOf | lib/main.js:101-115 | a commit text of `tree <id>`, header lines, a blank line and a message gives back the id and the message unchanged, except that a message of one lone `\n` comes back as `""` |
| AddLocks.ListedKeys | lib/main.js:64-73 | every listed id has a record, and nothing else has one |
| AddLocks.ListedAt | lib/main.js:64-73 | an id's record is the fresh record of its last line: the other fields as children, no hashes, new, not traversed |
| AddLocks.LockRun.constructor | lib/main.js:58-73 | the commit map of the listing, with the ids in line order |
| AddLocks.WithParentsKeeps | lib/main.js:76-79 | fails exactly on an unknown id; otherwise keeps the ids, changes only `parentIDs`, and only those of listed ids |
| AddLocks.WithParentsAt | lib/main.js:76-79 | an id's parents are the other fields of the last line naming it |
| AddLocks.LockRun.SetParents | lib/main.js:76-79 | the loop sets the parents as `WithParents` says, or stops at an unknown id |
| AddLocks.LoadedHashes | lib/main.js:82-90 | loading keeps the ids, appends to each commit exactly its locks' hashes in order, and leaves a commit new exactly when it has none; locks on unknown commits are ignored |
| AddLocks.TaggerTimeRule | lib/main.js:91-94 | the tagger time never goes back, moves in even steps and is either unchanged or some lock's time |
| AddLocks.LockRun.LoadAllLocks | lib/main.js:81-96 | the loop loads the locks and moves the tagger time as the two functions say |
| AddLocks.ParentHashes | lib/main.js:133 | each parent's first lock hash, in parent order; fails exactly when a parent is missing |
| AddLocks.WithBaseShape | lib/main.js:137-148 | exactly one hash is appended to the commit; only the first parent's base lock may change, and only when it had none |
| AddLocks.WithBase | lib/main.js:137-148 | adding a base lock keeps the set of ids |
| AddLocks.Added | lib/main.js:100-157 | the state after the base-lock step keeps the set of ids |
| AddLocks.AddedNew | lib/main.js:100-157 | for a new commit whose text and parents can be read: the map gets the base lock, the cache its name, the time 2 seconds, and one tag is written at the new time |
| AddLocks.FinishedKeeps | lib/main.js:160-184 | finishing marks the commit traversed and counts it, keeps what `Evolves` keeps, and changes no lock hash, time or tag |
| AddLocks.MarkReleaseKeeps | lib/main.js:160-172 | marking and releasing keep ids, flags, child and parent lists and lock hashes, and leave the commit traversed |
| AddLocks.ProcessedHashes | lib/main.js:98-185 | one commit: marked and counted; a new commit's text and parents can be read, its new hash is appended, no other hash changes, the time moves 2 seconds and its tag is written; an old commit changes no time or tag |
| AddLocks.ProcessedNew | lib/main.js:98-185 | the same for a new commit |
| AddLocks.ProcessedOld | lib/main.js:160-185 | the same for an old commit: no hash, time or tag changes |
| AddLocks.RunFromAt | lib/main.js:190-197 | the walk from the `i`th id is that commit, then the walk from the next |
| AddLocks.HashesGrownStep | lib/main.js:190-197 | one more processed commit keeps every earlier hash and adds one for a new commit per listing of it |
| AddLocks.WithBaseEvolves | lib/main.js:137-148 | adding a base lock keeps ids, listings and flags; only the commit's own hashes grow |
| AddLocks.LockRun.HoldBaseLock | lib/main.js:137-157 | holds the new lock, gives the first parent its base lock `gitlock-000-<first hash>` when it has none, reports it as the diff base, caches the lock, adds 2 seconds and writes one tag |
| AddLocks.LockRun.AddBaseLock | lib/main.js:100-157 | a new commit's base lock is made from the message and the parents' first hashes; it fails exactly when the commit text or a parent cannot be read, and then nothing changes |
| AddLocks.EveryTraversedFrame | lib/main.js:167 | changing base locks does not change which children are traversed |
| AddLocks.ReleasedKeeps | lib/main.js:165-172 | releasing changes nothing but base locks; a record changes only when it is a listed parent that held a base lock and whose children were all traversed, and it then has none; releasing only removes names from `locksCache`; every name removed is `gitlock-000-<hash>` of the base lock of a listed parent that held one and whose children were all traversed |
| AddLocks.ReleasedDrops | lib/main.js:165-172 | after release, no parent whose children are all traversed holds a base lock, and its name is gone from `locksCache` |
| AddLocks.LockRun.AllTraversed | lib/main.js:167 | `childIDs.every(m => commits[m].traversed)`, with the TypeError of an unknown child |
| AddLocks.LockRun.Release | lib/main.js:165-172 | the loop releases as `Released` says, or stops at a TypeError |
| AddLocks.ChildrenOkEvolves | lib/main.js:180-184 | the children check gives the same answer before and after marking and releasing, which change no `isNew` flag or child list |
| AddLocks.LockRun.CheckChildren | lib/main.js:180-184 | passes exactly when the commit is old or all its children are known and new |
| AddLocks.LockRun.Finish | lib/main.js:160-184 | succeeds exactly when `Finished` does (the release throws no TypeError and the children check passes), and then the new state is `Finished`'s: marked, counted, released; the map only evolves and no lock hash changes |
| AddLocks.LockRun.ProcessCommit | lib/main.js:98-185 | succeeds exactly when `Processed` does, and the new state is `Processed`'s; the diff base is the first parent's base lock after the new lock is held; a new commit gains exactly its base lock's hash, and other commits' hashes stay; the time moves 2 seconds and one tag is written; an old commit changes no hash, time or tag |
| AddLocks.LockRun.ProcessAll | lib/main.js:190-202 | succeeds exactly when the listing is not empty and `RunFrom` succeeds, and the final state is `RunFrom`'s; every listed commit ends traversed; the count grows by the listing length; time and tags grow by 2 seconds and one tag per new commit; each commit keeps its hashes and, if new, gains one per listing of it; the last commit's base lock is returned |

## Left out

- Git processes are not modelled. This covers `run`/`line`/`lines` in lib/git.js:6-24, the tag reads in lib/lock.js:34-72 and every `$git.*` call in lib/main.js. Their output is a parameter: listing lines, commit text, tag output and tree bytes.
- UTF-8 decoding in `parseTree` is not modelled. Modes and names stay byte sequences.
- SHA-256, base64 and the random nonce (lib/lock.js:92-102) are not modelled. A lock's hash is the parameter `hashOf`, and the base64 data and nonce are opaque strings.
- Dates are not modelled. `addTime`/`subtractTime` become whole seconds after `TAGGER_TIME_ORIGIN`, which is 0. The progress output at lib/main.js:174-178 is left out.
- `delay` and `batchRunAsync` are timers and retries, so they are left out. `getTime` reads a tag date and is left out.
- The CLI, timestamping, proofs, config and `prelude` (lib/main.js:206-469) are not part of this model, except the trim loop at lib/main.js:231-237, which is the cache trim again.
- `BaseLock`, `Lock.fromName`, `fillDiff`, `$lock.add`, `getAllLocks`, `getFilesInDirectoryRec` and `getFileHash` are not part of this model. They are replaced as follows:
  - a lock is its hash;
  - `fromName("gitlock-000-" + h)` is the lock whose hash is `h`, the parent's first lock hash; for a parent with no lock `h` is the text `undefined`;
  - `fillDiff` is the reported diff base;
  - `$lock.add` is a log of tag writes;
  - `getAllLocks` is a list parameter.
- `$cache` at lib/main.js:122-126 is never declared, so as written that line throws a ReferenceError for every new commit, and so does `$v.id` at lib/main.js:101. The model leaves out the pruning of `directoryIdToFiles` and treats the id check as passing.
- The cache's real filesystem is not modelled: the directory is a map. `saveGenerated` and writing the last lock's content at lib/main.js:191-202 are left out. `ProcessAll` returns that lock, and appending it to `baseLockCache` is `AddPdBaseLock`.
- A commit without a `--parents` line would have `parentIDs` undefined. The model starts it at `[]`.
- Git.ParseTree: requires a well-formed buffer. With a missing space or NUL, `indexOf` gives -1 and the cursor can move backwards, and the model does not follow that case.
- AddLocks.LockRun.ProcessAll: requires that no commit is its own first parent, which Git histories guarantee. Its final state, `locksCache` included, is given by `RunFrom`. Its `ensures` give, per commit, how many hashes are appended, but not the hash values or the cache contents in closed form, and nothing about the content of the locks.
- Validate: validate.js calls `assert` without importing it, so as written every guard throws a ReferenceError. The model gives the checks that the regexes define.
- diff.js calls `parseLines` without importing it. The model uses lib/util.js:6-12.
- `applyDiff` is empty in the source. The model supplies the interpreter and a decoder for the intended encoding. Lines that look like a header (`a `, `d `, `c ` followed by digits) cannot be told apart from one, so `DiffCodec.DiffRoundTrip` excludes them.
- Diff.ComputeOps: the `diff` array of records becomes a sequence of `Op` values. The name mismatch between `exports.diff` and the tests' `computeDiff` is modelled by `DiffCodec.ComputeDiff`.

## Findings

| source | as written | input that shows it | evidently intended | confidence | as-written member | corrected member |
|---|---|---|---|---|---|---|
| lib/diff.js:82-88 | the dispatch compares the whole record with `"add"`, `"delete"` and `"change"`, so every op maps to `undefined` and the join gives `""` | any walk result, e.g. `Add(0, [l])` for base `""` and target `l\n` | dispatch on `action.type` | not executed | DiffCodec.EncodeAsWrittenIsEmpty | DiffCodec.DecodeEncode |
| lib/diff.js:72-79 | the boundary always pushes an op, so identical listings give `Change(n, 0, [])`, which the intended encoder writes as `c n 0` | base = target = one listing line | no op when both pending regions are empty, so identical listings diff to `""` (test/diff.js:97-113) | not executed | Diff.DiffOfIdentical | DiffCodec.ComputeDiffIdentical |
| lib/cache.js:20-22 | the loop bound `length - 50` is read again after each `shift`, so the loop stops half way | 60 cache entries are trimmed to 55 | trim to the newest 50 entries; the same loop is at lib/main.js:232-235 | not executed | Cache.TrimAsWrittenSixty | Cache.CacheState.Trim |
