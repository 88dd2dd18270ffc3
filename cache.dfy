/** lib/cache.js: the in-memory caches and the program-data directory of cached base
    locks. The directory is a map from file name to content; reading, writing and
    unlinking files become updates of that map, and `saveGenerated` is not modelled. */
module Cache {
  import opened Wrappers
  import Js
  import Git

  /** The most base locks the program data keeps. */
  const BaseLockCacheLimit: nat := 50

  /** An entry of `baseLockCache`: the lock's hash, the repository's first commit, the
      commit it belongs to and when it was cached. */
  datatype CacheInfo = CacheInfo(hash: string, repo: string, commit: string, time: string)

  /** `path.extname` of a file name without `/`: from the last `.` on; empty when there
      is no `.`, when the last `.` is the first character, and for `..`. */
  function Extname(name: string): (r: string)
    ensures r == "" || (r[0] == '.' && Js.EndsWith(name, r) && |r| < |name|)
    ensures r != "" ==> '.' !in r[1..]
    decreases |name|
  {
    if |name| <= 1 then ""
    else if name[|name| - 1] == '.' then (if name == ".." then "" else ".")
    else
      var e := Extname(name[..|name| - 1]);
      if e == "" then
        (if name[|name| - 2] == '.' && |name| > 2 then [name[|name| - 2], name[|name| - 1]] else "")
      else e + [name[|name| - 1]]
  }

  /** `baseLockCache.some(m => m.hash === item)` */
  predicate Cached(cache: seq<CacheInfo>, item: string)
  {
    exists k :: 0 <= k < |cache| && cache[k].hash == item
  }

  /** Lines 27-31: a file the start-up sweep deletes. */
  predicate IsStale(item: string, cache: seq<CacheInfo>)
  {
    Js.StartsWith(item, "sha256-") && Extname(item) != ".json" && !Cached(cache, item)
  }

  /** A stale file, in terms of its name alone: a `sha256-` name that does not end in
      `.json` and is the hash of no cached base lock. */
  lemma IsStaleByName(item: string, cache: seq<CacheInfo>)
    ensures IsStale(item, cache)
        <==> Js.StartsWith(item, "sha256-") && !Js.EndsWith(item, ".json")
             && forall k :: 0 <= k < |cache| ==> cache[k].hash != item
  {
    if Js.StartsWith(item, "sha256-") {
      ExtnameJson(item);
    }
  }

  /** The names a sweep deletes, in listing order. */
  function StaleNames(names: seq<string>, cache: seq<CacheInfo>): seq<string>
    decreases |names|
  {
    if names == [] then []
    else
      var init := StaleNames(names[..|names| - 1], cache);
      if IsStale(names[|names| - 1], cache) then init + [names[|names| - 1]] else init
  }

  /** The sweep deletes exactly the stale names: each one it deletes is listed and stale,
      and each stale listed name is deleted. */
  lemma {:induction false} StaleNamesExact(names: seq<string>, cache: seq<CacheInfo>)
    ensures forall n :: n in StaleNames(names, cache) <==> n in names && IsStale(n, cache)
    decreases |names|
  {
    if names != [] {
      var init := names[..|names| - 1];
      StaleNamesExact(init, cache);
      assert names == init + [names[|names| - 1]];
    }
  }

  /** A base lock just added to the cache is never swept. */
  lemma AddedNotSwept(cache: seq<CacheInfo>, info: CacheInfo, names: seq<string>)
    ensures info.hash !in StaleNames(names, cache + [info])
  {
    StaleNamesExact(names, cache + [info]);
    assert (cache + [info])[|cache|].hash == info.hash;
  }

  /** For the names the sweep looks at, the `.json` test is a suffix test. */
  lemma ExtnameJson(item: string)
    requires Js.StartsWith(item, "sha256-")
    ensures Extname(item) == ".json" <==> Js.EndsWith(item, ".json")
  {
    if Js.EndsWith(item, ".json") {
      var n := |item|;
      assert item[n - 5..] == ".json";
      assert item[n - 1] == 'n' && item[n - 2] == 'o' && item[n - 3] == 's' && item[n - 4] == 'j' && item[n - 5] == '.';
      assert item[..7] == "sha256-";
      assert n >= 7;
      ExtnameStep(item[..n - 4], 'j', item[..n - 3]);
      ExtnameStep(item[..n - 3], 's', item[..n - 2]);
      ExtnameStep(item[..n - 2], 'o', item[..n - 1]);
      ExtnameStep(item[..n - 1], 'n', item);
    }
  }

  /** Appending a character other than `.` to a name whose extension is not empty
      extends the extension. */
  lemma ExtnameStep(name: string, c: char, next: string)
    requires next == name + [c] && c != '.'
    requires Extname(name) != "" || (|name| >= 2 && name[|name| - 1] == '.')
    ensures Extname(next) == (if Extname(name) != "" && Extname(name) != "." then Extname(name) else [name[|name| - 1]]) + [c]
  {
    assert next[..|next| - 1] == name;
  }

  /** The caches and the program data as `cache.js` sees them: `fileIdToHash`,
      `directoryIdToFiles` and `hashToLock` in memory, `baseLockCache` and the files of
      the program-data directory. */
  class CacheState {
    var fileIdToHash: map<string, string>
    var directoryIdToFiles: map<string, seq<Git.TreeEntry>>
    var hashToLock: map<string, string>
    var baseLockCache: seq<CacheInfo>
    var files: map<string, string>

    constructor (cache: seq<CacheInfo>, dir: map<string, string>)
      ensures baseLockCache == cache && files == dir
      ensures fileIdToHash == map[] && directoryIdToFiles == map[] && hashToLock == map[]
    {
      fileIdToHash := map[];
      directoryIdToFiles := map[];
      hashToLock := map[];
      baseLockCache := cache;
      files := dir;
    }

    /** Lines 9-13. */
    method FlushMemory()
      modifies this
      ensures fileIdToHash == map[] && directoryIdToFiles == map[] && hashToLock == map[]
      ensures baseLockCache == old(baseLockCache) && files == old(files)
    {
      fileIdToHash := map[];
      directoryIdToFiles := map[];
      hashToLock := map[];
    }

    /** Lines 19-24 as written: the bound `length - 50` is read again after every
        `shift`, so the loop stops half way. */
    method TrimAsWritten()
      modifies this
      ensures baseLockCache == old(baseLockCache)[ShiftsAsWritten(|old(baseLockCache)|)..]
      ensures files == old(files) && fileIdToHash == old(fileIdToHash)
      ensures directoryIdToFiles == old(directoryIdToFiles) && hashToLock == old(hashToLock)
    {
      if |baseLockCache| > BaseLockCacheLimit {
        ghost var n := |baseLockCache|;
        var i := 0;
        while i < |baseLockCache| - BaseLockCacheLimit
          invariant 0 <= i && 2 * i <= n - BaseLockCacheLimit + 1
          invariant baseLockCache == old(baseLockCache)[i..]
          invariant files == old(files) && fileIdToHash == old(fileIdToHash)
          invariant directoryIdToFiles == old(directoryIdToFiles) && hashToLock == old(hashToLock)
        {
          baseLockCache := baseLockCache[1..];
          i := i + 1;
        }
      }
    }

    /** The trim as intended: drop the oldest entries until at most 50 are left. */
    method Trim()
      modifies this
      ensures baseLockCache == old(baseLockCache)[|old(baseLockCache)| - Kept(|old(baseLockCache)|)..]
      ensures files == old(files) && fileIdToHash == old(fileIdToHash)
      ensures directoryIdToFiles == old(directoryIdToFiles) && hashToLock == old(hashToLock)
    {
      if |baseLockCache| > BaseLockCacheLimit {
        var excess := |baseLockCache| - BaseLockCacheLimit;
        var i := 0;
        while i < excess
          invariant 0 <= i <= excess
          invariant baseLockCache == old(baseLockCache)[i..]
          invariant files == old(files) && fileIdToHash == old(fileIdToHash)
          invariant directoryIdToFiles == old(directoryIdToFiles) && hashToLock == old(hashToLock)
        {
          baseLockCache := baseLockCache[1..];
          i := i + 1;
        }
      }
    }

    /** Lines 26-35: delete every listed file that is stale. */
    method Sweep(names: seq<string>) returns (deleted: seq<string>)
      modifies this
      ensures deleted == StaleNames(names, baseLockCache)
      ensures files == old(files) - set n | n in deleted
      ensures baseLockCache == old(baseLockCache) && fileIdToHash == old(fileIdToHash)
      ensures directoryIdToFiles == old(directoryIdToFiles) && hashToLock == old(hashToLock)
    {
      deleted := [];
      var i := 0;
      while i < |names|
        invariant 0 <= i <= |names|
        invariant deleted == StaleNames(names[..i], baseLockCache)
        invariant files == old(files) - set n | n in deleted
        invariant baseLockCache == old(baseLockCache) && fileIdToHash == old(fileIdToHash)
        invariant directoryIdToFiles == old(directoryIdToFiles) && hashToLock == old(hashToLock)
      {
        var item := names[i];
        var cached := IsCached(item);
        if Js.StartsWith(item, "sha256-") && Extname(item) != ".json" && !cached {
          files := files - {item};
          deleted := deleted + [item];
        }
        assert names[..i + 1][..i] == names[..i];
        i := i + 1;
      }
      assert names[..i] == names;
    }

    /** `baseLockCache.some(m => m.hash === item)` */
    method IsCached(item: string) returns (r: bool)
      ensures r <==> Cached(baseLockCache, item)
    {
      var k := 0;
      while k < |baseLockCache|
        invariant 0 <= k <= |baseLockCache|
        invariant forall j :: 0 <= j < k ==> baseLockCache[j].hash != item
      {
        if baseLockCache[k].hash == item {
          return true;
        }
        k := k + 1;
      }
      return false;
    }

    /** Lines 37-40. */
    predicate InProgramData(hash: string)
      reads this
    {
      hash in files
    }

    /** Lines 42-45: `None` is the error of reading a missing file. */
    function PdLockContent(hash: string): (r: Option<string>)
      reads this
      ensures r.Some? <==> InProgramData(hash)
    {
      if hash in files then Some(files[hash]) else None
    }

    /** Lines 47-52: write the content under the hash and append the entry. */
    method AddPdBaseLock(info: CacheInfo, content: string)
      modifies this
      ensures files == old(files)[info.hash := content]
      ensures baseLockCache == old(baseLockCache) + [info]
      ensures fileIdToHash == old(fileIdToHash) && directoryIdToFiles == old(directoryIdToFiles)
      ensures hashToLock == old(hashToLock)
      ensures PdLockContent(info.hash) == Some(content)
    {
      files := files[info.hash := content];
      baseLockCache := baseLockCache + [info];
    }

    /** Loading the module (lines 15-35): flush, trim, sweep. `names` is the listing of
        the program-data directory, so it names exactly the files there. */
    method Load(names: seq<string>) returns (deleted: seq<string>)
      requires (set n | n in names) == files.Keys
      modifies this
      ensures fileIdToHash == map[] && directoryIdToFiles == map[] && hashToLock == map[]
      ensures baseLockCache == old(baseLockCache)[|old(baseLockCache)| - Kept(|old(baseLockCache)|)..]
      ensures |baseLockCache| <= BaseLockCacheLimit
      ensures forall n :: n in files <==> n in old(files) && !IsStale(n, baseLockCache)
      ensures forall n :: n in files ==> files[n] == old(files)[n]
    {
      FlushMemory();
      Trim();
      deleted := Sweep(names);
      StaleNamesExact(names, baseLockCache);
    }

    /** Loading the module as written: the trim stops half way (`TrimAsWritten`), so
        the sweep keeps the files of the entries it leaves behind. */
    method LoadAsWritten(names: seq<string>) returns (deleted: seq<string>)
      requires (set n | n in names) == files.Keys
      modifies this
      ensures fileIdToHash == map[] && directoryIdToFiles == map[] && hashToLock == map[]
      ensures baseLockCache == old(baseLockCache)[ShiftsAsWritten(|old(baseLockCache)|)..]
      ensures forall n :: n in files <==> n in old(files) && !IsStale(n, baseLockCache)
      ensures forall n :: n in files ==> files[n] == old(files)[n]
    {
      FlushMemory();
      TrimAsWritten();
      deleted := Sweep(names);
      StaleNamesExact(names, baseLockCache);
    }
  }

  /** How many `shift`s the loop as written makes on `n` entries: while `i < n - i - 50`. */
  function ShiftsAsWritten(n: nat): (r: nat)
    ensures r <= n
  {
    if n <= BaseLockCacheLimit then 0 else (n - BaseLockCacheLimit + 1) / 2
  }

  /** How many entries the intended trim keeps. */
  function Kept(n: nat): (r: nat)
    ensures r <= n && r <= BaseLockCacheLimit
    ensures n <= BaseLockCacheLimit ==> r == n
  {
    if n <= BaseLockCacheLimit then n else BaseLockCacheLimit
  }

  /** The loop as written keeps `50 + floor((n - 50) / 2)` of `n > 50` entries. */
  lemma TrimAsWrittenKeeps(n: nat)
    requires n > BaseLockCacheLimit
    ensures n - ShiftsAsWritten(n) == BaseLockCacheLimit + (n - BaseLockCacheLimit) / 2
  {
  }

  /** With 60 entries the loop as written leaves 55, not 50. */
  lemma TrimAsWrittenSixty()
    ensures 60 - ShiftsAsWritten(60) == 55
  {
  }
}
