/** lib/validate.js: the guards put on every value passed to `git`. Each accepts its
    argument unchanged when the regex matches it and throws otherwise (`None`). The
    module calls `assert` without importing it; the model gives the checks the regexes
    define. */
module Validate {
  import opened Wrappers
  import Js
  import LockName
  import Git

  /** `[A-Za-z0-9\._\-]` */
  predicate IsArgChar(c: char)
  {
    'A' <= c <= 'Z' || 'a' <= c <= 'z' || Js.IsDigit(c) || c == '.' || c == '_' || c == '-'
  }

  predicate AllLowerHex(s: string)
  {
    forall i :: 0 <= i < |s| ==> Js.IsLowerHex(s[i])
  }

  /** `^[0-9a-f]{40}$`: a Git object id. */
  predicate IsId(x: string)
  {
    |x| == 40 && AllLowerHex(x)
  }

  /** `^sha256-[0-9a-f]{64}$`: a content hash. */
  predicate IsHash(x: string)
  {
    |x| == 71 && x[..7] == "sha256-" && AllLowerHex(x[7..])
  }

  /** `^gitlock-\d\d\d-sha256-[0-9a-f]{64}$`: the tag name of a lock. */
  predicate IsTagName(x: string)
  {
    |x| == 83 && x[..8] == "gitlock-" && Js.AllDigits(x[8..11]) && x[11] == '-' && IsHash(x[12..])
  }

  /** `arg`: letters, digits, `.`, `_` and `-`; the empty string passes. */
  function Arg(x: string): (r: Option<string>)
    ensures r.Some? <==> forall i :: 0 <= i < |x| ==> IsArgChar(x[i])
    ensures r.Some? ==> r.value == x
  {
    if forall i :: 0 <= i < |x| ==> IsArgChar(x[i]) then Some(x) else None
  }

  function Id(x: string): (r: Option<string>)
    ensures r.Some? <==> IsId(x)
    ensures r.Some? ==> r.value == x
  {
    if IsId(x) then Some(x) else None
  }

  function Hash(x: string): (r: Option<string>)
    ensures r.Some? <==> IsHash(x)
    ensures r.Some? ==> r.value == x
  {
    if IsHash(x) then Some(x) else None
  }

  function TagName(x: string): (r: Option<string>)
    ensures r.Some? <==> IsTagName(x)
    ensures r.Some? ==> r.value == x
  {
    if IsTagName(x) then Some(x) else None
  }

  /** `idOrHashOrTagName`: `id`, then `hash`, then `tagName`, each tried when the one
      before throws; the exception of the last propagates. */
  function IdOrHashOrTagName(x: string): (r: Option<string>)
    ensures r.Some? <==> IsId(x) || IsHash(x) || IsTagName(x)
    ensures r.Some? ==> r.value == x
  {
    match Id(x)
    case Some(v) => Some(v)
    case None =>
      match Hash(x)
      case Some(v) => Some(v)
      case None => TagName(x)
  }

  /** The three forms have different lengths, so at most one of them accepts a value and
      the order of the cascade does not change its result. */
  lemma FormsDisjoint(x: string)
    ensures !(IsId(x) && IsHash(x)) && !(IsId(x) && IsTagName(x)) && !(IsHash(x) && IsTagName(x))
  {
  }

  /** Everything the strict guards accept also passes `arg`. */
  lemma StrictIsArg(x: string)
    requires IdOrHashOrTagName(x).Some?
    ensures Arg(x).Some?
  {
    forall i | 0 <= i < |x|
      ensures IsArgChar(x[i])
    {
      if IsHash(x) {
        HashChar(x, i);
      } else if IsTagName(x) {
        if i >= 12 {
          HashChar(x[12..], i - 12);
          assert x[i] == x[12..][i - 12];
        } else if i < 8 {
          assert x[i] == x[..8][i];
        } else if i < 11 {
          assert x[i] == x[8..11][i - 8];
        }
      }
    }
  }

  lemma HashChar(x: string, i: nat)
    requires IsHash(x) && i < |x|
    ensures IsArgChar(x[i])
  {
    if i < 7 {
      assert x[i] == x[..7][i];
    } else {
      assert x[i] == x[7..][i - 7];
    }
  }

  /** `getHash` of a valid tag name is a valid hash. */
  lemma TagNameHash(x: string)
    requires IsTagName(x)
    ensures LockName.GetHash(x).Some? && Hash(LockName.GetHash(x).value) == Some(x[12..])
  {
    assert Js.NoLineTerminator(x[12..]) by {
      forall i | 0 <= i < |x[12..]|
        ensures !Js.IsLineTerminator(x[12..][i])
      {
        HashChar(x[12..], i);
      }
    }
  }

  /** A tag name built as `gitlock-` + three digits + `-` + a valid hash is valid, and
      `getHash` gives the hash back. */
  lemma TagNameOf(digits: string, h: string)
    requires |digits| == 3 && Js.AllDigits(digits) && IsHash(h)
    ensures TagName("gitlock-" + digits + "-" + h).Some?
    ensures LockName.GetHash("gitlock-" + digits + "-" + h) == Some(h)
  {
    var x := "gitlock-" + digits + "-" + h;
    assert x[..8] == "gitlock-" && x[8..11] == digits && x[11] == '-' && x[12..] == h;
    TagNameHash(x);
  }

  /** The hex rendering of a 20-byte tree id passes `id`. */
  lemma HexIsId(bytes: seq<Git.byte>)
    requires |bytes| == 20
    ensures Id(Git.Hex(bytes)) == Some(Git.Hex(bytes))
  {
  }
}
