/**
 * The version arithmetic of the release script (scripts/release.js):
 * reading `major.minor.patch`, writing it back, ordering and bumping
 * versions, choosing the next free version against the existing `v*`
 * tags, and reading a command-line flag. Git, npm and the file system
 * are replaced by their results: the tag list is a parameter and a tag
 * exists when it is in that list.
 */
module Release {
  import opened Wrappers
  import opened Ids

  /* ---------------------------------------------------------------- */
  /* Strings                                                            */
  /* ---------------------------------------------------------------- */

  /** The characters `String.prototype.trim` removes: white space and line terminators. */
  predicate IsSpace(c: char) {
    c == ' ' || c == '\t' || c == '\n' || c == '\r' || c == '\U{000B}' || c == '\U{000C}'
    || c == '\U{00A0}' || c == '\U{1680}' || ('\U{2000}' <= c <= '\U{200A}')
    || c == '\U{2028}' || c == '\U{2029}' || c == '\U{202F}' || c == '\U{205F}' || c == '\U{3000}' || c == '\U{FEFF}'
  }

  function TrimStart(s: string): (t: string)
    ensures |t| <= |s| && t == s[|s| - |t|..]
    ensures |t| > 0 ==> !IsSpace(t[0])
    ensures forall k :: 0 <= k < |s| - |t| ==> IsSpace(s[k])
  {
    if |s| > 0 && IsSpace(s[0]) then TrimStart(s[1..]) else s
  }

  function TrimEnd(s: string): (t: string)
    ensures |t| <= |s| && t == s[..|t|]
    ensures |t| > 0 ==> !IsSpace(t[|t| - 1])
    ensures forall k :: |t| <= k < |s| ==> IsSpace(s[k])
  {
    if |s| > 0 && IsSpace(s[|s| - 1]) then TrimEnd(s[..|s| - 1]) else s
  }

  /** `s.trim()`: s without its leading and trailing white space. */
  function Trim(s: string): (t: string)
    ensures |t| > 0 ==> !IsSpace(t[0]) && !IsSpace(t[|t| - 1])
  {
    TrimEnd(TrimStart(s))
  }

  /** The trim is the slice s[i..j] of s, and everything outside that slice is white space. */
  lemma TrimSlice(s: string) returns (i: nat, j: nat)
    ensures i <= j <= |s| && Trim(s) == s[i..j]
    ensures forall k :: 0 <= k < i ==> IsSpace(s[k])
    ensures forall k :: j <= k < |s| ==> IsSpace(s[k])
  {
    var u := TrimStart(s);
    i := |s| - |u|;
    j := i + |TrimEnd(u)|;
    assert u[..|TrimEnd(u)|] == s[i..j];
    forall k | j <= k < |s|
      ensures IsSpace(s[k])
    {
      assert s[k] == u[k - i];
    }
  }

  /** A string that neither starts nor ends with white space is its own trim. */
  lemma TrimNoSpace(s: string)
    requires |s| > 0 ==> !IsSpace(s[0]) && !IsSpace(s[|s| - 1])
    ensures Trim(s) == s
  {
  }

  /** The position of the first c in s. */
  function FirstIndex(s: string, c: char): (i: nat)
    requires c in s
    ensures i < |s| && s[i] == c && c !in s[..i]
  {
    if s[0] == c then 0 else
      assert s == [s[0]] + s[1..];
      var j := FirstIndex(s[1..], c);
      assert s[..j + 1] == [s[0]] + s[1..][..j];
      j + 1
  }

  /** The first c of a + [c] + b where a holds no c is at |a|. */
  lemma {:induction false} FirstIndexAfter(a: string, c: char, b: string)
    requires c !in a
    ensures FirstIndex(a + [c] + b, c) == |a|
    decreases |a|
  {
    var s := a + [c] + b;
    if |a| > 0 {
      assert a[0] in a;
      assert s[1..] == a[1..] + [c] + b;
      assert c !in a[1..] by {
        assert forall k :: 0 <= k < |a| - 1 ==> a[1..][k] == a[k + 1];
      }
      FirstIndexAfter(a[1..], c, b);
    }
  }

  lemma DigitsNoDot(a: string)
    requires AllDigits(a)
    ensures '.' !in a
  {
  }

  /* ---------------------------------------------------------------- */
  /* Versions                                                           */
  /* ---------------------------------------------------------------- */

  datatype Semver = Semver(major: nat, minor: nat, patch: nat)

  /** `${major}.${minor}.${patch}`. */
  function SemverToString(s: Semver): (t: string)
    ensures |t| > 0 && !IsSpace(t[0]) && !IsSpace(t[|t| - 1])
  {
    var t := NatToString(s.major) + "." + NatToString(s.minor) + "." + NatToString(s.patch);
    assert t[0] == NatToString(s.major)[0];
    assert t[|t| - 1] == NatToString(s.patch)[|NatToString(s.patch)| - 1];
    t
  }

  /** t is three non-empty runs of decimal digits joined by dots (`/^(\d+)\.(\d+)\.(\d+)$/`). */
  ghost predicate SemverText(t: string, s: Semver) {
    exists a, b, c :: t == a + "." + b + "." + c && Digits3(a, b, c) && s == Semver(ParseNat(a), ParseNat(b), ParseNat(c))
  }

  predicate Digits3(a: string, b: string, c: string) {
    |a| > 0 && |b| > 0 && |c| > 0 && AllDigits(a) && AllDigits(b) && AllDigits(c)
  }

  /** The three dot-separated parts of t, when there are at least two dots. */
  function Parts(t: string): (r: Option<(string, string, string)>)
    ensures r.Some? ==> t == r.value.0 + "." + r.value.1 + "." + r.value.2
    ensures r.Some? ==> '.' !in r.value.0 && '.' !in r.value.1
  {
    if '.' !in t then None else
      var i := FirstIndex(t, '.');
      var rest := t[i + 1..];
      if '.' !in rest then None else
        var j := FirstIndex(rest, '.');
        SplitAround(t, i);
        SplitAround(rest, j);
        JoinDots(t[..i], rest[..j], rest[j + 1..], t, rest);
        Some((t[..i], rest[..j], rest[j + 1..]))
  }

  lemma SplitAround(t: string, i: nat)
    requires i < |t|
    ensures t == t[..i] + [t[i]] + t[i + 1..]
  {
  }

  lemma JoinDots(a: string, b: string, c: string, t: string, rest: string)
    requires t == a + ['.'] + rest && rest == b + ['.'] + c
    ensures t == a + "." + b + "." + c
  {
  }

  /**
   * `parseSemver`: the trimmed text must be exactly three runs of digits
   * joined by dots, read as numbers (leading zeros allowed); anything else
   * gives null.
   */
  function ParseSemver(v: string): (r: Option<Semver>)
  {
    var p := Parts(Trim(v));
    if p.Some? && Digits3(p.value.0, p.value.1, p.value.2) then
      Some(Semver(ParseNat(p.value.0), ParseNat(p.value.1), ParseNat(p.value.2)))
    else None
  }

  /** The parts of a dotted triple of digit runs are those runs. */
  lemma PartsOf(a: string, b: string, c: string)
    requires Digits3(a, b, c)
    ensures Parts(a + "." + b + "." + c) == Some((a, b, c))
  {
    var t := a + "." + b + "." + c;
    var rest := b + ['.'] + c;
    DigitsNoDot(a);
    DigitsNoDot(b);
    assert t == a + ['.'] + rest;
    FirstIndexAfter(a, '.', rest);
    assert t[..|a|] == a && t[|a| + 1..] == rest;
    assert '.' in rest by {
      assert rest[|b|] == '.';
    }
    FirstIndexAfter(b, '.', c);
    assert rest[..|b|] == b && rest[|b| + 1..] == c;
  }

  /** `parseSemver` accepts exactly the texts that trim to the pattern, and reads their numbers. */
  lemma ParseSemverExact(v: string, s: Semver)
    ensures ParseSemver(v) == Some(s) <==> SemverText(Trim(v), s)
  {
    var t := Trim(v);
    if SemverText(t, s) {
      var a, b, c :| t == a + "." + b + "." + c && Digits3(a, b, c) && s == Semver(ParseNat(a), ParseNat(b), ParseNat(c));
      PartsOf(a, b, c);
    }
    if ParseSemver(v) == Some(s) {
      var p := Parts(t).value;
      assert t == p.0 + "." + p.1 + "." + p.2;
    }
  }

  /** Reading back a written version gives the same version. */
  lemma ParseToString(s: Semver)
    ensures ParseSemver(SemverToString(s)) == Some(s)
  {
    var a, b, c := NatToString(s.major), NatToString(s.minor), NatToString(s.patch);
    TrimNoSpace(SemverToString(s));
    ParseNatToString(s.major);
    ParseNatToString(s.minor);
    ParseNatToString(s.patch);
    PartsOf(a, b, c);
  }

  /** Different versions are written differently. */
  lemma SemverToStringInjective(s: Semver, s': Semver)
    ensures SemverToString(s) == SemverToString(s') <==> s == s'
  {
    ParseToString(s);
    ParseToString(s');
  }

  /** `cmp`: the first non-zero difference of major, minor and patch. */
  function Cmp(a: Semver, b: Semver): (d: int)
  {
    if a.major != b.major then a.major - b.major
    else if a.minor != b.minor then a.minor - b.minor
    else a.patch - b.patch
  }

  /** (major, minor, patch) ordered lexicographically. */
  predicate Newer(a: Semver, b: Semver) {
    a.major > b.major
    || (a.major == b.major && a.minor > b.minor)
    || (a.major == b.major && a.minor == b.minor && a.patch > b.patch)
  }

  /** `cmp` is positive exactly for the lexicographically later version, zero exactly for equal ones, and antisymmetric. */
  lemma CmpOrder(a: Semver, b: Semver)
    ensures Cmp(a, b) > 0 <==> Newer(a, b)
    ensures Cmp(a, b) == 0 <==> a == b
    ensures Cmp(a, b) == -Cmp(b, a)
  {
  }

  lemma CmpTransitive(a: Semver, b: Semver, c: Semver)
    requires Cmp(a, b) > 0 && Cmp(b, c) >= 0
    ensures Cmp(a, c) > 0
  {
  }

  /** `bump`: a major bump zeroes minor and patch, a minor bump zeroes patch, any other kind adds one to patch. */
  function Bump(base: Semver, kind: string): (s: Semver)
    ensures kind == "major" ==> s == Semver(base.major + 1, 0, 0)
    ensures kind == "minor" ==> s == Semver(base.major, base.minor + 1, 0)
    ensures kind != "major" && kind != "minor" ==> s == base.(patch := base.patch + 1)
  {
    if kind == "major" then Semver(base.major + 1, 0, 0)
    else if kind == "minor" then Semver(base.major, base.minor + 1, 0)
    else base.(patch := base.patch + 1)
  }

  /** Every bump gives a strictly later version. */
  lemma BumpNewer(base: Semver, kind: string)
    ensures Cmp(Bump(base, kind), base) > 0
  {
  }

  /* ---------------------------------------------------------------- */
  /* The next version                                                   */
  /* ---------------------------------------------------------------- */

  /** `tagExists(v)`: the tag `v${v}` is among the tags. */
  predicate TagExists(tags: seq<string>, v: string) {
    "v" + v in tags
  }

  /** `t.replace(/^v/, '')`. */
  function StripV(t: string): (u: string)
    ensures |t| > 0 && t[0] == 'v' ==> u == t[1..]
    ensures !(|t| > 0 && t[0] == 'v') ==> u == t
  {
    if |t| > 0 && t[0] == 'v' then t[1..] else t
  }

  /**
   * The version a tag names, if it names one. `git tag --list "v*"` lists
   * only the tags starting with `v`; the loop strips that `v` and parses
   * the rest. Other tags are not listed and name nothing.
   */
  function TagVersion(t: string): (r: Option<Semver>)
    ensures r.Some? ==> StartsWith(t, "v")
  {
    if StartsWith(t, "v") then ParseSemver(StripV(t)) else None
  }

  /** A tag written `v` + version names that version; a tag without the leading `v` names none. */
  lemma TagVersionOfTag(s: Semver, t: string)
    ensures TagVersion("v" + SemverToString(s)) == Some(s)
    ensures !StartsWith(t, "v") ==> TagVersion(t).None?
  {
    var tag := "v" + SemverToString(s);
    assert StartsWith(tag, "v") by {
      assert tag[..1] == "v";
    }
    assert StripV(tag) == SemverToString(s);
    ParseToString(s);
  }

  /** The versions the tags name, in tag order. */
  function Versions(tags: seq<string>): (vs: seq<Option<Semver>>)
    ensures |vs| == |tags| && forall k :: 0 <= k < |tags| ==> vs[k] == TagVersion(tags[k])
  {
    seq(|tags|, k requires 0 <= k < |tags| => TagVersion(tags[k]))
  }

  /**
   * The loop over the tag list: keep a version when it is `cmp`-later than
   * the one kept so far (so the first of equals stays).
   */
  function LatestOf(vs: seq<Option<Semver>>): (latest: Option<Semver>)
  {
    if |vs| == 0 then None else
      var pre := LatestOf(vs[..|vs| - 1]);
      var s := vs[|vs| - 1];
      if s.None? then pre
      else if pre.None? then s
      else if Cmp(s.value, pre.value) > 0 then s else pre
  }

  /** `latestTag` after the loop over the tag list. */
  function LatestTag(tags: seq<string>): Option<Semver> {
    LatestOf(Versions(tags))
  }

  /**
   * The latest version exists exactly when some entry is a version; it is
   * one of the entries and no entry is later.
   */
  lemma {:induction false} LatestOfIsMax(vs: seq<Option<Semver>>)
    ensures LatestOf(vs).Some? <==> exists k :: 0 <= k < |vs| && vs[k].Some?
    ensures LatestOf(vs).Some? ==> LatestOf(vs) in vs
    ensures LatestOf(vs).Some? ==> forall k :: 0 <= k < |vs| && vs[k].Some? ==> Cmp(LatestOf(vs).value, vs[k].value) >= 0
    decreases |vs|
  {
    if |vs| > 0 {
      var init := vs[..|vs| - 1];
      LatestOfIsMax(init);
      assert forall k :: 0 <= k < |init| ==> init[k] == vs[k];
      var pre, s := LatestOf(init), vs[|vs| - 1];
      if pre.Some? {
        assert pre in vs;
      }
      if pre.Some? && s.Some? {
        forall k | 0 <= k < |vs| && vs[k].Some?
          ensures Cmp(LatestOf(vs).value, vs[k].value) >= 0
        {
          if k < |init| {
            CmpGeTransitive(LatestOf(vs).value, pre.value, vs[k].value);
          }
        }
      }
    }
  }

  /**
   * The latest tag exists exactly when some tag names a version; it is the
   * version of one of the tags and no tag's version is later.
   */
  lemma LatestTagIsMax(tags: seq<string>)
    ensures LatestTag(tags).Some? <==> exists k :: 0 <= k < |tags| && TagVersion(tags[k]).Some?
    ensures LatestTag(tags).Some? ==> exists k :: 0 <= k < |tags| && TagVersion(tags[k]) == LatestTag(tags)
    ensures LatestTag(tags).Some? ==> forall k :: 0 <= k < |tags| && TagVersion(tags[k]).Some? ==>
      Cmp(LatestTag(tags).value, TagVersion(tags[k]).value) >= 0
  {
    var vs := Versions(tags);
    LatestOfIsMax(vs);
    assert LatestTag(tags) == LatestOf(vs);
    if LatestOf(vs).Some? {
      var k :| 0 <= k < |vs| && vs[k] == LatestOf(vs);
      assert vs[k] == TagVersion(tags[k]);
      forall j | 0 <= j < |tags| && TagVersion(tags[j]).Some?
        ensures Cmp(LatestOf(vs).value, TagVersion(tags[j]).value) >= 0
      {
        assert vs[j] == TagVersion(tags[j]);
      }
    } else {
      forall k | 0 <= k < |tags|
        ensures TagVersion(tags[k]).None?
      {
        assert vs[k] == TagVersion(tags[k]);
      }
    }
  }

  lemma CmpGeTransitive(a: Semver, b: Semver, c: Semver)
    requires Cmp(a, b) >= 0 && Cmp(b, c) >= 0
    ensures Cmp(a, c) >= 0
  {
  }

  /** The tags of v with patch numbers from p up, written canonically. */
  ghost function TakenFrom(tags: seq<string>, v: Semver): set<string> {
    set k | 0 <= k < |tags| && exists q: nat :: q >= v.patch && tags[k] == "v" + SemverToString(v.(patch := q)) :: tags[k]
  }

  /** Moving to the next patch drops the current version from the tags still ahead. */
  lemma TakenShrinks(tags: seq<string>, v: Semver)
    requires TagExists(tags, SemverToString(v))
    ensures TakenFrom(tags, v.(patch := v.patch + 1)) < TakenFrom(tags, v)
  {
    var cur := "v" + SemverToString(v);
    var k :| 0 <= k < |tags| && tags[k] == cur;
    assert cur in TakenFrom(tags, v);
    if cur in TakenFrom(tags, v.(patch := v.patch + 1)) {
      var q: nat :| q >= v.patch + 1 && cur == "v" + SemverToString(v.(patch := q));
      assert SemverToString(v) == SemverToString(v.(patch := q)) by {
        assert cur[1..] == SemverToString(v);
        assert ("v" + SemverToString(v.(patch := q)))[1..] == SemverToString(v.(patch := q));
      }
      SemverToStringInjective(v, v.(patch := q));
    }
  }

  /** v's canonical text is tagged. */
  predicate Tagged(tags: seq<string>, v: Semver) {
    TagExists(tags, SemverToString(v))
  }

  /** v and every later patch before the returned one are tagged, and the returned one is not. */
  ghost predicate FirstFree(tags: seq<string>, v: Semver, r: Semver) {
    r == v.(patch := r.patch) && r.patch >= v.patch
    && !Tagged(tags, r)
    && forall q: nat :: v.patch <= q < r.patch ==> Tagged(tags, v.(patch := q))
  }

  /** `bump(parseSemver(next), 'patch')` on a canonical `next`. */
  method PatchAfter(r: Semver) returns (r': Semver)
    ensures r' == r.(patch := r.patch + 1)
  {
    ParseToString(r);
    r' := Bump(ParseSemver(SemverToString(r)).value, "patch");
  }

  /** The patch-bump loop of `computeNextVersion`: the first untagged patch of v from v.patch up. */
  method NextFree(tags: seq<string>, v: Semver) returns (r: Semver)
    ensures FirstFree(tags, v, r)
  {
    r := v;
    while Tagged(tags, r)
      invariant r == v.(patch := r.patch) && r.patch >= v.patch
      invariant forall q: nat :: v.patch <= q < r.patch ==> Tagged(tags, v.(patch := q))
      decreases TakenFrom(tags, r)
    {
      TakenShrinks(tags, r);
      r := PatchAfter(r);
    }
  }

  /** `target`: `process.argv[3]` when it is present, non-empty and not a flag. */
  function Target(arg: Option<string>): (t: Option<string>)
    ensures t.Some? <==> arg.Some? && arg.value != "" && !(|arg.value| >= 2 && arg.value[..2] == "--")
    ensures t.Some? ==> t == arg
  {
    if arg.Some? && arg.value != "" && !(|arg.value| >= 2 && arg.value[..2] == "--") then arg else None
  }

  /**
   * `computeNextVersion` in set mode with a target: the target itself when
   * it is not tagged; otherwise the first untagged patch after it, counted
   * from 0.0.0 when the target does not parse.
   */
  method SetVersion(tags: seq<string>, target: string) returns (next: string)
    ensures !TagExists(tags, next)
    ensures !TagExists(tags, target) ==> next == target
    ensures TagExists(tags, target) ==>
      var s := if ParseSemver(target).Some? then ParseSemver(target).value else Semver(0, 0, 0);
      exists r :: next == SemverToString(r) && FirstFree(tags, s.(patch := s.patch + 1), r)
  {
    if !TagExists(tags, target) {
      return target;
    }
    var s := ParseSemver(target);
    var base := if s.Some? then s.value else Semver(0, 0, 0);
    var r := NextFree(tags, Bump(base, "patch"));
    next := SemverToString(r);
  }

  /** `parseSemver(pkg.version) || {0, 1, 0}`. */
  function PackageVersion(pkgVersion: string): Semver {
    var p := ParseSemver(pkgVersion);
    if p.Some? then p.value else Semver(0, 1, 0)
  }

  /** The base of a bump: the latest tag when it is later than the package version, else the package version. */
  function Base(latest: Option<Semver>, pkg: Semver): Semver {
    if latest.Some? && Cmp(latest.value, pkg) > 0 then latest.value else pkg
  }

  function BaseVersion(tags: seq<string>, pkgVersion: string): Semver {
    Base(LatestTag(tags), PackageVersion(pkgVersion))
  }

  /** The base is no earlier than the package version or any version in the list. */
  lemma BaseIsLatest(vs: seq<Option<Semver>>, pkg: Semver)
    ensures Cmp(Base(LatestOf(vs), pkg), pkg) >= 0
    ensures forall k :: 0 <= k < |vs| && vs[k].Some? ==> Cmp(Base(LatestOf(vs), pkg), vs[k].value) >= 0
  {
    LatestOfIsMax(vs);
    var base, latest := Base(LatestOf(vs), pkg), LatestOf(vs);
    forall k | 0 <= k < |vs| && vs[k].Some?
      ensures Cmp(base, vs[k].value) >= 0
    {
      CmpGeTransitive(base, latest.value, vs[k].value);
    }
  }

  /**
   * `computeNextVersion` otherwise: bump the base by the mode, then take
   * the first untagged patch. The result is untagged and later than the
   * package version and every version tag.
   */
  method NextVersion(tags: seq<string>, pkgVersion: string, mode: string) returns (next: string, r: Semver)
    ensures next == SemverToString(r) && FirstFree(tags, Bump(BaseVersion(tags, pkgVersion), mode), r)
    ensures Cmp(r, PackageVersion(pkgVersion)) > 0
    ensures forall k :: 0 <= k < |tags| && TagVersion(tags[k]).Some? ==> Cmp(r, TagVersion(tags[k]).value) > 0
  {
    var base := BaseOf(tags, pkgVersion);
    var bumped := Bump(base, mode);
    r := NextFree(tags, bumped);
    next := SemverToString(r);
    Later(tags, pkgVersion, base, bumped, r, mode);
  }

  method BaseOf(tags: seq<string>, pkgVersion: string) returns (base: Semver)
    ensures base == BaseVersion(tags, pkgVersion)
  {
    var p := ParseSemver(pkgVersion);
    var pkg := if p.Some? then p.value else Semver(0, 1, 0);
    var latest := LatestTag(tags);
    base := if latest.Some? && Cmp(latest.value, pkg) > 0 then latest.value else pkg;
  }

  lemma Later(tags: seq<string>, pkgVersion: string, base: Semver, bumped: Semver, r: Semver, mode: string)
    requires base == BaseVersion(tags, pkgVersion) && bumped == Bump(base, mode)
    requires r == bumped.(patch := r.patch) && r.patch >= bumped.patch
    ensures Cmp(r, PackageVersion(pkgVersion)) > 0
    ensures forall k :: 0 <= k < |tags| && TagVersion(tags[k]).Some? ==> Cmp(r, TagVersion(tags[k]).value) > 0
  {
    var vs := Versions(tags);
    BaseIsLatest(vs, PackageVersion(pkgVersion));
    BumpNewer(base, mode);
    CmpTransitive(r, base, PackageVersion(pkgVersion));
    forall k | 0 <= k < |tags| && TagVersion(tags[k]).Some?
      ensures Cmp(r, TagVersion(tags[k]).value) > 0
    {
      assert vs[k] == TagVersion(tags[k]);
      CmpTransitive(r, base, TagVersion(tags[k]).value);
    }
  }

  /** `computeNextVersion`: set mode with a target, or a bump of the base version. */
  method ComputeNextVersion(tags: seq<string>, pkgVersion: string, mode: string, target: Option<string>)
    returns (next: string)
    ensures !TagExists(tags, next)
    ensures mode == "set" && target.Some? && !TagExists(tags, target.value) ==> next == target.value
    ensures !(mode == "set" && target.Some?) ==> ParseSemver(next).Some?
    ensures !(mode == "set" && target.Some?) && ParseSemver(next).Some? ==>
      forall k :: 0 <= k < |tags| && TagVersion(tags[k]).Some? ==> Cmp(ParseSemver(next).value, TagVersion(tags[k]).value) > 0
  {
    if mode == "set" && target.Some? {
      next := SetVersion(tags, target.value);
    } else {
      ghost var r;
      next, r := NextVersion(tags, pkgVersion, mode);
      ParseToString(r);
    }
  }

  /* ---------------------------------------------------------------- */
  /* Flags                                                              */
  /* ---------------------------------------------------------------- */

  predicate StartsWith(s: string, p: string) {
    |p| <= |s| && s[..|p|] == p
  }

  /** An argument that names the flag: the name itself or `name=…`. */
  predicate Names(a: string, name: string) {
    a == name || StartsWith(a, name + "=")
  }

  /** The first argument naming the flag, if any. */
  function FindFlag(args: seq<string>, name: string): (ix: Option<nat>)
    ensures ix.None? <==> forall k :: 0 <= k < |args| ==> !Names(args[k], name)
    ensures ix.Some? ==> ix.value < |args| && Names(args[ix.value], name)
    ensures ix.Some? ==> forall k :: 0 <= k < ix.value ==> !Names(args[k], name)
  {
    if |args| == 0 then None
    else if Names(args[0], name) then Some(0)
    else
      var r := FindFlag(args[1..], name);
      if r.None? then None else Some(r.value + 1)
  }

  /** `a.split('=')[1]`: the text between the first `=` and the next one (or the end). */
  function SecondField(a: string): (f: string)
    requires '=' in a
    ensures '=' !in f
  {
    var rest := a[FirstIndex(a, '=') + 1..];
    if '=' in rest then rest[..FirstIndex(rest, '=')] else rest
  }

  /**
   * `getFlag`: undefined without a naming argument; the second `=` field of
   * one holding `=`; otherwise the next argument unless it is missing,
   * empty or a flag, in which case "".
   */
  function GetFlag(args: seq<string>, name: string): (v: Option<string>)
    ensures v.None? <==> forall k :: 0 <= k < |args| ==> !Names(args[k], name)
  {
    var ix := FindFlag(args, name);
    if ix.None? then None
    else
      var a := args[ix.value];
      if '=' in a then Some(SecondField(a))
      else if ix.value + 1 < |args| && args[ix.value + 1] != "" && !StartsWith(args[ix.value + 1], "--") then Some(args[ix.value + 1])
      else Some("")
  }

  /** `--name=value` reads back value when the name and value hold no `=`. */
  lemma GetFlagInline(before: seq<string>, name: string, value: string, after: seq<string>)
    requires forall k :: 0 <= k < |before| ==> !Names(before[k], name)
    requires '=' !in name && '=' !in value
    ensures GetFlag(before + [name + "=" + value] + after, name) == Some(value)
  {
    var args := before + [name + "=" + value] + after;
    var a := name + "=" + value;
    assert args[|before|] == a;
    assert StartsWith(a, name + "=") by {
      assert a[..|name + "="|] == name + "=";
    }
    var ix := FindFlag(args, name);
    assert ix.Some? && ix.value == |before| by {
      assert forall k :: 0 <= k < |before| ==> args[k] == before[k];
    }
    assert a == name + ['='] + value;
    FirstIndexAfter(name, '=', value);
    assert a[|name| + 1..] == value;
  }

  /** `--name value` reads back value when the value is not empty and not a flag. */
  lemma GetFlagSeparate(before: seq<string>, name: string, value: string, after: seq<string>)
    requires forall k :: 0 <= k < |before| ==> !Names(before[k], name)
    requires '=' !in name && value != "" && !StartsWith(value, "--")
    ensures GetFlag(before + [name, value] + after, name) == Some(value)
  {
    var args := before + [name, value] + after;
    assert args[|before|] == name && args[|before| + 1] == value;
    var ix := FindFlag(args, name);
    assert ix.Some? && ix.value == |before| by {
      assert forall k :: 0 <= k < |before| ==> args[k] == before[k];
    }
  }

  /** `--name` read as a separate flag gives "" when it is last, or followed by "" or by another flag. */
  lemma GetFlagEmpty(before: seq<string>, name: string, after: seq<string>)
    requires forall k :: 0 <= k < |before| ==> !Names(before[k], name)
    requires '=' !in name
    requires |after| == 0 || after[0] == "" || StartsWith(after[0], "--")
    ensures GetFlag(before + [name] + after, name) == Some("")
  {
    var args := before + [name] + after;
    assert args[|before|] == name;
    var ix := FindFlag(args, name);
    assert ix.Some? && ix.value == |before| by {
      assert forall k :: 0 <= k < |before| ==> args[k] == before[k];
    }
    if |after| > 0 {
      assert args[|before| + 1] == after[0];
    }
  }
}
