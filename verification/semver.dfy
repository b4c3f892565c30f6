/**
 * The part of node-semver that the release decision calls: `valid`,
 * `prerelease` and `inc` (with the strict parser and the formatter behind
 * them), and the precedence order `compare` under which an increment moves a
 * version strictly forward (Semantic Versioning 2.0.0, items 2, 6-9 and 11).
 * The behaviour is that of node-semver 6.x and the early 7.x releases, whose
 * `inc` does not check the pre-release identifier it is given.
 */
module Semver {
  import opened Wrappers
  import opened Strings

  /** A pre-release identifier: node-semver keeps numeric ones as numbers, the rest as strings. */
  datatype Ident = Num(n: nat) | Alpha(s: string)

  /** MAJOR.MINOR.PATCH and the dot-separated pre-release identifiers (empty for a final version). */
  datatype Version = Version(major: nat, minor: nat, patch: nat, pre: seq<Ident>)

  predicate IsIdentChar(c: char) {
    IsDigit(c) || 'a' <= c <= 'z' || 'A' <= c <= 'Z' || c == '-'
  }

  predicate IsIdentChars(s: string) { forall i :: 0 <= i < |s| ==> IsIdentChar(s[i]) }

  /** A non-numeric identifier: [0-9A-Za-z-]+ with at least one character that is not a digit. */
  predicate IsAlphanumericId(s: string) { |s| > 0 && IsIdentChars(s) && !AllDigits(s) }

  /** A build-metadata identifier: [0-9A-Za-z-]+ */
  predicate IsBuildId(s: string) { |s| > 0 && IsIdentChars(s) }

  predicate WellFormedIdent(id: Ident) { id.Alpha? ==> IsAlphanumericId(id.s) }

  predicate WellFormedIdents(ids: seq<Ident>) {
    forall k :: 0 <= k < |ids| ==> WellFormedIdent(ids[k])
  }

  /** A version that a strict parse can produce (every string identifier is a legal one). */
  predicate WellFormed(v: Version) { WellFormedIdents(v.pre) }

  // ---------------------------------------------------------------- formatting

  function FormatIdent(id: Ident): string {
    match id
    case Num(n) => NatToString(n)
    case Alpha(s) => s
  }

  /** ids.join('.') */
  function FormatIdents(ids: seq<Ident>): string
    decreases |ids|
  {
    if |ids| == 0 then ""
    else if |ids| == 1 then FormatIdent(ids[0])
    else FormatIdent(ids[0]) + "." + FormatIdents(ids[1..])
  }

  /** The numeric triple as a list of identifiers, so that it is written `major.minor.patch`. */
  function Triple(v: Version): seq<Ident> { [Num(v.major), Num(v.minor), Num(v.patch)] }

  /** SemVer.format(): `major.minor.patch`, then `-` and the pre-release list; build metadata is dropped. */
  function Format(v: Version): string {
    FormatIdents(Triple(v)) + (if v.pre == [] then "" else "-" + FormatIdents(v.pre))
  }

  // ------------------------------------------------------------------- parsing

  /** One identifier: a canonical numeral becomes a number, any other legal identifier stays a string. */
  function ParseIdent(s: string): (r: Option<Ident>)
    ensures r.Some? ==> WellFormedIdent(r.value)
  {
    if IsNumeral(s) then Some(Num(DigitsValue(s)))
    else if IsAlphanumericId(s) then Some(Alpha(s))
    else None
  }

  /** s.split('.') with every part an identifier; no part may be empty. */
  function ParseIdents(s: string): (r: Option<seq<Ident>>)
    ensures r.Some? ==> |r.value| > 0 && WellFormedIdents(r.value)
    decreases |s|
  {
    var i := IndexOf(s, '.');
    match ParseIdent(s[..i])
    case None => None
    case Some(id) =>
      if i == |s| then Some([id])
      else
        match ParseIdents(s[i + 1..])
        case None => None
        case Some(rest) => Some([id] + rest)
  }

  /** Dot-separated build identifiers. */
  predicate IsBuild(s: string)
    decreases |s|
  {
    var i := IndexOf(s, '.');
    IsBuildId(s[..i]) && (i == |s| || IsBuild(s[i + 1..]))
  }

  /**
   * semver.parse(s) in strict mode: an optional `v`, three canonical numerals,
   * optionally `-` and pre-release identifiers, optionally `+` and build
   * identifiers, and nothing else.
   */
  function Parse(s: string): (r: Option<Version>)
    ensures r.Some? ==> WellFormed(r.value)
  {
    var t := if |s| > 0 && s[0] == 'v' then s[1..] else s;
    var plus := IndexOf(t, '+');
    if plus < |t| && !IsBuild(t[plus + 1..]) then None
    else ParseMain(t[..plus])
  }

  /** The version proper, between the optional `v` and the build metadata. */
  function ParseMain(main: string): (r: Option<Version>)
    ensures r.Some? ==> WellFormed(r.value)
  {
    var dash := IndexOf(main, '-');
    match ParseIdents(main[..dash])
    case None => None
    case Some(core) =>
      if |core| != 3 || !core[0].Num? || !core[1].Num? || !core[2].Num? then None
      else if dash == |main| then Some(Version(core[0].n, core[1].n, core[2].n, []))
      else
        match ParseIdents(main[dash + 1..])
        case None => None
        case Some(pre) => Some(Version(core[0].n, core[1].n, core[2].n, pre))
  }

  /** semver.valid(s) is not null */
  predicate Valid(s: string) { Parse(s).Some? }

  /** semver.prerelease(s) is not null: s is valid and carries pre-release identifiers */
  predicate IsPrerelease(s: string) { Parse(s).Some? && Parse(s).value.pre != [] }

  lemma FormatIdentRoundTrip(id: Ident)
    requires WellFormedIdent(id)
    ensures ParseIdent(FormatIdent(id)) == Some(id)
    ensures |FormatIdent(id)| > 0 && IsIdentChars(FormatIdent(id))
    ensures id.Num? ==> AllDigits(FormatIdent(id))
  {
    match id
    case Num(n) => NatToStringRoundTrip(n);
    case Alpha(s) =>
  }

  lemma {:induction false} FormatIdentsChars(ids: seq<Ident>)
    requires WellFormedIdents(ids)
    ensures forall k :: 0 <= k < |FormatIdents(ids)| ==>
              FormatIdents(ids)[k] == '.' || IsIdentChar(FormatIdents(ids)[k])
    decreases |ids|
  {
    if |ids| > 0 {
      FormatIdentRoundTrip(ids[0]);
      if |ids| > 1 {
        FormatIdentsChars(ids[1..]);
      }
    }
  }

  /** A single identifier without a dot parses on its own. */
  lemma ParseIdentsSingle(head: string, id: Ident)
    requires '.' !in head && ParseIdent(head) == Some(id)
    ensures ParseIdents(head) == Some([id])
  {
    IndexOfAbsent(head, '.');
    assert head[..|head|] == head;
  }

  /** The first dot splits off the first identifier. */
  lemma ParseIdentsCons(head: string, tail: string, id: Ident, rest: seq<Ident>)
    requires '.' !in head && ParseIdent(head) == Some(id)
    requires ParseIdents(tail) == Some(rest)
    ensures ParseIdents(head + "." + tail) == Some([id] + rest)
  {
    var s := head + "." + tail;
    assert s == head + ['.'] + tail;
    IndexOfFirst(head, '.', tail);
    assert s[..|head|] == head;
    assert s[|head| + 1..] == tail;
  }

  lemma ParseFormatOne(id: Ident)
    requires WellFormedIdent(id)
    ensures ParseIdents(FormatIdents([id])) == Some([id])
  {
    FormatIdentRoundTrip(id);
    assert '.' !in FormatIdent(id);
    ParseIdentsSingle(FormatIdent(id), id);
  }

  lemma FormatIdentsCons(id: Ident, rest: seq<Ident>)
    requires |rest| > 0
    ensures FormatIdents([id] + rest) == FormatIdent(id) + "." + FormatIdents(rest)
  {
    var ids := [id] + rest;
    assert ids[0] == id && ids[1..] == rest;
  }

  lemma NoDotInIdent(id: Ident)
    requires WellFormedIdent(id)
    ensures '.' !in FormatIdent(id) && ParseIdent(FormatIdent(id)) == Some(id)
  {
    FormatIdentRoundTrip(id);
  }

  lemma ParseFormatCons(id: Ident, rest: seq<Ident>)
    requires WellFormedIdent(id) && |rest| > 0
    requires ParseIdents(FormatIdents(rest)) == Some(rest)
    ensures ParseIdents(FormatIdents([id] + rest)) == Some([id] + rest)
  {
    FormatIdentsCons(id, rest);
    NoDotInIdent(id);
    ParseIdentsCons(FormatIdent(id), FormatIdents(rest), id, rest);
  }

  lemma {:induction false} ParseFormatIdents(ids: seq<Ident>)
    requires |ids| > 0 && WellFormedIdents(ids)
    ensures ParseIdents(FormatIdents(ids)) == Some(ids)
    decreases |ids|
  {
    if |ids| == 1 {
      ParseFormatOne(ids[0]);
      assert [ids[0]] == ids;
    } else {
      ParseFormatIdents(ids[1..]);
      ParseFormatCons(ids[0], ids[1..]);
      assert [ids[0]] + ids[1..] == ids;
    }
  }

  lemma {:induction false} FormatNumsChars(ids: seq<Ident>)
    requires forall k :: 0 <= k < |ids| ==> ids[k].Num?
    ensures forall k :: 0 <= k < |FormatIdents(ids)| ==>
              FormatIdents(ids)[k] == '.' || IsDigit(FormatIdents(ids)[k])
    ensures |ids| > 0 ==> IsDigit(FormatIdents(ids)[0])
    decreases |ids|
  {
    if |ids| > 0 {
      FormatIdentRoundTrip(ids[0]);
      if |ids| > 1 {
        FormatNumsChars(ids[1..]);
      }
    }
  }

  /** Without a leading `v` and without `+`, the whole string is the version proper. */
  lemma ParsePlain(s: string)
    requires |s| > 0 && s[0] != 'v' && '+' !in s
    ensures Parse(s) == ParseMain(s)
  {
    IndexOfAbsent(s, '+');
    assert s[..|s|] == s;
  }

  lemma ParseMainFinal(v: Version, core: string)
    requires v.pre == []
    requires ParseIdents(core) == Some(Triple(v))
    requires '-' !in core
    ensures ParseMain(core) == Some(v)
  {
    IndexOfAbsent(core, '-');
    assert core[..|core|] == core;
  }

  lemma ParseMainPre(v: Version, core: string, p: string)
    requires v.pre != []
    requires ParseIdents(core) == Some(Triple(v))
    requires ParseIdents(p) == Some(v.pre)
    requires '-' !in core
    ensures ParseMain(core + "-" + p) == Some(v)
  {
    var s := core + "-" + p;
    IndexOfFirst(core, '-', p);
    var dash := IndexOf(s, '-');
    assert dash == |core| && dash < |s|;
    assert s[..dash] == core;
    assert s[dash + 1..] == p;
    assert ParseIdents(s[..dash]) == Some(Triple(v));
    assert ParseIdents(s[dash + 1..]) == Some(v.pre);
  }

  /** A malformed pre-release part makes the whole version invalid. */
  lemma ParseMainBadPre(core: string, p: string)
    requires '-' !in core && ParseIdents(p).None?
    ensures ParseMain(core + "-" + p).None?
  {
    var s := core + "-" + p;
    IndexOfFirst(core, '-', p);
    assert s[..|core|] == core;
    assert s[|core| + 1..] == p;
  }

  lemma NoPlusInFormat(core: string, p: string)
    requires forall k :: 0 <= k < |core| ==> core[k] == '.' || IsDigit(core[k])
    requires forall k :: 0 <= k < |p| ==> p[k] == '.' || IsIdentChar(p[k])
    ensures '+' !in core + "-" + p
  {
    var s := core + "-" + p;
    forall k | 0 <= k < |s| ensures s[k] != '+' {
      if k < |core| { assert s[k] == core[k]; }
      else if k > |core| { assert s[k] == p[k - |core| - 1]; }
    }
  }

  /** Every well-formed version survives formatting and parsing again. */
  lemma ParseFormat(v: Version)
    requires WellFormed(v)
    ensures Parse(Format(v)) == Some(v)
  {
    FormatNumsChars(Triple(v));
    ParseFormatIdents(Triple(v));
    var core := FormatIdents(Triple(v));
    assert '-' !in core && '+' !in core;
    if v.pre == [] {
      assert Format(v) == core;
      ParsePlain(core);
      ParseMainFinal(v, core);
    } else {
      var p := FormatIdents(v.pre);
      FormatIdentsChars(v.pre);
      ParseFormatIdents(v.pre);
      assert Format(v) == core + "-" + p;
      assert Format(v)[0] == core[0];
      NoPlusInFormat(core, p);
      ParsePlain(Format(v));
      ParseMainPre(v, core, p);
    }
  }

  // ---------------------------------------------------------------- increments

  /** The release types index.ts passes to semver.inc. */
  datatype Bump = Major | Minor | Patch | PreMajor | PreMinor | PrePatch | PreRelease

  predicate IsPreKind(kind: Bump) { kind.PreMajor? || kind.PreMinor? || kind.PrePatch? }

  /**
   * The pre-release list a pre-increment starts from. node-semver first sets it
   * to [0]; a non-empty identifier then replaces it by [identifier, 0], since
   * the number 0 never equals the identifier string. An empty identifier is
   * falsy in JavaScript and is ignored.
   */
  function FirstPre(identifier: string): seq<Ident> {
    if identifier == "" then [Num(0)] else [Alpha(identifier), Num(0)]
  }

  /** ids[k] is the last numeric identifier: every identifier after it is a string. */
  predicate IsLastNum(ids: seq<Ident>, k: int) {
    0 <= k < |ids| && ids[k].Num? && forall j :: k < j < |ids| ==> ids[j].Alpha?
  }

  /**
   * Increment the last numeric identifier, leaving every other identifier as
   * it is; None when there is no numeric one.
   */
  function BumpLastNum(ids: seq<Ident>): (r: Option<seq<Ident>>)
    ensures r.None? <==> forall k :: 0 <= k < |ids| ==> ids[k].Alpha?
    ensures r.Some? ==> exists k :: IsLastNum(ids, k) && r.value == ids[k := Num(ids[k].n + 1)]
    decreases |ids|
  {
    if ids == [] then None
    else
      var last := ids[|ids| - 1];
      match last
      case Num(n) =>
        BumpAtEnd(ids);
        Some(ids[..|ids| - 1] + [Num(n + 1)])
      case Alpha(_) =>
        match BumpLastNum(ids[..|ids| - 1])
        case None =>
          assert forall k :: 0 <= k < |ids| - 1 ==> ids[..|ids| - 1][k] == ids[k];
          None
        case Some(init) =>
          BumpBeforeString(ids, ids[..|ids| - 1], init);
          Some(init + [last])
  }

  /** A numeric identifier at the end is the last numeric one. */
  lemma BumpAtEnd(ids: seq<Ident>)
    requires |ids| > 0 && ids[|ids| - 1].Num?
    ensures var k := |ids| - 1;
            IsLastNum(ids, k) && ids[..k] + [Num(ids[k].n + 1)] == ids[k := Num(ids[k].n + 1)]
  {
  }

  /** A string identifier at the end leaves the last numeric identifier where it was. */
  lemma BumpBeforeString(ids: seq<Ident>, front: seq<Ident>, init: seq<Ident>)
    requires |ids| > 0 && ids[|ids| - 1].Alpha? && front == ids[..|ids| - 1]
    requires exists k :: IsLastNum(front, k) && init == front[k := Num(front[k].n + 1)]
    ensures exists k :: IsLastNum(ids, k) && init + [ids[|ids| - 1]] == ids[k := Num(ids[k].n + 1)]
  {
    var k :| IsLastNum(front, k) && init == front[k := Num(front[k].n + 1)];
    assert front[k] == ids[k];
    assert init + [ids[|ids| - 1]] == ids[k := Num(ids[k].n + 1)];
    assert IsLastNum(ids, k);
  }

  /** The `pre` step of SemVer.inc on a non-empty list: bump the last number, else append 0. */
  function BumpPre(ids: seq<Ident>): seq<Ident> {
    match BumpLastNum(ids)
    case Some(r) => r
    case None => ids + [Num(0)]
  }

  /**
   * SemVer.inc(kind, identifier). The identifier matters only for the
   * pre-increments that start a new pre-release list; index.ts never passes
   * one with `prerelease`.
   */
  function Inc(v: Version, kind: Bump, identifier: string): Version
    requires kind.PreRelease? ==> identifier == ""
  {
    match kind
    case Major =>
      // 1.0.0-5 becomes 1.0.0: a major pre-release is completed, not skipped
      Version(if v.minor != 0 || v.patch != 0 || v.pre == [] then v.major + 1 else v.major, 0, 0, [])
    case Minor =>
      Version(v.major, if v.patch != 0 || v.pre == [] then v.minor + 1 else v.minor, 0, [])
    case Patch =>
      Version(v.major, v.minor, if v.pre == [] then v.patch + 1 else v.patch, [])
    case PreMajor => Version(v.major + 1, 0, 0, FirstPre(identifier))
    case PreMinor => Version(v.major, v.minor + 1, 0, FirstPre(identifier))
    case PrePatch => Version(v.major, v.minor, v.patch + 1, FirstPre(identifier))
    case PreRelease =>
      if v.pre == [] then Version(v.major, v.minor, v.patch + 1, [Num(0)])
      else v.(pre := BumpPre(v.pre))
  }

  /** semver.inc(name, kind, identifier): null (None) when name is not a valid version. */
  function IncTag(name: string, kind: Bump, identifier: string): (r: Option<string>)
    requires kind.PreRelease? ==> identifier == ""
    ensures r.Some? <==> Valid(name)
    ensures r.Some? && (identifier == "" || IsAlphanumericId(identifier)) ==>
              Valid(r.value) && Precedes(Parse(name).value, Parse(r.value).value)
  {
    match Parse(name)
    case None => None
    case Some(v) =>
      var w := Inc(v, kind, identifier);
      IncIncreases(v, kind, identifier);
      if identifier == "" || IsAlphanumericId(identifier) then
        IncPreservesWellFormed(v, kind, identifier);
        ParseFormat(w);
        Some(Format(w))
      else
        Some(Format(w))
  }

  // ---------------------------------------------------------------- precedence

  /** compareIdentifiers(a, b) < 0: numbers below strings, numbers by value, strings by code unit. */
  predicate IdentLess(a: Ident, b: Ident) {
    match (a, b)
    case (Num(x), Num(y)) => x < y
    case (Num(_), Alpha(_)) => true
    case (Alpha(_), Num(_)) => false
    case (Alpha(x), Alpha(y)) => StrLess(x, y)
  }

  /** Identifier lists compared left to right; a proper prefix is the smaller one. */
  predicate IdsLess(x: seq<Ident>, y: seq<Ident>)
    decreases |x|
  {
    if y == [] then false
    else if x == [] then true
    else if x[0] == y[0] then IdsLess(x[1..], y[1..])
    else IdentLess(x[0], y[0])
  }

  /** comparePre(x, y) < 0: a pre-release is below the final version of the same triple. */
  predicate PreLess(x: seq<Ident>, y: seq<Ident>) {
    if x == [] then false
    else if y == [] then true
    else IdsLess(x, y)
  }

  /** semver.compare(a, b) < 0 */
  predicate Precedes(a: Version, b: Version) {
    || a.major < b.major
    || (a.major == b.major && a.minor < b.minor)
    || (a.major == b.major && a.minor == b.minor && a.patch < b.patch)
    || (a.major == b.major && a.minor == b.minor && a.patch == b.patch && PreLess(a.pre, b.pre))
  }

  lemma {:induction false} IdsLessIrreflexive(x: seq<Ident>)
    ensures !IdsLess(x, x)
    decreases |x|
  {
    if x != [] {
      IdsLessIrreflexive(x[1..]);
    }
  }

  /** No version precedes itself, so an increment that precedes its result really moved. */
  lemma PrecedesIrreflexive(v: Version)
    ensures !Precedes(v, v)
  {
    IdsLessIrreflexive(v.pre);
  }

  lemma {:induction false} IdsLessProperPrefix(x: seq<Ident>, tail: seq<Ident>)
    requires tail != []
    ensures IdsLess(x, x + tail)
    decreases |x|
  {
    if x != [] {
      assert (x + tail)[0] == x[0] && (x + tail)[1..] == x[1..] + tail;
      IdsLessProperPrefix(x[1..], tail);
    }
  }

  lemma {:induction false} IdsLessSnoc(x: seq<Ident>, y: seq<Ident>, a: Ident)
    requires |x| == |y| && IdsLess(x, y)
    ensures IdsLess(x + [a], y + [a])
    decreases |x|
  {
    assert (x + [a])[0] == x[0] && (y + [a])[0] == y[0];
    if x[0] == y[0] {
      assert (x + [a])[1..] == x[1..] + [a] && (y + [a])[1..] == y[1..] + [a];
      IdsLessSnoc(x[1..], y[1..], a);
    }
  }

  lemma {:induction false} IdsLessLastNum(init: seq<Ident>, n: nat)
    ensures IdsLess(init + [Num(n)], init + [Num(n + 1)])
    decreases |init|
  {
    var x, y := init + [Num(n)], init + [Num(n + 1)];
    if init != [] {
      assert x[0] == y[0] && x[1..] == init[1..] + [Num(n)] && y[1..] == init[1..] + [Num(n + 1)];
      IdsLessLastNum(init[1..], n);
    }
  }

  lemma {:induction false} BumpPreIncreases(ids: seq<Ident>)
    requires ids != []
    ensures IdsLess(ids, BumpPre(ids))
  {
    match BumpLastNum(ids)
    case None => IdsLessProperPrefix(ids, [Num(0)]);
    case Some(r) => BumpLastNumIncreases(ids);
  }

  lemma {:induction false} BumpLastNumIncreases(ids: seq<Ident>)
    requires BumpLastNum(ids).Some?
    ensures IdsLess(ids, BumpLastNum(ids).value)
    decreases |ids|
  {
    var init, last := ids[..|ids| - 1], ids[|ids| - 1];
    assert ids == init + [last];
    match last
    case Num(n) => IdsLessLastNum(init, n);
    case Alpha(_) =>
      BumpLastNumIncreases(init);
      IdsLessSnoc(init, BumpLastNum(init).value, last);
  }

  /** Every increment moves a version strictly forward in precedence. */
  lemma IncIncreases(v: Version, kind: Bump, identifier: string)
    requires kind.PreRelease? ==> identifier == ""
    ensures Precedes(v, Inc(v, kind, identifier))
  {
    if kind.PreRelease? && v.pre != [] {
      BumpPreIncreases(v.pre);
      assert BumpPre(v.pre) != [];
    }
  }

  lemma IncPreservesWellFormed(v: Version, kind: Bump, identifier: string)
    requires kind.PreRelease? ==> identifier == ""
    requires WellFormed(v) && (identifier == "" || IsAlphanumericId(identifier))
    ensures WellFormed(Inc(v, kind, identifier))
  {
  }

  /**
   * Items 6-8 of Semantic Versioning: on a final version, patch, minor and
   * major raise their own component, reset the lower ones to zero and leave no
   * pre-release part.
   */
  lemma IncFinal(v: Version)
    requires v.pre == []
    ensures Inc(v, Patch, "") == Version(v.major, v.minor, v.patch + 1, [])
    ensures Inc(v, Minor, "") == Version(v.major, v.minor + 1, 0, [])
    ensures Inc(v, Major, "") == Version(v.major + 1, 0, 0, [])
  {
  }

  /** A release-candidate version `X.Y.Z-id.k` advances to `X.Y.Z-id.(k+1)`. */
  lemma IncCandidate(v: Version, id: string)
    requires |v.pre| == 2 && v.pre[0] == Alpha(id) && v.pre[1].Num?
    ensures Inc(v, PreRelease, "") == Version(v.major, v.minor, v.patch, [Alpha(id), Num(v.pre[1].n + 1)])
  {
    assert v.pre == [Alpha(id), Num(v.pre[1].n)];
    assert v.pre[..1] == [Alpha(id)];
  }

  /** On a valid tag, semver.inc formats the incremented version. */
  lemma IncTagOfValid(name: string, v: Version, kind: Bump, identifier: string)
    requires kind.PreRelease? ==> identifier == ""
    requires Parse(name) == Some(v)
    ensures IncTag(name, kind, identifier) == Some(Format(Inc(v, kind, identifier)))
  {
  }

  /** An increment of a parsed version, with a legal identifier, formats to a tag that parses back. */
  lemma ParseFormatInc(v: Version, kind: Bump, identifier: string)
    requires kind.PreRelease? ==> identifier == ""
    requires WellFormed(v) && (identifier == "" || IsAlphanumericId(identifier))
    ensures Parse(Format(Inc(v, kind, identifier))) == Some(Inc(v, kind, identifier))
  {
    IncPreservesWellFormed(v, kind, identifier);
    ParseFormat(Inc(v, kind, identifier));
  }
}
