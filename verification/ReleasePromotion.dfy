/** `_release_promotion_source_bundle`: the one byte substitution that relates a stable release to the
    development version it was measured on. */
module ReleasePromotion {
  import opened Wrappers
  import opened Ordering

  const QUOTE := 34
  const SPACE := 32
  const DOT := 46
  const HEAD: Text := [95, 95, 118, 101, 114, 115, 105, 111, 110, 95, 95, 32, 61, 32, 34]   // `__version__ = "`
  const DEV: Text := [46, 100, 101, 118, 48]                                                // `.dev0`

  // ----- byte string primitives

  predicate Occurs(t: Text, p: Text, i: int) {
    0 <= i && i + |p| <= |t| && t[i..i + |p|] == p
  }

  /** `t.find(p, start)`, or -1. */
  function Find(t: Text, p: Text, start: nat): (i: int)
    ensures i == -1 || start <= i
    ensures i >= 0 ==> Occurs(t, p, i)
    ensures forall j | start <= j && (i == -1 || j < i) :: !Occurs(t, p, j)
    decreases |t| - start
  {
    if start + |p| > |t| then -1 else if Occurs(t, p, start) then start else Find(t, p, start + 1)
  }

  /** `t.count(p)` from `start` on: occurrences that do not overlap. */
  function Count(t: Text, p: Text, start: nat): nat
    requires p != []
    decreases |t| - start
  {
    var i := Find(t, p, start);
    if i < 0 then 0 else 1 + Count(t, p, i + |p|)
  }

  /** `t.replace(p, r, 1)` */
  function ReplaceFirst(t: Text, p: Text, r: Text): Text {
    var i := Find(t, p, 0);
    if i < 0 then t else t[..i] + r + t[i + |p|..]
  }

  // ----- version assignments

  predicate Numeric(t: Text) {
    t != [] && (forall i | 0 <= i < |t| :: 48 <= t[i] <= 57) && (t[0] == 48 ==> |t| == 1)
  }

  /** `X.Y.Z` without leading zeros. */
  ghost predicate StableVersion(v: Text) {
    exists i, j :: 0 <= i < j < |v| && v[i] == DOT && v[j] == DOT && Numeric(v[..i]) && Numeric(v[i + 1..j])
      && Numeric(v[j + 1..])
  }

  /** Characters that can stand between the quotes: no space, no quote. */
  predicate Plain(w: Text) {
    w != [] && forall i | 0 <= i < |w| :: w[i] != SPACE && w[i] != QUOTE
  }

  function Assignment(version: Text): Text {
    HEAD + version + [QUOTE]
  }

  lemma StableIsPlain(v: Text)
    requires StableVersion(v)
    ensures Plain(v) && Plain(v + DEV)
  {
    var i, j :| 0 <= i < j < |v| && v[i] == DOT && v[j] == DOT && Numeric(v[..i]) && Numeric(v[i + 1..j])
      && Numeric(v[j + 1..]);
    forall k | 0 <= k < |v| ensures v[k] == DOT || 48 <= v[k] <= 57 { StableCharacter(v, i, j, k); }
  }

  lemma StableCharacter(v: Text, i: nat, j: nat, k: nat)
    requires i < j < |v| && k < |v| && v[i] == DOT && v[j] == DOT
    requires Numeric(v[..i]) && Numeric(v[i + 1..j]) && Numeric(v[j + 1..])
    ensures v[k] == DOT || 48 <= v[k] <= 57
  {
    if k < i { assert v[k] == v[..i][k]; }
    else if i < k < j { assert v[k] == v[i + 1..j][k - i - 1]; }
    else if j < k { assert v[k] == v[j + 1..][k - j - 1]; }
  }

  lemma OccursAt(t: Text, p: Text, i: int, k: int)
    requires Occurs(t, p, i) && 0 <= k < |p|
    ensures t[i + k] == p[k]
  {
    assert t[i..i + |p|][k] == p[k];
  }

  /** An assignment cannot overlap itself: its quotes and the character before the closing one fix it. */
  lemma NoSelfOverlap(version: Text, t: Text, i: int, j: int)
    requires Plain(version) && Occurs(t, Assignment(version), i) && Occurs(t, Assignment(version), j) && i < j
    ensures i + |Assignment(version)| <= j
  {
    var p := Assignment(version);
    if j < i + |p| {
      var k := Border(version, j - i);
      Clash(t, p, i, j, k);
    }
  }

  /** Two overlapping occurrences agree where they overlap. */
  lemma Clash(t: Text, p: Text, i: int, j: int, k: nat)
    requires Occurs(t, p, i) && Occurs(t, p, j) && i < j && j - i + k < |p|
    ensures p[j - i + k] == p[k]
  {
    OccursAt(t, p, i, j - i + k);
    OccursAt(t, p, j, k);
  }

  /** Shifted against itself, an assignment disagrees somewhere. */
  lemma Border(version: Text, s: nat) returns (k: nat)
    requires Plain(version) && 0 < s < |Assignment(version)|
    ensures var p := Assignment(version); s + k < |p| && p[s + k] != p[k]
  {
    var p := Assignment(version);
    var n := |p|;
    assert p[n - 1] == QUOTE && p[14] == QUOTE && p[13] == SPACE;
    assert forall x | 0 <= x < 14 :: p[x] == HEAD[x];
    assert forall x | 14 < x < n - 1 :: p[x] == version[x - 15];
    k := n - 1 - s;
    if p[k] == QUOTE {
      assert k == 14;
      assert p[n - 2] == version[|version| - 1];
      assert p[s + 13] != p[13];
      k := 13;
    } else {
      assert p[s + k] != p[k];
    }
  }

  /** Counted once means found at one place only, when occurrences cannot overlap. */
  lemma CountedOnce(t: Text, version: Text)
    requires Plain(version) && Count(t, Assignment(version), 0) == 1
    ensures Find(t, Assignment(version), 0) >= 0
    ensures forall j :: Occurs(t, Assignment(version), j) <==> j == Find(t, Assignment(version), 0)
  {
    var p := Assignment(version);
    var i := Find(t, p, 0);
    assert Count(t, p, i + |p|) == 0;
    assert Find(t, p, i + |p|) == -1;
    forall j | Occurs(t, p, j) ensures j == i {
      if j > i { NoSelfOverlap(version, t, i, j); }
    }
  }

  lemma FoundOnce(t: Text, p: Text, i: nat)
    requires p != [] && forall j :: Occurs(t, p, j) <==> j == i
    ensures Find(t, p, 0) == i && Count(t, p, 0) == 1
  {
    assert Occurs(t, p, i);
    assert Find(t, p, 0) == i;
    assert Find(t, p, i + |p|) == -1;
  }

  lemma Cut(t: Text, p: Text, i: nat)
    requires Occurs(t, p, i)
    ensures t == t[..i] + p + t[i + |p|..]
  {
  }

  // ----- the substitution

  /** The guard and the rewrite for the version file. */
  ghost function Normalise(payload: Text, current: Text): Option<Text> {
    var stable, development := Assignment(current), Assignment(current + DEV);
    if Count(payload, stable, 0) != 1 || Find(payload, development, 0) >= 0 then None
    else Some(ReplaceFirst(payload, stable, development))
  }

  /** When accepted, exactly one place changes, and the rest of the file keeps its bytes. */
  lemma OnePlace(payload: Text, current: Text) returns (before: Text, after: Text)
    requires StableVersion(current) && Normalise(payload, current).Some?
    ensures payload == before + Assignment(current) + after
    ensures Normalise(payload, current).value == before + Assignment(current + DEV) + after
    ensures forall j :: Occurs(payload, Assignment(current), j) <==> j == |before|
  {
    var stable := Assignment(current);
    StableIsPlain(current);
    CountedOnce(payload, current);
    var i := Find(payload, stable, 0);
    before, after := payload[..i], payload[i + |stable|..];
    Cut(payload, stable, i);
  }

  /** An occurrence beside the replaced middle was there before. */
  lemma OutsideMiddle(before: Text, m: Text, n: Text, after: Text, d: Text, j: int)
    requires Occurs(before + n + after, d, j)
    ensures j + |d| <= |before| ==> Occurs(before + m + after, d, j)
    ensures j >= |before| + |n| ==> Occurs(before + m + after, d, j - |n| + |m|)
  {
    var t, u := before + m + after, before + n + after;
    if j + |d| <= |before| {
      assert u[j..j + |d|] == before[j..j + |d|];
      assert t[j..j + |d|] == before[j..j + |d|];
    }
    if j >= |before| + |n| {
      var x, k := j - |before| - |n|, j - |n| + |m|;
      assert u[j..j + |d|] == after[x..x + |d|];
      assert t[k..k + |d|] == after[x..x + |d|];
    }
  }

  /** In the rewritten file the development assignment occurs exactly once, where the stable one was. */
  lemma DevelopmentOnce(before: Text, after: Text, current: Text, j: int)
    requires StableVersion(current)
    requires Find(before + Assignment(current) + after, Assignment(current + DEV), 0) < 0
    ensures Occurs(before + Assignment(current + DEV) + after, Assignment(current + DEV), j) <==> j == |before|
  {
    var development := Assignment(current + DEV);
    var u, i := before + development + after, |before|;
    assert u[i..i + |development|] == development;
    assert Occurs(u, development, i);
    StableIsPlain(current);
    if Occurs(u, development, j) {
      OutsideMiddle(before, Assignment(current), development, after, development, j);
      if j < i { NoSelfOverlap(current + DEV, u, j, i); }
      if j > i { NoSelfOverlap(current + DEV, u, i, j); }
    }
  }

  /** Substituting the stable assignment back restores the current bytes. */
  lemma Reversible(payload: Text, current: Text)
    requires StableVersion(current) && Normalise(payload, current).Some?
    ensures var u := Normalise(payload, current).value;
            && Count(u, Assignment(current + DEV), 0) == 1
            && ReplaceFirst(u, Assignment(current + DEV), Assignment(current)) == payload
  {
    var before, after := OnePlace(payload, current);
    var u, development := Normalise(payload, current).value, Assignment(current + DEV);
    forall j ensures Occurs(u, development, j) <==> j == |before| { DevelopmentOnce(before, after, current, j); }
    FoundOnce(u, development, |before|);
    assert u[..|before|] == before && u[|before| + |development|..] == after;
  }

  // ----- whole source trees

  /** The bundle the manifest is compared with; no file but the version file changes. */
  ghost function PromotionBundle(files: map<Text, Text>, versionPath: Text, recorded: Text,
                                 current: Text): Option<map<Text, Text>> {
    if !StableVersion(current) || recorded != current + DEV || versionPath !in files then None
    else
      match Normalise(files[versionPath], current)
      case None => None
      case Some(u) => Some(files[versionPath := u])
  }

  /** Distinct current trees never normalise to the same bundle, even across engine versions, because
      the manifest's recorded version fixes the current one. */
  lemma DistinctTreesStayDistinct(a: map<Text, Text>, b: map<Text, Text>, versionPath: Text, recorded: Text, x: Text,
                                  y: Text)
    requires PromotionBundle(a, versionPath, recorded, x).Some? && PromotionBundle(b, versionPath, recorded, y).Some?
    requires PromotionBundle(a, versionPath, recorded, x) == PromotionBundle(b, versionPath, recorded, y)
    ensures a == b && x == y
  {
    assert x == recorded[..|recorded| - |DEV|] && y == recorded[..|recorded| - |DEV|];
    Reversible(a[versionPath], x);
    Reversible(b[versionPath], x);
    var u := PromotionBundle(a, versionPath, recorded, x).value;
    assert u[versionPath] == Normalise(a[versionPath], x).value == Normalise(b[versionPath], x).value;
    forall p ensures p in a <==> p in b {
      assert p in a <==> p in u;
      assert p in b <==> p in u;
    }
    forall p | p in a ensures a[p] == b[p] {
      if p != versionPath { assert a[p] == u[p] && b[p] == u[p]; }
    }
  }

  // ----- when a tree is promoted

  /** The assignment as it stands in the file. */
  function VersionLine(version: Text): Text {
    Chars("__version__ = \"") + version + Chars("\"")
  }

  lemma AssignmentIsLine(version: Text)
    ensures Assignment(version) == VersionLine(version) && DEV == Chars(".dev0")
  {
    assert HEAD == Chars("__version__ = \"") && [QUOTE] == Chars("\"");
  }

  lemma CountedExactly(t: Text, version: Text)
    requires Plain(version)
    ensures Count(t, Assignment(version), 0) == 1 <==> exists i: nat :: OnlyAt(t, Assignment(version), i)
  {
    var p := Assignment(version);
    if Count(t, p, 0) == 1 {
      CountedOnce(t, version);
      assert OnlyAt(t, p, Find(t, p, 0));
    }
    forall i: nat | OnlyAt(t, p, i) ensures Count(t, p, 0) == 1 { FoundOnce(t, p, i); }
  }

  ghost predicate OnlyAt(t: Text, p: Text, i: nat) {
    forall j :: Occurs(t, p, j) <==> j == i
  }

  /** A tree is promoted exactly when the recorded version is the current one, X.Y.Z, followed by `.dev0`, and the
      version file assigns the current version at one place and the recorded one nowhere.  Every other file keeps its
      bytes. */
  lemma PromotedExactly(files: map<Text, Text>, versionPath: Text, recorded: Text, current: Text)
    ensures var r := PromotionBundle(files, versionPath, recorded, current);
            && (r.Some? <==>
                && StableVersion(current) && recorded == current + Chars(".dev0") && versionPath in files
                && (exists i: nat :: OnlyAt(files[versionPath], VersionLine(current), i))
                && (forall j :: !Occurs(files[versionPath], VersionLine(recorded), j)))
            && (r.Some? ==> r.value.Keys == files.Keys && forall p | p in files && p != versionPath ::
                              r.value[p] == files[p])
  {
    AssignmentIsLine(current);
    AssignmentIsLine(recorded);
    if StableVersion(current) && versionPath in files {
      StableIsPlain(current);
      CountedExactly(files[versionPath], current);
      NotFound(files[versionPath], Assignment(current + DEV));
    }
  }

  lemma NotFound(t: Text, p: Text)
    ensures Find(t, p, 0) < 0 <==> forall j :: !Occurs(t, p, j)
  {
    var i := Find(t, p, 0);
    if i >= 0 { assert Occurs(t, p, i); }
  }

  /** What becomes of the version file: the line of the current version turns into that of the recorded one. */
  lemma PromotedFile(files: map<Text, Text>, versionPath: Text, recorded: Text, current: Text)
    returns (before: Text, after: Text)
    requires PromotionBundle(files, versionPath, recorded, current).Some?
    ensures files[versionPath] == before + VersionLine(current) + after
    ensures PromotionBundle(files, versionPath, recorded, current).value[versionPath]
            == before + VersionLine(recorded) + after
  {
    AssignmentIsLine(current);
    AssignmentIsLine(recorded);
    before, after := OnePlace(files[versionPath], current);
  }
}
