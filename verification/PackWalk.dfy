/** The two enumerations of one verifier pack: the checkout walk of `_pack_inventory`, which lists the
    files of a directory before it descends, and the raw-Git side of `_raw_pack_identity`, which
    sorts whole paths.  Names and paths are UTF-8 byte strings. */
module PackWalk {
  import opened Wrappers
  import opened Ordering
  import opened Paths
  import opened Framing

  datatype Dir = Dir(files: map<Text, Text>, dirs: map<Text, Dir>)

  predicate IsName(n: Text) {
    n != [] && SLASH !in n
  }

  ghost predicate WellFormed(d: Dir)
    decreases d
  {
    && (forall n | n in d.files :: IsName(n))
    && (forall n | n in d.dirs :: IsName(n) && n !in d.files && WellFormed(d.dirs[n]))
  }

  ghost predicate HasFile(d: Dir)
    decreases d
  {
    d.files != map[] || exists n | n in d.dirs :: HasFile(d.dirs[n])
  }

  ghost predicate NoEmptyDirectories(d: Dir)
    decreases d
  {
    forall n | n in d.dirs :: HasFile(d.dirs[n]) && NoEmptyDirectories(d.dirs[n])
  }

  // ----- what is at a path

  function FileAt(d: Dir, q: Text): Option<Text>
    decreases |q|
  {
    var k := FirstSlash(q);
    if k == |q| then (if q in d.files then Some(d.files[q]) else None)
    else if q[..k] in d.dirs then FileAt(d.dirs[q[..k]], q[k + 1..]) else None
  }

  function DirAt(d: Dir, q: Text): Option<Dir>
    decreases |q|
  {
    var k := FirstSlash(q);
    if k == |q| then (if q in d.dirs then Some(d.dirs[q]) else None)
    else if q[..k] in d.dirs then DirAt(d.dirs[q[..k]], q[k + 1..]) else None
  }

  lemma FirstSlashOf(n: Text, rest: Text)
    requires SLASH !in n
    ensures FirstSlash(n) == |n| && FirstSlash(n + [SLASH] + rest) == |n|
  {
    var t := n + [SLASH] + rest;
    forall i | 0 <= i < |n| ensures n[i] != SLASH { assert n[i] in n; }
    assert t[|n|] == SLASH && forall i | 0 <= i < |n| :: t[i] == n[i];
  }

  lemma Enter(d: Dir, n: Text, rest: Text)
    requires IsName(n)
    ensures FileAt(d, n + [SLASH] + rest) == if n in d.dirs then FileAt(d.dirs[n], rest) else None
    ensures DirAt(d, n + [SLASH] + rest) == if n in d.dirs then DirAt(d.dirs[n], rest) else None
  {
    FirstSlashOf(n, rest);
    var t := n + [SLASH] + rest;
    assert t[..|n|] == n && t[|n| + 1..] == rest;
  }

  // ----- the checkout walk

  ghost function SortedNames<V>(m: map<Text, V>): (s: seq<Text>)
    ensures Sorted(s) && forall n :: n in s <==> n in m
  {
    var s := Sort(m.Keys);
    assert forall n :: n in s <==> n in Elements(s);
    s
  }

  ghost function OwnFiles(prefix: Text, d: Dir, names: seq<Text>): seq<Labelled>
    requires forall n | n in names :: n in d.files
  {
    if names == [] then [] else [Labelled(prefix + names[0], d.files[names[0]])] + OwnFiles(prefix, d, names[1..])
  }

  ghost function WalkFiles(prefix: Text, d: Dir): seq<Labelled>
    decreases d, 1, 0
  {
    OwnFiles(prefix, d, SortedNames(d.files)) + FilesBelow(prefix, d, SortedNames(d.dirs))
  }

  ghost function FilesBelow(prefix: Text, d: Dir, names: seq<Text>): seq<Labelled>
    requires forall n | n in names :: n in d.dirs
    decreases d, 0, |names|
  {
    if names == [] then []
    else WalkFiles(prefix + names[0] + [SLASH], d.dirs[names[0]]) + FilesBelow(prefix, d, names[1..])
  }

  ghost function OwnDirectories(prefix: Text, names: seq<Text>): seq<Text> {
    if names == [] then [] else [prefix + names[0]] + OwnDirectories(prefix, names[1..])
  }

  ghost function WalkDirectories(prefix: Text, d: Dir): seq<Text>
    decreases d, 1, 0
  {
    OwnDirectories(prefix, SortedNames(d.dirs)) + DirectoriesBelow(prefix, d, SortedNames(d.dirs))
  }

  ghost function DirectoriesBelow(prefix: Text, d: Dir, names: seq<Text>): seq<Text>
    requires forall n | n in names :: n in d.dirs
    decreases d, 0, |names|
  {
    if names == [] then []
    else WalkDirectories(prefix + names[0] + [SLASH], d.dirs[names[0]]) + DirectoriesBelow(prefix, d, names[1..])
  }

  // ----- the walk lists every file exactly once

  /** The path of `x` below `prefix` is a file of `d` with these bytes. */
  ghost predicate IsFileOf(prefix: Text, d: Dir, x: Labelled) {
    prefix <= x.name && FileAt(d, x.name[|prefix|..]) == Some(x.payload)
  }

  /** The same, with the first component among the given names. */
  ghost predicate IsFileBelow(prefix: Text, d: Dir, names: seq<Text>, x: Labelled) {
    && IsFileOf(prefix, d, x)
    && var q := x.name[|prefix|..];
       FirstSlash(q) < |q| && q[..FirstSlash(q)] in names
  }

  lemma {:induction false} OwnFilesMembers(prefix: Text, d: Dir, names: seq<Text>, x: Labelled)
    requires (forall n | n in names :: n in d.files) && WellFormed(d)
    ensures x in OwnFiles(prefix, d, names) <==>
            prefix <= x.name && x.name[|prefix|..] in names && d.files[x.name[|prefix|..]] == x.payload
  {
    if names != [] {
      OwnFilesMembers(prefix, d, names[1..], x);
      var head := Labelled(prefix + names[0], d.files[names[0]]);
      assert head.name[|prefix|..] == names[0];
      assert names == [names[0]] + names[1..];
      if prefix <= x.name && x.name[|prefix|..] == names[0] { assert x.name == prefix + names[0]; }
    }
  }

  lemma {:induction false} WalkFilesMembers(prefix: Text, d: Dir, x: Labelled)
    requires WellFormed(d)
    ensures x in WalkFiles(prefix, d) <==> IsFileOf(prefix, d, x)
    decreases d, 1, 0
  {
    var own, below := SortedNames(d.files), SortedNames(d.dirs);
    OwnFilesMembers(prefix, d, own, x);
    FilesBelowMembers(prefix, d, below, x);
    if prefix <= x.name {
      var q := x.name[|prefix|..];
      if q in d.files { FirstSlashOf(q, []); }
    }
  }

  lemma {:induction false} FilesBelowMembers(prefix: Text, d: Dir, names: seq<Text>, x: Labelled)
    requires WellFormed(d) && forall n | n in names :: n in d.dirs
    ensures x in FilesBelow(prefix, d, names) <==> IsFileBelow(prefix, d, names, x)
    decreases d, 0, |names|
  {
    if names != [] {
      var n := names[0];
      var inner := prefix + n + [SLASH];
      WalkFilesMembers(inner, d.dirs[n], x);
      FilesBelowMembers(prefix, d, names[1..], x);
      StepInto(prefix, d, n, x);
      assert names == [n] + names[1..];
    }
  }

  /** A path below `prefix + n + "/"` is a path below `prefix` whose first component is n. */
  ghost predicate Below(prefix: Text, n: Text, p: Text) {
    && prefix <= p
    && var q := p[|prefix|..];
       FirstSlash(q) < |q| && q[..FirstSlash(q)] == n
  }

  lemma BelowPrefix(prefix: Text, n: Text, p: Text)
    requires IsName(n)
    ensures Below(prefix, n, p) <==> prefix + n + [SLASH] <= p
    ensures Below(prefix, n, p) ==> p[|prefix|..] == n + [SLASH] + p[|prefix + n + [SLASH]|..]
  {
    var inner := prefix + n + [SLASH];
    if Below(prefix, n, p) {
      var q := p[|prefix|..];
      assert p == prefix + q && q == n + [SLASH] + q[|n| + 1..];
      assert p == inner + q[|n| + 1..];
    }
    if inner <= p {
      var rest := p[|inner|..];
      assert p == inner + rest;
      assert p[|prefix|..] == n + [SLASH] + rest;
      FirstSlashOf(n, rest);
      assert (n + [SLASH] + rest)[..|n|] == n;
    }
  }

  lemma StepInto(prefix: Text, d: Dir, n: Text, x: Labelled)
    requires WellFormed(d) && n in d.dirs
    ensures IsFileOf(prefix + n + [SLASH], d.dirs[n], x) <==> Below(prefix, n, x.name) && IsFileOf(prefix, d, x)
  {
    BelowPrefix(prefix, n, x.name);
    if Below(prefix, n, x.name) { Enter(d, n, x.name[|prefix + n + [SLASH]|..]); }
  }

  ghost function Names(files: seq<Labelled>): (s: seq<Text>)
    ensures |s| == |files|
  {
    seq(|files|, i requires 0 <= i < |files| => files[i].name)
  }

  ghost predicate NoRepeats<T(!new)>(s: seq<T>) {
    forall i, j | 0 <= i < j < |s| :: s[i] != s[j]
  }

  lemma NoRepeatsConcat<T(!new)>(a: seq<T>, b: seq<T>)
    requires NoRepeats(a) && NoRepeats(b) && forall x | x in a :: x !in b
    ensures NoRepeats(a + b)
  {
    var s := a + b;
    forall i, j | 0 <= i < j < |s| ensures s[i] != s[j] {
      if i < |a| && j >= |a| { assert s[i] in a && s[j] in b; }
    }
  }

  lemma {:induction false} OwnFilesNoRepeats(prefix: Text, d: Dir, names: seq<Text>)
    requires (forall n | n in names :: n in d.files) && NoRepeats(names) && WellFormed(d)
    ensures NoRepeats(OwnFiles(prefix, d, names))
  {
    if names != [] {
      OwnFilesNoRepeats(prefix, d, names[1..]);
      var head := Labelled(prefix + names[0], d.files[names[0]]);
      OwnFilesMembers(prefix, d, names[1..], head);
      assert head.name[|prefix|..] == names[0];
      NoRepeatsConcat([head], OwnFiles(prefix, d, names[1..]));
    }
  }

  lemma SortedNoRepeats(s: seq<Text>)
    requires Sorted(s)
    ensures NoRepeats(s)
  {
    forall i, j | 0 <= i < j < |s| ensures s[i] != s[j] { LessIrreflexive(s[i]); }
  }

  lemma {:induction false} WalkFilesNoRepeats(prefix: Text, d: Dir)
    requires WellFormed(d)
    ensures NoRepeats(WalkFiles(prefix, d))
    decreases d, 1, 0
  {
    var own, below := SortedNames(d.files), SortedNames(d.dirs);
    SortedNoRepeats(own);
    SortedNoRepeats(below);
    OwnFilesNoRepeats(prefix, d, own);
    FilesBelowNoRepeats(prefix, d, below);
    forall x | x in OwnFiles(prefix, d, own) ensures x !in FilesBelow(prefix, d, below) {
      OwnFilesMembers(prefix, d, own, x);
      FilesBelowMembers(prefix, d, below, x);
      FirstSlashOf(x.name[|prefix|..], []);
    }
    NoRepeatsConcat(OwnFiles(prefix, d, own), FilesBelow(prefix, d, below));
  }

  lemma {:induction false} FilesBelowNoRepeats(prefix: Text, d: Dir, names: seq<Text>)
    requires WellFormed(d) && (forall n | n in names :: n in d.dirs) && NoRepeats(names)
    ensures NoRepeats(FilesBelow(prefix, d, names))
    decreases d, 0, |names|
  {
    if names != [] {
      var n := names[0];
      var inner := prefix + n + [SLASH];
      WalkFilesNoRepeats(inner, d.dirs[n]);
      FilesBelowNoRepeats(prefix, d, names[1..]);
      forall x | x in WalkFiles(inner, d.dirs[n]) ensures x !in FilesBelow(prefix, d, names[1..]) {
        WalkFilesMembers(inner, d.dirs[n], x);
        StepInto(prefix, d, n, x);
        FilesBelowMembers(prefix, d, names[1..], x);
      }
      NoRepeatsConcat(WalkFiles(inner, d.dirs[n]), FilesBelow(prefix, d, names[1..]));
    }
  }

  // ----- the walk lists every directory exactly once

  ghost predicate IsDirectoryOf(prefix: Text, d: Dir, p: Text) {
    prefix <= p && DirAt(d, p[|prefix|..]).Some?
  }

  lemma {:induction false} OwnDirectoriesMembers(prefix: Text, names: seq<Text>, p: Text)
    ensures p in OwnDirectories(prefix, names) <==> prefix <= p && p[|prefix|..] in names
  {
    if names != [] {
      OwnDirectoriesMembers(prefix, names[1..], p);
      assert (prefix + names[0])[|prefix|..] == names[0] && names == [names[0]] + names[1..];
      if prefix <= p && p[|prefix|..] == names[0] { assert p == prefix + names[0]; }
    }
  }

  lemma {:induction false} WalkDirectoriesMembers(prefix: Text, d: Dir, p: Text)
    requires WellFormed(d)
    ensures p in WalkDirectories(prefix, d) <==> IsDirectoryOf(prefix, d, p)
    decreases d, 1, 0
  {
    var names := SortedNames(d.dirs);
    OwnDirectoriesMembers(prefix, names, p);
    DirectoriesBelowMembers(prefix, d, names, p);
    if prefix <= p {
      var q := p[|prefix|..];
      if q in d.dirs { FirstSlashOf(q, []); }
    }
  }

  lemma {:induction false} DirectoriesBelowMembers(prefix: Text, d: Dir, names: seq<Text>, p: Text)
    requires WellFormed(d) && forall n | n in names :: n in d.dirs
    ensures p in DirectoriesBelow(prefix, d, names) <==>
            && IsDirectoryOf(prefix, d, p)
            && var q := p[|prefix|..];
               FirstSlash(q) < |q| && q[..FirstSlash(q)] in names
    decreases d, 0, |names|
  {
    if names != [] {
      var n := names[0];
      WalkDirectoriesMembers(prefix + n + [SLASH], d.dirs[n], p);
      DirectoriesBelowMembers(prefix, d, names[1..], p);
      StepIntoDirectory(prefix, d, n, p);
      assert names == [n] + names[1..];
    }
  }

  lemma StepIntoDirectory(prefix: Text, d: Dir, n: Text, p: Text)
    requires WellFormed(d) && n in d.dirs
    ensures IsDirectoryOf(prefix + n + [SLASH], d.dirs[n], p) <==> Below(prefix, n, p) && IsDirectoryOf(prefix, d, p)
  {
    BelowPrefix(prefix, n, p);
    if Below(prefix, n, p) { Enter(d, n, p[|prefix + n + [SLASH]|..]); }
  }

  lemma {:induction false} OwnDirectoriesNoRepeats(prefix: Text, names: seq<Text>)
    requires NoRepeats(names)
    ensures NoRepeats(OwnDirectories(prefix, names))
  {
    if names != [] {
      OwnDirectoriesNoRepeats(prefix, names[1..]);
      OwnDirectoriesMembers(prefix, names[1..], prefix + names[0]);
      assert (prefix + names[0])[|prefix|..] == names[0];
      NoRepeatsConcat([prefix + names[0]], OwnDirectories(prefix, names[1..]));
    }
  }

  lemma {:induction false} WalkDirectoriesNoRepeats(prefix: Text, d: Dir)
    requires WellFormed(d)
    ensures NoRepeats(WalkDirectories(prefix, d))
    decreases d, 1, 0
  {
    var names := SortedNames(d.dirs);
    SortedNoRepeats(names);
    OwnDirectoriesNoRepeats(prefix, names);
    DirectoriesBelowNoRepeats(prefix, d, names);
    forall p | p in OwnDirectories(prefix, names) ensures p !in DirectoriesBelow(prefix, d, names) {
      OwnDirectoriesMembers(prefix, names, p);
      DirectoriesBelowMembers(prefix, d, names, p);
      FirstSlashOf(p[|prefix|..], []);
    }
    NoRepeatsConcat(OwnDirectories(prefix, names), DirectoriesBelow(prefix, d, names));
  }

  lemma {:induction false} DirectoriesBelowNoRepeats(prefix: Text, d: Dir, names: seq<Text>)
    requires WellFormed(d) && (forall n | n in names :: n in d.dirs) && NoRepeats(names)
    ensures NoRepeats(DirectoriesBelow(prefix, d, names))
    decreases d, 0, |names|
  {
    if names != [] {
      var n := names[0];
      var inner := prefix + n + [SLASH];
      WalkDirectoriesNoRepeats(inner, d.dirs[n]);
      DirectoriesBelowNoRepeats(prefix, d, names[1..]);
      forall p | p in WalkDirectories(inner, d.dirs[n]) ensures p !in DirectoriesBelow(prefix, d, names[1..]) {
        WalkDirectoriesMembers(inner, d.dirs[n], p);
        StepIntoDirectory(prefix, d, n, p);
        DirectoriesBelowMembers(prefix, d, names[1..], p);
      }
      NoRepeatsConcat(WalkDirectories(inner, d.dirs[n]), DirectoriesBelow(prefix, d, names[1..]));
    }
  }

  // ----- the raw-Git side

  /** Git lists no directories: they are the proper prefixes of the member paths. */
  ghost function GitDirectories(members: map<Text, Text>): set<Text> {
    set p, k | p in members && 0 <= k < |p| && p[k] == SLASH :: p[..k]
  }

  /** The members of the base tree are exactly the files of the checkout. */
  ghost predicate Represents(members: map<Text, Text>, d: Dir) {
    forall q: Text :: (if q in members then Some(members[q]) else None) == FileAt(d, q)
  }

  /** Every directory component of a file is a directory. */
  lemma {:induction false} PrefixIsDirectory(d: Dir, q: Text, k: nat)
    requires WellFormed(d) && FileAt(d, q).Some? && k < |q| && q[k] == SLASH
    ensures DirAt(d, q[..k]).Some?
    decreases |q|
  {
    var s := FirstSlash(q);
    assert s <= k;
    FileInside(d, q);
    var n, rest := q[..s], q[s + 1..];
    NoSlashBefore(q, s);
    if k == s {
      FirstSlashOf(n, []);
    } else {
      assert rest[k - s - 1] == SLASH;
      PrefixIsDirectory(d.dirs[n], rest, k - s - 1);
      CutPrefix(q, s, k);
      Enter(d, n, rest[..k - s - 1]);
    }
  }

  lemma FileInside(d: Dir, q: Text)
    requires FileAt(d, q).Some? && FirstSlash(q) < |q|
    ensures q[..FirstSlash(q)] in d.dirs && FileAt(d.dirs[q[..FirstSlash(q)]], q[FirstSlash(q) + 1..]).Some?
  {
  }

  lemma NoSlashBefore(q: Text, s: nat)
    requires s <= |q| && s == FirstSlash(q)
    ensures SLASH !in q[..s]
  {
  }

  lemma CutPrefix(q: Text, s: nat, k: nat)
    requires s < k <= |q| && q[s] == SLASH
    ensures q[..k] == q[..s] + [SLASH] + q[s + 1..][..k - s - 1]
  {
  }

  lemma {:induction false} SomeFile(d: Dir) returns (r: Text)
    requires WellFormed(d) && HasFile(d)
    ensures FileAt(d, r).Some?
    decreases d
  {
    if d.files != map[] {
      assert d.files.Keys != {};
      r :| r in d.files;
      FirstSlashOf(r, []);
    } else {
      var n :| n in d.dirs && HasFile(d.dirs[n]);
      r := SomeFile(d.dirs[n]);
      Enter(d, n, r);
      r := n + [SLASH] + r;
    }
  }

  /** A directory of a pack without empty directories lies on the path of some file. */
  lemma {:induction false} FileUnderDirectory(d: Dir, q: Text) returns (r: Text)
    requires WellFormed(d) && NoEmptyDirectories(d) && DirAt(d, q).Some?
    ensures FileAt(d, q + [SLASH] + r).Some?
    decreases |q|
  {
    var s := FirstSlash(q);
    if s == |q| {
      r := SomeFile(d.dirs[q]);
      Enter(d, q, r);
    } else {
      var n, rest := q[..s], q[s + 1..];
      r := FileUnderDirectory(d.dirs[n], rest);
      Enter(d, n, rest + [SLASH] + r);
      PathAt(q, s, r);
    }
  }

  lemma PathAt(q: Text, s: nat, r: Text)
    requires s < |q| && q[s] == SLASH
    ensures q + [SLASH] + r == q[..s] + [SLASH] + (q[s + 1..] + [SLASH] + r)
  {
    assert q == q[..s] + [SLASH] + q[s + 1..];
  }

  lemma GitDirectoriesAreDirectories(d: Dir, members: map<Text, Text>, p: Text)
    requires WellFormed(d) && NoEmptyDirectories(d) && Represents(members, d)
    ensures p in GitDirectories(members) <==> DirAt(d, p).Some?
  {
    if p in GitDirectories(members) {
      var q, k :| q in members && 0 <= k < |q| && q[k] == SLASH && p == q[..k];
      PrefixIsDirectory(d, q, k);
    }
    if DirAt(d, p).Some? {
      var r := FileUnderDirectory(d, p);
      PrefixIsListed(members, p, r);
    }
  }

  lemma PrefixIsListed(members: map<Text, Text>, p: Text, r: Text)
    requires p + [SLASH] + r in members
    ensures p in GitDirectories(members)
  {
    var q := p + [SLASH] + r;
    assert q[|p|] == SLASH && q[..|p|] == p;
  }

  // ----- the two digests

  ghost function WalkPreimage(d: Dir): Text {
    PackPreimage(WalkDirectories([], d), WalkFiles([], d))
  }

  ghost function GitPreimage(members: map<Text, Text>): Text {
    PackPreimage(Sort(GitDirectories(members)), MapRows(members))
  }

  lemma DirectoriesAgree(d: Dir, members: map<Text, Text>)
    requires WellFormed(d) && NoEmptyDirectories(d) && Represents(members, d)
    ensures Elements(WalkDirectories([], d)) == GitDirectories(members) && NoRepeats(WalkDirectories([], d))
    ensures WalkDirectories([], d) == Sort(GitDirectories(members)) <==> Sorted(WalkDirectories([], d))
  {
    WalkDirectoriesNoRepeats([], d);
    forall p ensures p in Elements(WalkDirectories([], d)) <==> p in GitDirectories(members) {
      WalkDirectoriesMembers([], d, p);
      GitDirectoriesAreDirectories(d, members, p);
      assert p[0..] == p;
    }
    if Sorted(WalkDirectories([], d)) { SortOfSorted(WalkDirectories([], d)); }
  }

  lemma WalkFilesAre(d: Dir, members: map<Text, Text>, x: Labelled)
    requires WellFormed(d) && Represents(members, d)
    ensures x in WalkFiles([], d) <==> x.name in members && members[x.name] == x.payload
  {
    WalkFilesMembers([], d, x);
    assert x.name[0..] == x.name;
  }

  lemma WalkNames(d: Dir, members: map<Text, Text>)
    requires WellFormed(d) && Represents(members, d)
    ensures Elements(Names(WalkFiles([], d))) == members.Keys
  {
    var w := WalkFiles([], d);
    forall p ensures p in Elements(Names(w)) <==> p in members {
      if p in Elements(Names(w)) {
        var i :| 0 <= i < |w| && Names(w)[i] == p;
        WalkFilesAre(d, members, w[i]);
      }
      if p in members { MemberIsWalked(d, members, p); }
    }
  }

  lemma MemberIsWalked(d: Dir, members: map<Text, Text>, p: Text)
    requires WellFormed(d) && Represents(members, d) && p in members
    ensures p in Names(WalkFiles([], d))
  {
    var x := Labelled(p, members[p]);
    WalkFilesAre(d, members, x);
    IsNamed(WalkFiles([], d), x);
  }

  lemma IsNamed(w: seq<Labelled>, x: Labelled)
    requires x in w
    ensures x.name in Names(w)
  {
    var i :| 0 <= i < |w| && w[i] == x;
    assert Names(w)[i] == x.name;
  }

  /** A list of rows of a map is its canonical list exactly when the names are sorted. */
  lemma RowsBySortedNames(w: seq<Labelled>, members: map<Text, Text>)
    requires forall x | x in w :: x.name in members && members[x.name] == x.payload
    requires Elements(Names(w)) == members.Keys
    ensures w == MapRows(members) <==> Sorted(Names(w))
  {
    var s := Sort(members.Keys);
    SortedPaths(members);
    RowsAt(members, s);
    if Sorted(Names(w)) {
      SortedUnique(Names(w), s);
      forall i | 0 <= i < |w| ensures w[i] == MapRows(members)[i] { assert Names(w)[i] == s[i] && w[i] in w; }
    }
    if w == MapRows(members) {
      assert forall i | 0 <= i < |w| :: Names(w)[i] == s[i];
      assert Names(w) == s;
    }
  }

  lemma FilesAgree(d: Dir, members: map<Text, Text>)
    requires WellFormed(d) && Represents(members, d)
    ensures Elements(Names(WalkFiles([], d))) == members.Keys && NoRepeats(WalkFiles([], d))
    ensures WalkFiles([], d) == MapRows(members) <==> Sorted(Names(WalkFiles([], d)))
  {
    WalkFilesNoRepeats([], d);
    WalkNames(d, members);
    forall x | x in WalkFiles([], d) ensures x.name in members && members[x.name] == x.payload {
      WalkFilesAre(d, members, x);
    }
    RowsBySortedNames(WalkFiles([], d), members);
  }

  lemma GitDirectoriesFit(members: map<Text, Text>, directories: seq<Text>)
    requires forall p | p in members :: Fits(p)
    requires Elements(directories) <= GitDirectories(members)
    ensures forall i | 0 <= i < |directories| :: Fits(directories[i])
  {
    forall i | 0 <= i < |directories| ensures Fits(directories[i]) {
      assert directories[i] in Elements(directories);
      var q, k :| q in members && 0 <= k < |q| && q[k] == SLASH && directories[i] == q[..k];
    }
  }

  lemma RowsFit(w: seq<Labelled>, members: map<Text, Text>)
    requires forall p | p in members :: Fits(p) && Fits(members[p])
    requires forall x | x in w :: x.name in members && members[x.name] == x.payload
    ensures EntriesFit(w)
  {
    forall i | 0 <= i < |w| ensures Fits(w[i].name) && Fits(w[i].payload) { assert w[i] in w; }
  }

  /** Both sides frame the same records once each, and their digests agree exactly when the walk
      already lists directories and files in full-path order. */
  lemma DigestsAgree(d: Dir, members: map<Text, Text>)
    requires WellFormed(d) && NoEmptyDirectories(d) && Represents(members, d)
    requires forall p | p in members :: Fits(p) && Fits(members[p])
    ensures WalkPreimage(d) == GitPreimage(members)
            <==> Sorted(WalkDirectories([], d)) && Sorted(Names(WalkFiles([], d)))
  {
    DirectoriesAgree(d, members);
    FilesAgree(d, members);
    forall x | x in WalkFiles([], d) ensures x.name in members && members[x.name] == x.payload {
      WalkFilesAre(d, members, x);
    }
    PreimagesAgree(WalkDirectories([], d), WalkFiles([], d), members);
  }

  /** For lists over the members of a pack, equal pre-images are equal lists. */
  lemma PreimagesAgree(directories: seq<Text>, files: seq<Labelled>, members: map<Text, Text>)
    requires forall p | p in members :: Fits(p) && Fits(members[p])
    requires Elements(directories) == GitDirectories(members)
    requires forall x | x in files :: x.name in members && members[x.name] == x.payload
    ensures PackPreimage(directories, files) == GitPreimage(members) <==>
            directories == Sort(GitDirectories(members)) && files == MapRows(members)
  {
    GitDirectoriesFit(members, directories);
    GitDirectoriesFit(members, Sort(GitDirectories(members)));
    RowsFit(files, members);
    MapRowsFit(members);
    PackPreimageUnique(directories, files, Sort(GitDirectories(members)), MapRows(members));
  }

  /** A pack without subdirectories always gets the same digest from both sides. */
  lemma FlatPacksAgree(d: Dir, members: map<Text, Text>)
    requires WellFormed(d) && d.dirs == map[] && Represents(members, d)
    requires forall p | p in members :: Fits(p) && Fits(members[p])
    ensures WalkPreimage(d) == GitPreimage(members)
  {
    FlatWalk(d);
    DigestsAgree(d, members);
  }

  lemma FlatWalk(d: Dir)
    requires d.dirs == map[]
    ensures WalkDirectories([], d) == [] && Names(WalkFiles([], d)) == SortedNames(d.files)
  {
    NothingBelow(d, SortedNames(d.dirs));
    var names := SortedNames(d.files);
    OwnFilesNames([], d, names);
    NamesOfOwn(OwnFiles([], d, names), names);
  }

  lemma NothingBelow(d: Dir, below: seq<Text>)
    requires d.dirs == map[] && below == SortedNames(d.dirs)
    ensures WalkDirectories([], d) == [] && WalkFiles([], d) == OwnFiles([], d, SortedNames(d.files))
  {
    assert below == [];
    var own := OwnFiles([], d, SortedNames(d.files));
    assert own + [] == own;
  }

  lemma NamesOfOwn(own: seq<Labelled>, names: seq<Text>)
    requires |own| == |names| && forall i | 0 <= i < |names| :: own[i].name == [] + names[i]
    ensures Names(own) == names
  {
    forall i | 0 <= i < |own| ensures Names(own)[i] == names[i] { assert [] + names[i] == names[i]; }
  }

  lemma {:induction false} OwnFilesNames(prefix: Text, d: Dir, names: seq<Text>)
    requires forall n | n in names :: n in d.files
    ensures |OwnFiles(prefix, d, names)| == |names|
    ensures forall i | 0 <= i < |names| :: OwnFiles(prefix, d, names)[i].name == prefix + names[i]
  {
    if names != [] { OwnFilesNames(prefix, d, names[1..]); }
  }

  /** A whole family of packs on which the digests differ: a file beside a directory whose contents
      sort before it, as "b" beside "a/x". */
  lemma NestedPacksDiffer(d: Dir, members: map<Text, Text>, f: Text, n: Text, r: Text)
    requires WellFormed(d) && NoEmptyDirectories(d) && Represents(members, d)
    requires forall p | p in members :: Fits(p) && Fits(members[p])
    requires f in d.files && n in d.dirs && FileAt(d.dirs[n], r).Some? && Less(n + [SLASH] + r, f)
    ensures WalkPreimage(d) != GitPreimage(members)
  {
    NestedWalk(d, f, n, r);
    LessAsymmetric(n + [SLASH] + r, f);
    DigestsAgree(d, members);
  }

  /** The walk lists a file of a directory before anything below its subdirectories. */
  lemma NestedWalk(d: Dir, f: Text, n: Text, r: Text)
    requires WellFormed(d) && f in d.files && n in d.dirs && FileAt(d.dirs[n], r).Some?
    ensures Sorted(Names(WalkFiles([], d))) ==> Less(f, n + [SLASH] + r)
  {
    var own, below := OwnFiles([], d, SortedNames(d.files)), FilesBelow([], d, SortedNames(d.dirs));
    var x, y := Labelled(f, d.files[f]), Labelled(n + [SLASH] + r, FileAt(d.dirs[n], r).value);
    OwnFilesMembers([], d, SortedNames(d.files), x);
    assert f[0..] == f;
    ListedBelow(d, n, r, y);
    FirstPartFirst(own, below, x, y);
  }

  lemma ListedBelow(d: Dir, n: Text, r: Text, y: Labelled)
    requires WellFormed(d) && n in d.dirs && FileAt(d.dirs[n], r).Some?
    requires y == Labelled(n + [SLASH] + r, FileAt(d.dirs[n], r).value)
    ensures y in FilesBelow([], d, SortedNames(d.dirs))
  {
    var q := n + [SLASH] + r;
    assert q[0..] == q;
    Enter(d, n, r);
    FirstSlashOf(n, r);
    assert q[..|n|] == n;
    FilesBelowMembers([], d, SortedNames(d.dirs), y);
  }

  lemma FirstPartFirst(own: seq<Labelled>, below: seq<Labelled>, x: Labelled, y: Labelled)
    requires x in own && y in below
    ensures Sorted(Names(own + below)) ==> Less(x.name, y.name)
  {
    var i :| 0 <= i < |own| && own[i] == x;
    var j :| 0 <= j < |below| && below[j] == y;
    var w := own + below;
    assert w[i] == x && w[|own| + j] == y;
    assert Names(w)[i] == x.name && Names(w)[|own| + j] == y.name;
  }

  /** The smallest such packs: a file f beside a directory n with one file r, where "n/r" sorts before f. */
  lemma NestedExample(f: Text, n: Text, r: Text, x: Text, y: Text)
    requires IsName(f) && IsName(n) && IsName(r) && Less(n + [SLASH] + r, f) && f != n
    requires Fits(f) && Fits(n + [SLASH] + r) && Fits(x) && Fits(y)
    ensures WalkPreimage(Dir(map[f := x], map[n := Dir(map[r := y], map[])]))
            != GitPreimage(map[f := x, n + [SLASH] + r := y])
  {
    var inner, q := Dir(map[r := y], map[]), n + [SLASH] + r;
    var d, members := Dir(map[f := x], map[n := inner]), map[f := x, q := y];
    assert r in inner.files && HasFile(inner);
    NotAName(n, r, f);
    forall p: Text ensures (if p in members then Some(members[p]) else None) == FileAt(d, p) {
      ExampleFiles(f, n, r, p, x, y);
    }
    InnerFiles(r, r, y);
    NestedPacksDiffer(d, members, f, n, r);
  }

  lemma NotAName(n: Text, r: Text, f: Text)
    requires IsName(f)
    ensures n + [SLASH] + r != f
  {
    assert (n + [SLASH] + r)[|n|] == SLASH;
  }

  lemma ExampleFiles(f: Text, n: Text, r: Text, p: Text, x: Text, y: Text)
    requires IsName(f) && IsName(n) && IsName(r)
    ensures FileAt(Dir(map[f := x], map[n := Dir(map[r := y], map[])]), p)
            == if p == f then Some(x) else if p == n + [SLASH] + r then Some(y) else None
  {
    FirstSlashOf(f, []);
    FirstSlashOf(n, r);
    NotAName(n, r, f);
    var k := FirstSlash(p);
    if k < |p| && p[..k] == n {
      var rest := p[k + 1..];
      assert p == n + [SLASH] + rest;
      assert (n + [SLASH] + r)[|n| + 1..] == r;
      InnerFiles(r, rest, y);
    }
  }

  lemma InnerFiles(r: Text, p: Text, y: Text)
    requires IsName(r)
    ensures FileAt(Dir(map[r := y], map[]), p) == if p == r then Some(y) else None
  {
    FirstSlashOf(r, []);
  }

  /** The last component. */
  function BaseName(p: Text): Text
    decreases |p|
  {
    var k := FirstSlash(p);
    if k == |p| then p else BaseName(p[k + 1..])
  }

  const TEST_PREFIX: Text := [116, 101, 115, 116, 95]   // "test_"
  const PY_SUFFIX: Text := [46, 112, 121]               // ".py"

  /** What every accepted pack must contain at least once. */
  predicate IsTestFile(p: Text) {
    TEST_PREFIX <= BaseName(p) && |p| >= 3 && p[|p| - 3..] == PY_SUFFIX
  }

  const TEST_B: Text := [116, 101, 115, 116, 95, 98, 46, 112, 121]   // "test_b.py"

  /** An accepted pack among them: "test_b.py" beside "a/x". */
  lemma AcceptedPackDiffers(x: Text, y: Text)
    requires Fits(x) && Fits(y)
    ensures IsTestFile(TEST_B)
    ensures WalkPreimage(Dir(map[TEST_B := x], map[[97] := Dir(map[[120] := y], map[])]))
            != GitPreimage(map[TEST_B := x, [97] + [SLASH] + [120] := y])
  {
    assert SLASH !in TEST_B;
    FirstSlashOf(TEST_B, []);
    assert TEST_B[..5] == TEST_PREFIX && TEST_B[6..] == PY_SUFFIX;
    SmallLengthsFit();
    NestedExample(TEST_B, [97], [120], x, y);
  }

  lemma SmallLengthsFit()
    ensures Fits(TEST_B) && Fits([97] + [SLASH] + [120])
  {
  }
}
