/** When the checkout walk of a pack is already in full-path order: a condition on the names at every level, which can
    be read off the pack. */
module PackOrder {
  import opened Wrappers
  import opened Ordering
  import opened Paths
  import opened Framing
  import opened PackWalk

  // ----- the order of paths

  /** A name against a path below another name: what follows the slash does not matter. */
  lemma {:induction false} NameAgainstPath(f: Text, n: Text, r: Text)
    requires SLASH !in f && SLASH !in n
    ensures Less(f, n + [SLASH] + r) <==> Less(f, n + [SLASH])
  {
    if f != [] && n != [] {
      assert (n + [SLASH] + r)[1..] == n[1..] + [SLASH] + r && (n + [SLASH])[1..] == n[1..] + [SLASH];
      NameAgainstPath(f[1..], n[1..], r);
    } else if f != [] {
      assert f[0] in f && n + [SLASH] + r == [SLASH] + r && n + [SLASH] == [SLASH];
    }
  }

  /** Two paths below different names. */
  lemma {:induction false} PathAgainstPath(m: Text, s: Text, n: Text, r: Text)
    requires SLASH !in m && SLASH !in n && m != n
    ensures Less(m + [SLASH] + s, n + [SLASH] + r) <==> Less(m + [SLASH], n + [SLASH])
  {
    if m != [] && n != [] {
      assert (m + [SLASH] + s)[1..] == m[1..] + [SLASH] + s && (m + [SLASH])[1..] == m[1..] + [SLASH];
      assert (n + [SLASH] + r)[1..] == n[1..] + [SLASH] + r && (n + [SLASH])[1..] == n[1..] + [SLASH];
      if m[0] == n[0] {
        assert m == [m[0]] + m[1..] && n == [n[0]] + n[1..];
        PathAgainstPath(m[1..], s, n[1..], r);
      }
    } else if m != [] {
      assert m[0] in m && n + [SLASH] + r == [SLASH] + r && n + [SLASH] == [SLASH];
    } else {
      assert n[0] in n && m + [SLASH] + s == [SLASH] + s && m + [SLASH] == [SLASH];
    }
  }

  /** Everything in the first list comes before everything in the second. */
  ghost predicate Before(a: seq<Text>, b: seq<Text>) {
    forall i, j | 0 <= i < |a| && 0 <= j < |b| :: Less(a[i], b[j])
  }

  lemma SortedConcat(a: seq<Text>, b: seq<Text>)
    ensures Sorted(a + b) <==> Sorted(a) && Sorted(b) && Before(a, b)
  {
    var c := a + b;
    if Sorted(c) {
      forall i, j | 0 <= i < j < |a| ensures Less(a[i], a[j]) { assert c[i] == a[i] && c[j] == a[j]; }
      forall i, j | 0 <= i < j < |b| ensures Less(b[i], b[j]) { assert c[|a| + i] == b[i] && c[|a| + j] == b[j]; }
      forall i, j | 0 <= i < |a| && 0 <= j < |b| ensures Less(a[i], b[j]) { assert c[i] == a[i] && c[|a| + j] == b[j]; }
    }
    if Sorted(a) && Sorted(b) && Before(a, b) {
      forall i, j | 0 <= i < j < |c| ensures Less(c[i], c[j]) {
        if i >= |a| { assert c[i] == b[i - |a|] && c[j] == b[j - |a|]; } else if j >= |a| { assert c[j] == b[j - |a|]; }
      }
    }
  }

  // ----- files

  /** At every level each file name comes before "n/" for each directory n, and "m/" before "n/" whenever m comes
      before n. */
  ghost predicate FilesInOrder(d: Dir)
    decreases d
  {
    FilesFirst(d) && DirsApart(d) && forall n | n in d.dirs :: FilesInOrder(d.dirs[n])
  }

  lemma NamesConcat(a: seq<Labelled>, b: seq<Labelled>)
    ensures Names(a + b) == Names(a) + Names(b)
  {
  }

  lemma WalkedName(prefix: Text, d: Dir, i: nat) returns (r: Text)
    requires WellFormed(d) && i < |WalkFiles(prefix, d)|
    ensures Names(WalkFiles(prefix, d))[i] == prefix + r && FileAt(d, r).Some?
  {
    var x := WalkFiles(prefix, d)[i];
    assert x in WalkFiles(prefix, d);
    WalkFilesMembers(prefix, d, x);
    r := FileName(prefix, d, x);
  }

  lemma FileName(prefix: Text, d: Dir, x: Labelled) returns (r: Text)
    requires IsFileOf(prefix, d, x)
    ensures x.name == prefix + r && FileAt(d, r).Some?
  {
    r := x.name[|prefix|..];
  }

  lemma NameWalked(prefix: Text, d: Dir, r: Text) returns (i: nat)
    requires WellFormed(d) && FileAt(d, r).Some?
    ensures i < |WalkFiles(prefix, d)| && Names(WalkFiles(prefix, d))[i] == prefix + r
  {
    var x := Labelled(prefix + r, FileAt(d, r).value);
    assert x.name[|prefix|..] == r;
    WalkFilesMembers(prefix, d, x);
    i := PlaceOf(WalkFiles(prefix, d), x);
  }

  lemma PlaceOf(w: seq<Labelled>, x: Labelled) returns (i: nat)
    requires x in w
    ensures i < |w| && w[i] == x && Names(w)[i] == x.name
  {
    i :| 0 <= i < |w| && w[i] == x;
  }

  lemma BelowName(prefix: Text, d: Dir, names: seq<Text>, i: nat) returns (n: Text, r: Text)
    requires WellFormed(d) && (forall n | n in names :: n in d.dirs) && i < |FilesBelow(prefix, d, names)|
    ensures n in names && FileAt(d.dirs[n], r).Some?
            && Names(FilesBelow(prefix, d, names))[i] == prefix + (n + [SLASH] + r)
  {
    var x := FilesBelow(prefix, d, names)[i];
    FilesBelowMembers(prefix, d, names, x);
    n, r := SplitPath(prefix, x.name);
    Enter(d, n, r);
  }

  /** A path below the prefix, cut at the prefix and at its first slash. */
  lemma SplitPath(prefix: Text, p: Text) returns (n: Text, r: Text)
    requires prefix <= p && FirstSlash(p[|prefix|..]) < |p| - |prefix|
    ensures n == p[|prefix|..][..FirstSlash(p[|prefix|..])] && p[|prefix|..] == n + [SLASH] + r
    ensures p == prefix + (n + [SLASH] + r)
  {
    var q := p[|prefix|..];
    var k := FirstSlash(q);
    n, r := q[..k], q[k + 1..];
    assert q == n + [SLASH] + r && p == prefix + q;
  }

  lemma NameBelow(prefix: Text, d: Dir, names: seq<Text>, n: Text, r: Text) returns (i: nat)
    requires WellFormed(d) && (forall n | n in names :: n in d.dirs) && n in names && FileAt(d.dirs[n], r).Some?
    ensures i < |FilesBelow(prefix, d, names)| && Names(FilesBelow(prefix, d, names))[i] == prefix + (n + [SLASH] + r)
  {
    var q := n + [SLASH] + r;
    var x := Labelled(prefix + q, FileAt(d.dirs[n], r).value);
    assert x.name[|prefix|..] == q;
    Enter(d, n, r);
    FirstSlashOf(n, r);
    assert q[..|n|] == n;
    FilesBelowMembers(prefix, d, names, x);
    i :| 0 <= i < |FilesBelow(prefix, d, names)| && FilesBelow(prefix, d, names)[i] == x;
  }

  lemma OwnSorted(prefix: Text, d: Dir, names: seq<Text>)
    requires (forall n | n in names :: n in d.files) && Sorted(names)
    ensures Sorted(Names(OwnFiles(prefix, d, names)))
  {
    OwnFilesNames(prefix, d, names);
    var own := Names(OwnFiles(prefix, d, names));
    forall i, j | 0 <= i < j < |own| ensures Less(own[i], own[j]) { LessPrefix(prefix, names[i], names[j]); }
  }

  /** The files of a level come before the files below it. */
  ghost predicate FilesFirst(d: Dir) {
    forall f, n | f in d.files && n in d.dirs :: Less(f, n + [SLASH])
  }

  lemma OwnThenBelow(prefix: Text, d: Dir, f: Text, n: Text)
    requires WellFormed(d) && NoEmptyDirectories(d) && f in d.files && n in d.dirs
    requires Before(Names(OwnFiles(prefix, d, SortedNames(d.files))), Names(FilesBelow(prefix, d, SortedNames(d.dirs))))
    ensures Less(f, n + [SLASH])
  {
    var i := NameOwned(prefix, d, SortedNames(d.files), f);
    var r := SomeFile(d.dirs[n]);
    var j := NameBelow(prefix, d, SortedNames(d.dirs), n, r);
    OrderedAt(Names(OwnFiles(prefix, d, SortedNames(d.files))),
              Names(FilesBelow(prefix, d, SortedNames(d.dirs))), i, j);
    LessPrefix(prefix, f, n + [SLASH] + r);
    NameAgainstPath(f, n, r);
  }

  lemma OrderedAt(a: seq<Text>, b: seq<Text>, i: nat, j: nat)
    requires Before(a, b) && i < |a| && j < |b|
    ensures Less(a[i], b[j])
  {
  }

  lemma NameOwned(prefix: Text, d: Dir, files: seq<Text>, f: Text) returns (i: nat)
    requires (forall n | n in files :: n in d.files) && f in files
    ensures i < |OwnFiles(prefix, d, files)| && Names(OwnFiles(prefix, d, files))[i] == prefix + f
  {
    OwnFilesNames(prefix, d, files);
    i :| 0 <= i < |files| && files[i] == f;
  }

  lemma BelowAfterOwn(prefix: Text, d: Dir, i: nat, j: nat)
    requires WellFormed(d) && FilesFirst(d)
    requires i < |OwnFiles(prefix, d, SortedNames(d.files))| && j < |FilesBelow(prefix, d, SortedNames(d.dirs))|
    ensures Less(Names(OwnFiles(prefix, d, SortedNames(d.files)))[i],
                 Names(FilesBelow(prefix, d, SortedNames(d.dirs)))[j])
  {
    var files, dirs := SortedNames(d.files), SortedNames(d.dirs);
    OwnFilesNames(prefix, d, files);
    var n, r := BelowName(prefix, d, dirs, j);
    assert files[i] in files;
    NameAgainstPath(files[i], n, r);
    LessPrefix(prefix, files[i], n + [SLASH] + r);
  }

  lemma OwnBeforeBelow(prefix: Text, d: Dir, own: seq<Text>, below: seq<Text>)
    requires WellFormed(d) && NoEmptyDirectories(d)
    requires own == Names(OwnFiles(prefix, d, SortedNames(d.files)))
    requires below == Names(FilesBelow(prefix, d, SortedNames(d.dirs)))
    ensures Before(own, below) <==> FilesFirst(d)
  {
    if Before(own, below) {
      forall f, n | f in d.files && n in d.dirs ensures Less(f, n + [SLASH]) { OwnThenBelow(prefix, d, f, n); }
    }
    if FilesFirst(d) {
      forall i, j | 0 <= i < |own| && 0 <= j < |below| ensures Less(own[i], below[j]) {
        BelowAfterOwn(prefix, d, i, j);
      }
    }
  }

  /** The path of the first directory comes before those of the later ones. */
  ghost predicate FirstApart(names: seq<Text>)
    requires names != []
  {
    forall j | 0 < j < |names| :: Less(names[0] + [SLASH], names[j] + [SLASH])
  }

  lemma FirstThenOther(prefix: Text, d: Dir, names: seq<Text>, j: nat)
    requires WellFormed(d) && NoEmptyDirectories(d) && (forall n | n in names :: n in d.dirs) && 0 < j < |names|
             && Sorted(names)
    requires Before(Names(WalkFiles(prefix + names[0] + [SLASH], d.dirs[names[0]])),
                    Names(FilesBelow(prefix, d, names[1..])))
    ensures Less(names[0] + [SLASH], names[j] + [SLASH])
  {
    var m, n, rest := names[0], names[j], names[1..];
    var inner := prefix + m + [SLASH];
    assert m in names && n in names && rest[j - 1] == n;
    var s := SomeFile(d.dirs[m]);
    var r := SomeFile(d.dirs[n]);
    var i := NameWalked(inner, d.dirs[m], s);
    var k := NameBelow(prefix, d, rest, n, r);
    assert Less(Names(WalkFiles(inner, d.dirs[m]))[i], Names(FilesBelow(prefix, d, rest))[k]);
    TwoPaths(prefix, m, s, n, r);
  }

  lemma OtherAfterFirst(prefix: Text, d: Dir, names: seq<Text>, i: nat, k: nat)
    requires WellFormed(d) && (forall n | n in names :: n in d.dirs) && names != [] && Sorted(names)
             && FirstApart(names)
    requires i < |WalkFiles(prefix + names[0] + [SLASH], d.dirs[names[0]])| && k < |FilesBelow(prefix, d, names[1..])|
    ensures Less(Names(WalkFiles(prefix + names[0] + [SLASH], d.dirs[names[0]]))[i],
                 Names(FilesBelow(prefix, d, names[1..]))[k])
  {
    var m, rest := names[0], names[1..];
    assert m in names;
    var s := WalkedName(prefix + m + [SLASH], d.dirs[m], i);
    var n, r := BelowName(prefix, d, rest, k);
    var j := PlaceInRest(names, n);
    TwoPaths(prefix, m, s, n, r);
  }

  lemma PlaceInRest(names: seq<Text>, n: Text) returns (j: nat)
    requires names != [] && n in names[1..]
    ensures 0 < j < |names| && names[j] == n
  {
    var i :| 0 <= i < |names| - 1 && names[1..][i] == n;
    j := i + 1;
  }

  lemma FirstBeforeOthers(prefix: Text, d: Dir, names: seq<Text>, first: seq<Text>, rest: seq<Text>)
    requires WellFormed(d) && NoEmptyDirectories(d) && (forall n | n in names :: n in d.dirs) && names != []
             && Sorted(names)
    requires first == Names(WalkFiles(prefix + names[0] + [SLASH], d.dirs[names[0]]))
    requires rest == Names(FilesBelow(prefix, d, names[1..]))
    ensures Before(first, rest) <==> FirstApart(names)
  {
    if Before(first, rest) {
      forall j | 0 < j < |names| ensures Less(names[0] + [SLASH], names[j] + [SLASH]) {
        FirstThenOther(prefix, d, names, j);
      }
    }
    if FirstApart(names) {
      forall i, k | 0 <= i < |first| && 0 <= k < |rest| ensures Less(first[i], rest[k]) {
        OtherAfterFirst(prefix, d, names, i, k);
      }
    }
  }

  lemma TwoPaths(prefix: Text, m: Text, s: Text, n: Text, r: Text)
    requires IsName(m) && IsName(n) && Less(m, n)
    ensures Less(prefix + m + [SLASH] + s, prefix + (n + [SLASH] + r)) <==> Less(m + [SLASH], n + [SLASH])
  {
    LessIrreflexive(m);
    PathAgainstPath(m, s, n, r);
    LessPrefix(prefix, m + [SLASH] + s, n + [SLASH] + r);
    assert prefix + m + [SLASH] + s == prefix + (m + [SLASH] + s);
  }

  /** The paths of the listed directories are in the order of their names. */
  ghost predicate Apart(names: seq<Text>) {
    forall i, j | 0 <= i < j < |names| :: Less(names[i] + [SLASH], names[j] + [SLASH])
  }

  ghost predicate InsideInOrder(d: Dir, names: seq<Text>)
    requires forall n | n in names :: n in d.dirs
  {
    forall i | 0 <= i < |names| :: FilesInOrder(d.dirs[names[i]])
  }

  lemma ApartStep(names: seq<Text>)
    requires names != []
    ensures Apart(names) <==> FirstApart(names) && Apart(names[1..])
  {
    var rest := names[1..];
    if Apart(names) {
      forall i, j | 0 <= i < j < |rest| ensures Less(rest[i] + [SLASH], rest[j] + [SLASH]) {
        assert rest[i] == names[i + 1] && rest[j] == names[j + 1];
      }
    }
    if FirstApart(names) && Apart(rest) {
      forall i, j | 0 <= i < j < |names| ensures Less(names[i] + [SLASH], names[j] + [SLASH]) {
        if i > 0 { assert rest[i - 1] == names[i] && rest[j - 1] == names[j]; }
      }
    }
  }

  lemma InsideStep(d: Dir, names: seq<Text>)
    requires (forall n | n in names :: n in d.dirs) && names != []
    ensures InsideInOrder(d, names) <==> FilesInOrder(d.dirs[names[0]]) && InsideInOrder(d, names[1..])
  {
    var rest := names[1..];
    if InsideInOrder(d, names) {
      forall i | 0 <= i < |rest| ensures FilesInOrder(d.dirs[rest[i]]) { assert rest[i] == names[i + 1]; }
    }
    if FilesInOrder(d.dirs[names[0]]) && InsideInOrder(d, rest) {
      forall i | 0 <= i < |names| ensures FilesInOrder(d.dirs[names[i]]) {
        if i > 0 { assert rest[i - 1] == names[i]; }
      }
    }
  }

  lemma {:induction false} BelowSorted(prefix: Text, d: Dir, names: seq<Text>)
    requires WellFormed(d) && NoEmptyDirectories(d) && (forall n | n in names :: n in d.dirs) && Sorted(names)
    ensures Sorted(Names(FilesBelow(prefix, d, names))) <==> InsideInOrder(d, names) && Apart(names)
    decreases d, 0, |names|
  {
    if names != [] {
      FirstOf(d, names);
      var inner := prefix + names[0] + [SLASH];
      var first, rest := WalkFiles(inner, d.dirs[names[0]]), FilesBelow(prefix, d, names[1..]);
      FilesSorted(inner, d.dirs[names[0]]);
      BelowSorted(prefix, d, names[1..]);
      BelowStep(prefix, d, names, first, rest);
      BelowIs(prefix, d, names);
    }
  }

  lemma FirstOf(d: Dir, names: seq<Text>)
    requires WellFormed(d) && NoEmptyDirectories(d) && (forall n | n in names :: n in d.dirs) && names != []
    requires Sorted(names)
    ensures names[0] in d.dirs && WellFormed(d.dirs[names[0]]) && NoEmptyDirectories(d.dirs[names[0]])
    ensures (forall n | n in names[1..] :: n in d.dirs) && Sorted(names[1..])
  {
    assert names[0] in names;
  }

  lemma BelowIs(prefix: Text, d: Dir, names: seq<Text>)
    requires (forall n | n in names :: n in d.dirs) && names != []
    ensures FilesBelow(prefix, d, names)
            == WalkFiles(prefix + names[0] + [SLASH], d.dirs[names[0]]) + FilesBelow(prefix, d, names[1..])
  {
  }

  lemma BelowStep(prefix: Text, d: Dir, names: seq<Text>, first: seq<Labelled>, rest: seq<Labelled>)
    requires WellFormed(d) && NoEmptyDirectories(d) && (forall n | n in names :: n in d.dirs) && names != []
             && Sorted(names)
    requires first == WalkFiles(prefix + names[0] + [SLASH], d.dirs[names[0]])
             && rest == FilesBelow(prefix, d, names[1..])
    requires Sorted(Names(first)) <==> FilesInOrder(d.dirs[names[0]])
    requires Sorted(Names(rest)) <==> InsideInOrder(d, names[1..]) && Apart(names[1..])
    ensures Sorted(Names(first + rest)) <==> InsideInOrder(d, names) && Apart(names)
  {
    ConcatSorted(first, rest);
    FirstBeforeOthers(prefix, d, names, Names(first), Names(rest));
    InsideStep(d, names);
    ApartStep(names);
  }

  lemma ConcatSorted(a: seq<Labelled>, b: seq<Labelled>)
    ensures Sorted(Names(a + b)) <==> Sorted(Names(a)) && Sorted(Names(b)) && Before(Names(a), Names(b))
  {
    NamesConcat(a, b);
    SortedConcat(Names(a), Names(b));
  }

  /** The same conditions, for all directories of a level. */
  ghost predicate DirsApart(d: Dir) {
    forall m, n | m in d.dirs && n in d.dirs && Less(m, n) :: Less(m + [SLASH], n + [SLASH])
  }

  lemma ApartAll(d: Dir, names: seq<Text>)
    requires Sorted(names) && forall n :: n in names <==> n in d.dirs
    ensures Apart(names) <==> DirsApart(d)
  {
    if Apart(names) {
      forall m, n | m in d.dirs && n in d.dirs && Less(m, n) ensures Less(m + [SLASH], n + [SLASH]) {
        assert m in names && n in names;
        var i :| 0 <= i < |names| && names[i] == m;
        var j :| 0 <= j < |names| && names[j] == n;
        LessIrreflexive(m);
        if j < i { LessAsymmetric(m, n); }
      }
    }
    if DirsApart(d) {
      forall i, j | 0 <= i < j < |names| ensures Less(names[i] + [SLASH], names[j] + [SLASH]) {
        assert names[i] in names && names[j] in names;
      }
    }
  }

  lemma InsideAll(d: Dir, names: seq<Text>)
    requires forall n :: n in names <==> n in d.dirs
    ensures InsideInOrder(d, names) <==> forall n | n in d.dirs :: FilesInOrder(d.dirs[n])
  {
    if InsideInOrder(d, names) {
      forall n | n in d.dirs ensures FilesInOrder(d.dirs[n]) {
        assert n in names;
        var i :| 0 <= i < |names| && names[i] == n;
      }
    }
    if forall n | n in d.dirs :: FilesInOrder(d.dirs[n]) {
      forall i | 0 <= i < |names| ensures FilesInOrder(d.dirs[names[i]]) { assert names[i] in names; }
    }
  }

  /** The walk lists the files in full-path order exactly when their names are in order at every level. */
  lemma {:induction false} FilesSorted(prefix: Text, d: Dir)
    requires WellFormed(d) && NoEmptyDirectories(d)
    ensures Sorted(Names(WalkFiles(prefix, d))) <==> FilesInOrder(d)
    decreases d, 1, 0
  {
    var files, dirs := SortedNames(d.files), SortedNames(d.dirs);
    var own, below := OwnFiles(prefix, d, files), FilesBelow(prefix, d, dirs);
    ConcatSorted(own, below);
    OwnSorted(prefix, d, files);
    OwnBeforeBelow(prefix, d, Names(own), Names(below));
    BelowSorted(prefix, d, dirs);
    ApartAll(d, dirs);
    InsideAll(d, dirs);
  }

  // ----- directories

  ghost predicate HasSubdirectory(d: Dir, n: Text)
    requires n in d.dirs
  {
    d.dirs[n].dirs != map[]
  }

  /** Every other directory of the level comes before "n/", if n has subdirectories. */
  ghost predicate SiblingsFirst(d: Dir) {
    forall m, n | m in d.dirs && n in d.dirs && m != n && HasSubdirectory(d, n) :: Less(m, n + [SLASH])
  }

  ghost predicate SubdirectoriesApart(d: Dir) {
    forall m, n | m in d.dirs && n in d.dirs && Less(m, n) && HasSubdirectory(d, m) && HasSubdirectory(d, n) ::
      Less(m + [SLASH], n + [SLASH])
  }

  ghost predicate DirectoriesInOrder(d: Dir)
    decreases d
  {
    SiblingsFirst(d) && SubdirectoriesApart(d) && forall n | n in d.dirs :: DirectoriesInOrder(d.dirs[n])
  }

  lemma SomeSubdirectory(d: Dir) returns (r: Text)
    requires WellFormed(d) && d.dirs != map[]
    ensures DirAt(d, r).Some?
  {
    assert d.dirs.Keys != {};
    r :| r in d.dirs;
    FirstSlashOf(r, []);
  }

  lemma NoneInside(d: Dir, r: Text)
    requires DirAt(d, r).Some?
    ensures d.dirs != map[]
  {
  }

  lemma WalkedDirectory(prefix: Text, d: Dir, i: nat) returns (r: Text)
    requires WellFormed(d) && i < |WalkDirectories(prefix, d)|
    ensures WalkDirectories(prefix, d)[i] == prefix + r && DirAt(d, r).Some?
  {
    var p := WalkDirectories(prefix, d)[i];
    WalkDirectoriesMembers(prefix, d, p);
    r := p[|prefix|..];
    assert p == prefix + r;
  }

  lemma DirectoryWalked(prefix: Text, d: Dir, r: Text) returns (i: nat)
    requires WellFormed(d) && DirAt(d, r).Some?
    ensures i < |WalkDirectories(prefix, d)| && WalkDirectories(prefix, d)[i] == prefix + r
  {
    var p := prefix + r;
    assert p[|prefix|..] == r;
    WalkDirectoriesMembers(prefix, d, p);
    i :| 0 <= i < |WalkDirectories(prefix, d)| && WalkDirectories(prefix, d)[i] == p;
  }

  lemma BelowDirectory(prefix: Text, d: Dir, names: seq<Text>, i: nat) returns (n: Text, r: Text)
    requires WellFormed(d) && (forall n | n in names :: n in d.dirs) && i < |DirectoriesBelow(prefix, d, names)|
    ensures n in names && DirAt(d.dirs[n], r).Some?
            && DirectoriesBelow(prefix, d, names)[i] == prefix + (n + [SLASH] + r)
  {
    var p := DirectoriesBelow(prefix, d, names)[i];
    DirectoriesBelowMembers(prefix, d, names, p);
    n, r := SplitPath(prefix, p);
    Enter(d, n, r);
  }

  lemma DirectoryBelow(prefix: Text, d: Dir, names: seq<Text>, n: Text, r: Text) returns (i: nat)
    requires WellFormed(d) && (forall n | n in names :: n in d.dirs) && n in names && DirAt(d.dirs[n], r).Some?
    ensures i < |DirectoriesBelow(prefix, d, names)|
            && DirectoriesBelow(prefix, d, names)[i] == prefix + (n + [SLASH] + r)
  {
    var q := n + [SLASH] + r;
    assert (prefix + q)[|prefix|..] == q;
    Enter(d, n, r);
    FirstSlashOf(n, r);
    assert q[..|n|] == n;
    DirectoriesBelowMembers(prefix, d, names, prefix + q);
    i :| 0 <= i < |DirectoriesBelow(prefix, d, names)| && DirectoriesBelow(prefix, d, names)[i] == prefix + q;
  }

  lemma {:induction false} OwnDirectoriesAt(prefix: Text, names: seq<Text>)
    ensures |OwnDirectories(prefix, names)| == |names|
    ensures forall i | 0 <= i < |names| :: OwnDirectories(prefix, names)[i] == prefix + names[i]
  {
    if names != [] { OwnDirectoriesAt(prefix, names[1..]); }
  }

  lemma OwnDirectoriesSorted(prefix: Text, names: seq<Text>)
    requires Sorted(names)
    ensures Sorted(OwnDirectories(prefix, names))
  {
    OwnDirectoriesAt(prefix, names);
    var own := OwnDirectories(prefix, names);
    forall i, j | 0 <= i < j < |own| ensures Less(own[i], own[j]) { LessPrefix(prefix, names[i], names[j]); }
  }

  /** A directory against a path below itself. */
  lemma {:induction false} NameBeforeInside(n: Text, r: Text)
    ensures Less(n, n + [SLASH] + r)
  {
    if n != [] {
      assert (n + [SLASH] + r)[1..] == n[1..] + [SLASH] + r;
      NameBeforeInside(n[1..], r);
    }
  }

  lemma SiblingThenBelow(prefix: Text, d: Dir, names: seq<Text>, m: Text, n: Text)
    requires WellFormed(d) && names == SortedNames(d.dirs) && m in d.dirs && n in d.dirs && HasSubdirectory(d, n)
    requires Before(OwnDirectories(prefix, names), DirectoriesBelow(prefix, d, names))
    ensures Less(m, n + [SLASH])
  {
    OwnDirectoriesAt(prefix, names);
    var i :| 0 <= i < |names| && names[i] == m;
    var r := SomeSubdirectory(d.dirs[n]);
    var j := DirectoryBelow(prefix, d, names, n, r);
    assert Less(OwnDirectories(prefix, names)[i], DirectoriesBelow(prefix, d, names)[j]);
    LessPrefix(prefix, m, n + [SLASH] + r);
    NameAgainstPath(m, n, r);
  }

  lemma BelowAfterSibling(prefix: Text, d: Dir, names: seq<Text>, i: nat, j: nat)
    requires WellFormed(d) && names == SortedNames(d.dirs) && SiblingsFirst(d)
    requires i < |OwnDirectories(prefix, names)| && j < |DirectoriesBelow(prefix, d, names)|
    ensures Less(OwnDirectories(prefix, names)[i], DirectoriesBelow(prefix, d, names)[j])
  {
    OwnDirectoriesAt(prefix, names);
    var n, r := BelowDirectory(prefix, d, names, j);
    var m := names[i];
    assert m in names;
    NoneInside(d.dirs[n], r);
    if m == n {
      NameBeforeInside(n, r);
    } else {
      assert HasSubdirectory(d, n);
      NameAgainstPath(m, n, r);
    }
    LessPrefix(prefix, m, n + [SLASH] + r);
  }

  lemma OwnDirectoriesFirst(prefix: Text, d: Dir, names: seq<Text>, own: seq<Text>, below: seq<Text>)
    requires WellFormed(d) && names == SortedNames(d.dirs)
    requires own == OwnDirectories(prefix, names) && below == DirectoriesBelow(prefix, d, names)
    ensures Before(own, below) <==> SiblingsFirst(d)
  {
    if Before(own, below) {
      forall m, n | m in d.dirs && n in d.dirs && m != n && HasSubdirectory(d, n) ensures Less(m, n + [SLASH]) {
        SiblingThenBelow(prefix, d, names, m, n);
      }
    }
    if SiblingsFirst(d) {
      forall i, j | 0 <= i < |own| && 0 <= j < |below| ensures Less(own[i], below[j]) {
        BelowAfterSibling(prefix, d, names, i, j);
      }
    }
  }

  /** The paths below the first directory come before those below the later ones, where there are any. */
  ghost predicate FirstSubApart(d: Dir, names: seq<Text>)
    requires (forall n | n in names :: n in d.dirs) && names != []
  {
    forall j | 0 < j < |names| && HasSubdirectory(d, names[0]) && HasSubdirectory(d, names[j]) ::
      Less(names[0] + [SLASH], names[j] + [SLASH])
  }

  lemma FirstThenOtherDirectory(prefix: Text, d: Dir, names: seq<Text>, j: nat)
    requires WellFormed(d) && (forall n | n in names :: n in d.dirs) && 0 < j < |names| && Sorted(names)
    requires HasSubdirectory(d, names[0]) && HasSubdirectory(d, names[j])
    requires Before(WalkDirectories(prefix + names[0] + [SLASH], d.dirs[names[0]]),
                    DirectoriesBelow(prefix, d, names[1..]))
    ensures Less(names[0] + [SLASH], names[j] + [SLASH])
  {
    var m, n, rest := names[0], names[j], names[1..];
    var inner := prefix + m + [SLASH];
    assert m in names && n in names && rest[j - 1] == n;
    var s := SomeSubdirectory(d.dirs[m]);
    var r := SomeSubdirectory(d.dirs[n]);
    var i := DirectoryWalked(inner, d.dirs[m], s);
    var k := DirectoryBelow(prefix, d, rest, n, r);
    assert Less(WalkDirectories(inner, d.dirs[m])[i], DirectoriesBelow(prefix, d, rest)[k]);
    TwoPaths(prefix, m, s, n, r);
  }

  lemma OtherDirectoryAfterFirst(prefix: Text, d: Dir, names: seq<Text>, i: nat, k: nat)
    requires WellFormed(d) && (forall n | n in names :: n in d.dirs) && names != [] && Sorted(names)
             && FirstSubApart(d, names)
    requires i < |WalkDirectories(prefix + names[0] + [SLASH], d.dirs[names[0]])|
             && k < |DirectoriesBelow(prefix, d, names[1..])|
    ensures Less(WalkDirectories(prefix + names[0] + [SLASH], d.dirs[names[0]])[i],
                 DirectoriesBelow(prefix, d, names[1..])[k])
  {
    var m, rest := names[0], names[1..];
    assert m in names;
    var s := WalkedDirectory(prefix + m + [SLASH], d.dirs[m], i);
    var n, r := BelowDirectory(prefix, d, rest, k);
    var j :| 0 <= j < |rest| && rest[j] == n;
    assert names[j + 1] == n;
    NoneInside(d.dirs[m], s);
    NoneInside(d.dirs[n], r);
    TwoPaths(prefix, m, s, n, r);
  }

  lemma FirstDirectoriesFirst(prefix: Text, d: Dir, names: seq<Text>, first: seq<Text>, rest: seq<Text>)
    requires WellFormed(d) && (forall n | n in names :: n in d.dirs) && names != [] && Sorted(names)
    requires first == WalkDirectories(prefix + names[0] + [SLASH], d.dirs[names[0]])
    requires rest == DirectoriesBelow(prefix, d, names[1..])
    ensures Before(first, rest) <==> FirstSubApart(d, names)
  {
    if Before(first, rest) {
      forall j | 0 < j < |names| && HasSubdirectory(d, names[0]) && HasSubdirectory(d, names[j])
        ensures Less(names[0] + [SLASH], names[j] + [SLASH])
      {
        FirstThenOtherDirectory(prefix, d, names, j);
      }
    }
    if FirstSubApart(d, names) {
      forall i, k | 0 <= i < |first| && 0 <= k < |rest| ensures Less(first[i], rest[k]) {
        OtherDirectoryAfterFirst(prefix, d, names, i, k);
      }
    }
  }

  ghost predicate SubApart(d: Dir, names: seq<Text>)
    requires forall n | n in names :: n in d.dirs
  {
    forall i, j | 0 <= i < j < |names| && HasSubdirectory(d, names[i]) && HasSubdirectory(d, names[j]) ::
      Less(names[i] + [SLASH], names[j] + [SLASH])
  }

  ghost predicate InsideDirectories(d: Dir, names: seq<Text>)
    requires forall n | n in names :: n in d.dirs
  {
    forall i | 0 <= i < |names| :: DirectoriesInOrder(d.dirs[names[i]])
  }

  lemma SubApartStep(d: Dir, names: seq<Text>)
    requires (forall n | n in names :: n in d.dirs) && names != []
    ensures SubApart(d, names) <==> FirstSubApart(d, names) && SubApart(d, names[1..])
  {
    var rest := names[1..];
    if SubApart(d, names) {
      forall i, j | 0 <= i < j < |rest| && HasSubdirectory(d, rest[i]) && HasSubdirectory(d, rest[j])
        ensures Less(rest[i] + [SLASH], rest[j] + [SLASH])
      {
        assert rest[i] == names[i + 1] && rest[j] == names[j + 1];
      }
    }
    if FirstSubApart(d, names) && SubApart(d, rest) {
      forall i, j | 0 <= i < j < |names| && HasSubdirectory(d, names[i]) && HasSubdirectory(d, names[j])
        ensures Less(names[i] + [SLASH], names[j] + [SLASH])
      {
        if i > 0 { assert rest[i - 1] == names[i] && rest[j - 1] == names[j]; }
      }
    }
  }

  lemma InsideDirectoriesStep(d: Dir, names: seq<Text>)
    requires (forall n | n in names :: n in d.dirs) && names != []
    ensures InsideDirectories(d, names) <==> DirectoriesInOrder(d.dirs[names[0]]) && InsideDirectories(d, names[1..])
  {
    var rest := names[1..];
    if InsideDirectories(d, names) {
      forall i | 0 <= i < |rest| ensures DirectoriesInOrder(d.dirs[rest[i]]) { assert rest[i] == names[i + 1]; }
    }
    if DirectoriesInOrder(d.dirs[names[0]]) && InsideDirectories(d, rest) {
      forall i | 0 <= i < |names| ensures DirectoriesInOrder(d.dirs[names[i]]) {
        if i > 0 { assert rest[i - 1] == names[i]; }
      }
    }
  }

  lemma {:induction false} BelowDirectoriesSorted(prefix: Text, d: Dir, names: seq<Text>)
    requires WellFormed(d) && (forall n | n in names :: n in d.dirs) && Sorted(names)
    ensures Sorted(DirectoriesBelow(prefix, d, names)) <==> InsideDirectories(d, names) && SubApart(d, names)
    decreases d, 0, |names|
  {
    if names != [] {
      var inner := prefix + names[0] + [SLASH];
      var first, rest := WalkDirectories(inner, d.dirs[names[0]]), DirectoriesBelow(prefix, d, names[1..]);
      DirectoriesSorted(inner, d.dirs[names[0]]);
      BelowDirectoriesSorted(prefix, d, names[1..]);
      BelowDirectoriesStep(prefix, d, names, first, rest);
    }
  }

  lemma BelowDirectoriesStep(prefix: Text, d: Dir, names: seq<Text>, first: seq<Text>, rest: seq<Text>)
    requires WellFormed(d) && (forall n | n in names :: n in d.dirs) && names != [] && Sorted(names)
    requires first == WalkDirectories(prefix + names[0] + [SLASH], d.dirs[names[0]])
    requires rest == DirectoriesBelow(prefix, d, names[1..])
    requires Sorted(first) <==> DirectoriesInOrder(d.dirs[names[0]])
    requires Sorted(rest) <==> InsideDirectories(d, names[1..]) && SubApart(d, names[1..])
    ensures Sorted(first + rest) <==> InsideDirectories(d, names) && SubApart(d, names)
  {
    SortedConcat(first, rest);
    FirstDirectoriesFirst(prefix, d, names, first, rest);
    InsideDirectoriesStep(d, names);
    SubApartStep(d, names);
  }

  lemma SubApartAll(d: Dir, names: seq<Text>)
    requires Sorted(names) && forall n :: n in names <==> n in d.dirs
    ensures SubApart(d, names) <==> SubdirectoriesApart(d)
  {
    if SubApart(d, names) {
      forall m, n | m in d.dirs && n in d.dirs && Less(m, n) && HasSubdirectory(d, m) && HasSubdirectory(d, n)
        ensures Less(m + [SLASH], n + [SLASH])
      {
        assert m in names && n in names;
        var i :| 0 <= i < |names| && names[i] == m;
        var j :| 0 <= j < |names| && names[j] == n;
        LessIrreflexive(m);
        if j < i { LessAsymmetric(m, n); }
      }
    }
    if SubdirectoriesApart(d) {
      forall i, j | 0 <= i < j < |names| && HasSubdirectory(d, names[i]) && HasSubdirectory(d, names[j])
        ensures Less(names[i] + [SLASH], names[j] + [SLASH])
      {
        assert names[i] in names && names[j] in names;
      }
    }
  }

  lemma InsideDirectoriesAll(d: Dir, names: seq<Text>)
    requires forall n :: n in names <==> n in d.dirs
    ensures InsideDirectories(d, names) <==> forall n | n in d.dirs :: DirectoriesInOrder(d.dirs[n])
  {
    if InsideDirectories(d, names) {
      forall n | n in d.dirs ensures DirectoriesInOrder(d.dirs[n]) {
        assert n in names;
        var i :| 0 <= i < |names| && names[i] == n;
      }
    }
    if forall n | n in d.dirs :: DirectoriesInOrder(d.dirs[n]) {
      forall i | 0 <= i < |names| ensures DirectoriesInOrder(d.dirs[names[i]]) { assert names[i] in names; }
    }
  }

  /** The walk lists the directories in full-path order exactly when their names are in order at every level. */
  lemma {:induction false} DirectoriesSorted(prefix: Text, d: Dir)
    requires WellFormed(d)
    ensures Sorted(WalkDirectories(prefix, d)) <==> DirectoriesInOrder(d)
    decreases d, 1, 0
  {
    var names := SortedNames(d.dirs);
    var own, below := OwnDirectories(prefix, names), DirectoriesBelow(prefix, d, names);
    SortedConcat(own, below);
    OwnDirectoriesSorted(prefix, names);
    OwnDirectoriesFirst(prefix, d, names, own, below);
    BelowDirectoriesSorted(prefix, d, names);
    SubApartAll(d, names);
    InsideDirectoriesAll(d, names);
  }

  // ----- the two digests

  /** A pack gets the same digest from its checkout and from raw Git exactly when its names are in order at every
      level. */
  lemma DigestsAgreeByNames(d: Dir, members: map<Text, Text>)
    requires WellFormed(d) && NoEmptyDirectories(d) && Represents(members, d)
    requires forall p | p in members :: Fits(p) && Fits(members[p])
    ensures WalkPreimage(d) == GitPreimage(members) <==> FilesInOrder(d) && DirectoriesInOrder(d)
  {
    DigestsAgree(d, members);
    FilesSorted([], d);
    DirectoriesSorted([], d);
  }
}
