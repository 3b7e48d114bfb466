/** The material rows of a bundle: collecting them within the limits, sorting them, and why the order in which they are
    supplied does not matter. */
module BundleOrder {
  import opened Wrappers
  import opened Ordering
  import opened BundleManifest

  const MAX_TOTAL_BYTES := 64 * 1024 * 1024

  /** A supplied file, and the same file with its role, digest and size. */
  datatype Material = Material(role: Text, data: Text)
  datatype Loaded = Loaded(row: Row, data: Text)

  type Hash = Text -> Text

  function Load(m: Material, sha: Hash): Loaded { Loaded(Row(m.role, sha(m.data), |m.data|), m.data) }

  function LoadAll(ms: seq<Material>, sha: Hash): (s: seq<Loaded>)
    ensures |s| == |ms| && forall i | 0 <= i < |ms| :: s[i] == Load(ms[i], sha)
  {
    seq(|ms|, i requires 0 <= i < |ms| => Load(ms[i], sha))
  }

  function Rows(s: seq<Loaded>): (rows: seq<Row>)
    ensures |rows| == |s| && forall i | 0 <= i < |s| :: rows[i] == s[i].row
  {
    seq(|s|, i requires 0 <= i < |s| => s[i].row)
  }

  function Total(s: seq<Loaded>): nat {
    if s == [] then 0 else Total(s[..|s| - 1]) + |s[|s| - 1].data|
  }

  // ----- collecting

  predicate Acceptable(x: Loaded) { IsRole(x.row.role) && |x.data| <= MAX_MATERIAL_BYTES }

  /** The limits on the supplied materials. */
  predicate Collectable(start: nat, s: seq<Loaded>) {
    |s| <= MAX_MATERIALS && (forall i | 0 <= i < |s| :: Acceptable(s[i])) && start + Total(s) <= MAX_TOTAL_BYTES
  }

  /** The creator's loop over the materials, with the running total and the remaining allowance. */
  method CollectMaterials(start: nat, ms: seq<Material>, sha: Hash) returns (r: Option<seq<Loaded>>)
    requires start <= MAX_TOTAL_BYTES
    ensures r == if Collectable(start, LoadAll(ms, sha)) then Some(LoadAll(ms, sha)) else None
  {
    ghost var all := LoadAll(ms, sha);
    var total, rows := start, [];
    for i := 0 to |ms|
      invariant rows == all[..i] && total == start + Total(all[..i]) && Collectable(start, all[..i])
    {
      CollectStep(start, all, i);
      TotalStep(all, i);
      if |rows| >= MAX_MATERIALS || !IsRole(ms[i].role) { return None; }
      var remaining := MAX_TOTAL_BYTES - total;
      var limit := if MAX_MATERIAL_BYTES <= remaining then MAX_MATERIAL_BYTES else remaining;
      if |ms[i].data| > limit { return None; }
      total := total + |ms[i].data|;
      rows := rows + [Load(ms[i], sha)];
    }
    assert all[..|ms|] == all;
    r := Some(rows);
  }

  lemma TotalStep(s: seq<Loaded>, i: nat)
    requires i < |s|
    ensures Total(s[..i + 1]) == Total(s[..i]) + |s[i].data|
  {
    assert s[..i + 1][..i] == s[..i];
  }

  lemma {:induction false} TotalGrows(s: seq<Loaded>, i: nat)
    requires i <= |s|
    ensures Total(s[..i]) <= Total(s)
    decreases |s| - i
  {
    if i < |s| {
      TotalStep(s, i);
      TotalGrows(s, i + 1);
    } else {
      assert s[..i] == s;
    }
  }

  lemma CollectStep(start: nat, s: seq<Loaded>, i: nat)
    requires i < |s| && Collectable(start, s[..i])
    ensures Collectable(start, s[..i + 1]) <==>
            i < MAX_MATERIALS && Acceptable(s[i]) && start + Total(s[..i]) + |s[i].data| <= MAX_TOTAL_BYTES
    ensures Collectable(start, s) ==> Collectable(start, s[..i + 1])
  {
    TotalStep(s, i);
    TotalGrows(s, i + 1);
    var t := s[..i + 1];
    assert t == s[..i] + [s[i]];
    assert t[i] == s[i];
  }

  // ----- sorting

  function Insert(x: Loaded, s: seq<Loaded>): seq<Loaded> {
    if s == [] || !RowLess(s[0].row, x.row) then [x] + s else [s[0]] + Insert(x, s[1..])
  }

  /** `sort(key=(role, digest, size))` */
  function SortLoaded(s: seq<Loaded>): seq<Loaded> {
    if s == [] then [] else Insert(s[0], SortLoaded(s[1..]))
  }

  ghost predicate RoleSorted(s: seq<Loaded>) { forall i, j | 0 <= i < j < |s| :: Less(s[i].row.role, s[j].row.role) }

  lemma {:induction false} InsertElements(x: Loaded, s: seq<Loaded>)
    ensures |Insert(x, s)| == |s| + 1 && forall y :: y in Insert(x, s) <==> y == x || y in s
  {
    if s != [] && RowLess(s[0].row, x.row) {
      InsertElements(x, s[1..]);
      assert forall y :: y in s <==> y == s[0] || y in s[1..];
    }
  }

  lemma {:induction false} SortElements(s: seq<Loaded>)
    ensures |SortLoaded(s)| == |s| && forall y :: y in SortLoaded(s) <==> y in s
  {
    if s != [] {
      SortElements(s[1..]);
      InsertElements(s[0], SortLoaded(s[1..]));
      assert forall y :: y in s <==> y == s[0] || y in s[1..];
    }
  }

  lemma {:induction false} TotalFirst(s: seq<Loaded>)
    requires s != []
    ensures Total(s) == |s[0].data| + Total(s[1..])
  {
    var n := |s| - 1;
    if n > 0 {
      TotalFirst(s[..n]);
      assert s[..n][1..] == s[1..][..n - 1];
    }
  }

  lemma {:induction false} InsertTotal(x: Loaded, s: seq<Loaded>)
    ensures Total(Insert(x, s)) == |x.data| + Total(s)
  {
    var r := Insert(x, s);
    TotalFirst(r);
    if s != [] && RowLess(s[0].row, x.row) {
      InsertTotal(x, s[1..]);
      TotalFirst(s);
      assert r[1..] == Insert(x, s[1..]);
    } else {
      assert r[1..] == s;
    }
  }

  lemma {:induction false} SortTotal(s: seq<Loaded>)
    ensures Total(SortLoaded(s)) == Total(s)
  {
    if s != [] {
      SortTotal(s[1..]);
      InsertTotal(s[0], SortLoaded(s[1..]));
      TotalFirst(s);
    }
  }

  lemma SortCollectable(start: nat, s: seq<Loaded>)
    ensures Collectable(start, SortLoaded(s)) == Collectable(start, s)
  {
    SortElements(s);
    SortTotal(s);
    var t := SortLoaded(s);
    assert (forall i | 0 <= i < |s| :: Acceptable(s[i])) <==> (forall y | y in s :: Acceptable(y));
    assert (forall i | 0 <= i < |t| :: Acceptable(t[i])) <==> (forall y | y in t :: Acceptable(y));
  }

  lemma SameRoles(s: seq<Loaded>, t: seq<Loaded>)
    requires |s| == |t| && forall y :: y in s <==> y in t
    ensures RoleSet(Rows(s)) == RoleSet(Rows(t)) && (DistinctRoles(Rows(s)) <==> DistinctRoles(Rows(t)))
  {
    RolesOf(s);
    RolesOf(t);
    assert RoleSet(Rows(s)) == RoleSet(Rows(t));
  }

  lemma RolesOf(s: seq<Loaded>)
    ensures RoleSet(Rows(s)) == set y | y in s :: y.row.role
  {
    forall role ensures role in RoleSet(Rows(s)) <==> role in set y | y in s :: y.row.role {
      if role in RoleSet(Rows(s)) {
        var row :| row in Rows(s) && row.role == role;
        var i :| 0 <= i < |s| && Rows(s)[i] == row;
        assert s[i] in s;
      }
      if role in set y | y in s :: y.row.role {
        var y :| y in s && y.row.role == role;
        var i :| 0 <= i < |s| && s[i] == y;
        assert Rows(s)[i] in Rows(s);
      }
    }
  }

  lemma {:induction false} InsertSorted(x: Loaded, s: seq<Loaded>)
    requires RoleSorted(s) && forall y | y in s :: y.row.role != x.row.role
    ensures RoleSorted(Insert(x, s))
  {
    var r := Insert(x, s);
    if s == [] {
    } else if RowLess(s[0].row, x.row) {
      InsertSorted(x, s[1..]);
      InsertElements(x, s[1..]);
      PrependSorted(s[0], Insert(x, s[1..]));
    } else {
      LessTotal(s[0].row.role, x.row.role);
      assert s[0] in s;
      forall y | y in s ensures Less(x.row.role, y.row.role) {
        if y != s[0] { LessTransitive(x.row.role, s[0].row.role, y.row.role); }
      }
      PrependSorted(x, s);
    }
  }

  lemma PrependSorted(x: Loaded, s: seq<Loaded>)
    requires RoleSorted(s) && forall y | y in s :: Less(x.row.role, y.row.role)
    ensures RoleSorted([x] + s)
  {
    var r := [x] + s;
    forall i, j | 0 <= i < j < |r| ensures Less(r[i].row.role, r[j].row.role) {
      assert r[j] == s[j - 1];
      if i > 0 { assert r[i] == s[i - 1]; }
    }
  }

  ghost predicate Pairwise(s: seq<Loaded>) { forall i, j | 0 <= i < j < |s| :: s[i].row.role != s[j].row.role }

  lemma {:induction false} SortSorts(s: seq<Loaded>)
    requires Pairwise(s)
    ensures RoleSorted(SortLoaded(s))
  {
    if s != [] {
      SortSorts(s[1..]);
      SortElements(s[1..]);
      forall y | y in SortLoaded(s[1..]) ensures y.row.role != s[0].row.role {
        assert y in s[1..];
        var j :| 0 <= j < |s[1..]| && s[1..][j] == y;
        assert s[j + 1] == y;
      }
      InsertSorted(s[0], SortLoaded(s[1..]));
    }
  }

  lemma DistinctSorts(s: seq<Loaded>)
    requires DistinctRoles(Rows(s))
    ensures RoleSorted(SortLoaded(s))
  {
    forall i, j | 0 <= i < j < |s| ensures s[i].row.role != s[j].row.role { DistinctPairs(Rows(s), i, j); }
    SortSorts(s);
  }

  // ----- one arrangement

  function Roles(s: seq<Loaded>): (roles: seq<Text>)
    ensures |roles| == |s| && forall i | 0 <= i < |s| :: roles[i] == s[i].row.role
  {
    seq(|s|, i requires 0 <= i < |s| => s[i].row.role)
  }

  lemma RolesSubset(s: seq<Loaded>, t: seq<Loaded>)
    requires forall y :: y in s ==> y in t
    ensures Elements(Roles(s)) <= Elements(Roles(t))
  {
    forall role | role in Elements(Roles(s)) ensures role in Elements(Roles(t)) {
      var i :| 0 <= i < |s| && Roles(s)[i] == role;
      assert s[i] in t;
      var j :| 0 <= j < |t| && t[j] == s[i];
      assert Roles(t)[j] == role;
    }
  }

  /** Strictly sorted by role, a list is determined by its elements. */
  lemma OneArrangement(s: seq<Loaded>, t: seq<Loaded>)
    requires RoleSorted(s) && RoleSorted(t) && forall y :: y in s <==> y in t
    ensures s == t
  {
    RolesSubset(s, t);
    RolesSubset(t, s);
    SortedUnique(Roles(s), Roles(t));
    forall i | 0 <= i < |s| ensures s[i] == t[i] {
      assert s[i] in t;
      var j :| 0 <= j < |t| && t[j] == s[i];
      assert Roles(s)[i] == Roles(t)[i];
      LessIrreflexive(s[i].row.role);
    }
  }

  lemma SortOfSortedRows(s: seq<Loaded>)
    requires RoleSorted(s)
    ensures SortLoaded(s) == s
  {
    forall i, j | 0 <= i < j < |s| ensures s[i].row.role != s[j].row.role { LessIrreflexive(s[i].row.role); }
    SortSorts(s);
    SortElements(s);
    OneArrangement(SortLoaded(s), s);
  }

  /** In order and without repeated roles is the same as strictly sorted by role. */
  lemma ListedIsSorted(s: seq<Loaded>)
    requires DistinctRoles(Rows(s)) && InOrder(Rows(s))
    ensures RoleSorted(s)
  {
    forall i, j | 0 <= i < j < |s| ensures Less(s[i].row.role, s[j].row.role) {
      DistinctPairs(Rows(s), i, j);
      LessTotal(s[i].row.role, s[j].row.role);
      assert !RowLess(Rows(s)[j], Rows(s)[i]);
    }
  }

  lemma SortedIsInOrder(s: seq<Loaded>)
    requires RoleSorted(s)
    ensures InOrder(Rows(s))
  {
    forall i, j | 0 <= i < j < |s| ensures !RowLess(Rows(s)[j], Rows(s)[i]) {
      LessAsymmetric(s[i].row.role, s[j].row.role);
      LessIrreflexive(s[i].row.role);
    }
  }
}
