/** The lexicographic order of Python strings (by code point) and byte strings (by byte), and
    `sorted(set(...))` under it. */
module Ordering {
  type Text = seq<int>

  /** The code points of a literal. */
  function Chars(s: string): (t: Text)
    ensures |t| == |s| && forall i | 0 <= i < |s| :: t[i] == s[i] as int
  {
    seq(|s|, i requires 0 <= i < |s| => s[i] as int)
  }

  predicate Less(a: Text, b: Text) {
    b != [] && (a == [] || a[0] < b[0] || (a[0] == b[0] && Less(a[1..], b[1..])))
  }

  predicate Leq(a: Text, b: Text) {
    a == b || Less(a, b)
  }

  /** Strictly increasing: ordered and free of duplicates. */
  ghost predicate Sorted(s: seq<Text>) {
    forall i, j | 0 <= i < j < |s| :: Less(s[i], s[j])
  }

  ghost function Elements(s: seq<Text>): set<Text> {
    set x | x in s
  }

  lemma {:induction false} LessIrreflexive(a: Text)
    ensures !Less(a, a)
  {
    if a != [] { LessIrreflexive(a[1..]); }
  }

  lemma {:induction false} LessPrefix(p: Text, a: Text, b: Text)
    ensures Less(p + a, p + b) <==> Less(a, b)
  {
    if p == [] {
      assert p + a == a && p + b == b;
    } else {
      assert (p + a)[1..] == p[1..] + a && (p + b)[1..] == p[1..] + b;
      LessPrefix(p[1..], a, b);
    }
  }

  lemma {:induction false} LessTransitive(a: Text, b: Text, c: Text)
    requires Less(a, b) && Less(b, c)
    ensures Less(a, c)
  {
    if a != [] && a[0] == b[0] && b[0] == c[0] { LessTransitive(a[1..], b[1..], c[1..]); }
  }

  lemma {:induction false} LessTotal(a: Text, b: Text)
    ensures a == b || Less(a, b) || Less(b, a)
  {
    if a != [] && b != [] && a[0] == b[0] {
      LessTotal(a[1..], b[1..]);
      assert a == [a[0]] + a[1..] && b == [b[0]] + b[1..];
    }
  }

  lemma LessAsymmetric(a: Text, b: Text)
    requires Less(a, b)
    ensures !Less(b, a)
  {
    if Less(b, a) {
      LessTransitive(a, b, a);
      LessIrreflexive(a);
    }
  }

  /** The place that decides: equal before it, and there one text ends or has the smaller character. */
  ghost predicate Decides(a: Text, b: Text, k: nat) {
    k <= |a| && k < |b| && (forall i | 0 <= i < k :: a[i] == b[i]) && (k < |a| ==> a[k] < b[k])
  }

  lemma {:induction false} LessExactly(a: Text, b: Text)
    ensures Less(a, b) <==> exists k: nat :: Decides(a, b, k)
  {
    if a == [] || b == [] || a[0] != b[0] {
      assert Less(a, b) ==> Decides(a, b, 0);
      assert forall k: nat | Decides(a, b, k) :: k == 0;
    } else {
      LessExactly(a[1..], b[1..]);
      forall k: nat | Decides(a, b, k) ensures Decides(a[1..], b[1..], k - 1) {
        forall i | 0 <= i < k - 1 ensures a[1..][i] == b[1..][i] { assert a[i + 1] == b[i + 1]; }
      }
      forall k: nat | Decides(a[1..], b[1..], k) ensures Decides(a, b, k + 1) {
        forall i | 0 <= i < k + 1 ensures a[i] == b[i] { if i > 0 { assert a[1..][i - 1] == b[1..][i - 1]; } }
      }
    }
  }

  lemma LeastExists(s: set<Text>) returns (m: Text)
    requires s != {}
    ensures m in s && forall x | x in s :: Leq(m, x)
  {
    m :| m in s;
    if s != {m} {
      var n := LeastExists(s - {m});
      LessTotal(m, n);
      if Less(n, m) {
        m := n;
      } else {
        forall x | x in s ensures Leq(m, x) {
          if x != m && x != n { assert x in s - {m}; LessTransitive(m, n, x); }
        }
      }
    }
  }

  /** `sorted` of a set. */
  ghost function Sort(s: set<Text>): (r: seq<Text>)
    ensures Sorted(r) && Elements(r) == s && |r| == |s|
  {
    if s == {} then []
    else
      assert exists m :: m in s && forall x | x in s :: Leq(m, x) by { var _ := LeastExists(s); }
      var m :| m in s && forall x | x in s :: Leq(m, x);
      var rest := Sort(s - {m});
      PrependLeast(m, rest, s);
      [m] + rest
  }

  lemma PrependLeast(m: Text, rest: seq<Text>, s: set<Text>)
    requires m in s && (forall x | x in s :: Leq(m, x))
    requires Sorted(rest) && Elements(rest) == s - {m}
    ensures Sorted([m] + rest) && Elements([m] + rest) == s
  {
    var r := [m] + rest;
    forall i, j | 0 <= i < j < |r| ensures Less(r[i], r[j]) {
      if i == 0 {
        assert r[j] in Elements(rest);
        assert r[j] in s && r[j] != m;
      } else {
        assert r[i] == rest[i - 1] && r[j] == rest[j - 1];
      }
    }
    forall x ensures x in Elements(r) <==> x in s {
      assert x in r <==> x == m || x in rest;
      assert x in rest <==> x in Elements(rest);
    }
  }

  lemma NoElements(s: seq<Text>)
    requires Elements(s) == {}
    ensures s == []
  {
    if s != [] { SomeElement(s); }
  }

  lemma SomeElement(s: seq<Text>)
    requires s != []
    ensures Elements(s) != {}
  {
    assert s[0] in Elements(s);
  }

  /** A strictly sorted sequence is determined by its elements. */
  lemma {:induction false} SortedUnique(a: seq<Text>, b: seq<Text>)
    requires Sorted(a) && Sorted(b) && Elements(a) == Elements(b)
    ensures a == b
  {
    if a == [] {
      NoElements(b);
    } else {
      assert a[0] in Elements(a);
      var i :| 0 <= i < |b| && b[i] == a[0];
      assert b[0] in Elements(b);
      var j :| 0 <= j < |a| && a[j] == b[0];
      if i > 0 && j > 0 { LessAsymmetric(a[0], b[0]); }
      assert a[0] == b[0];
      forall x ensures x in Elements(a[1..]) <==> x in Elements(b[1..]) {
        LessIrreflexive(x);
        assert x in Elements(a[1..]) <==> x in Elements(a) && x != a[0];
        assert x in Elements(b[1..]) <==> x in Elements(b) && x != b[0];
      }
      SortedUnique(a[1..], b[1..]);
      assert a == [a[0]] + a[1..] && b == [b[0]] + b[1..];
    }
  }

  lemma SortOfSorted(s: seq<Text>)
    requires Sorted(s)
    ensures Sort(Elements(s)) == s
  {
    SortedUnique(Sort(Elements(s)), s);
  }
}
