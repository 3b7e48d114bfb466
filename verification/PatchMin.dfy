/** `minimize_patch`: greedy delta debugging of a list of edits under an injected predicate. */
module PatchMin {
  import opened Wrappers

  datatype Error = PatchDoesNotPass

  function Without<T>(s: seq<T>, i: nat): (r: seq<T>)
    requires i < |s|
    ensures |r| == |s| - 1
  {
    s[..i] + s[i + 1..]
  }

  /** `u` is `s` with some edits left out, order preserved. */
  predicate Subsequence<T(==)>(u: seq<T>, s: seq<T>) {
    u == [] || (s != [] && ((u[0] == s[0] && Subsequence(u[1..], s[1..])) || Subsequence(u, s[1..])))
  }

  /** No single remaining edit can be dropped. */
  ghost predicate OneMinimal<T(!new)>(s: seq<T>, passes: seq<T> -> bool) {
    forall i | 0 <= i < |s| :: !passes(Without(s, i))
  }

  /** The restart loop as a function: drop the first edit that can be dropped, and start again. */
  function Greedy<T>(s: seq<T>, passes: seq<T> -> bool): (r: seq<T>)
    decreases |s|
  {
    var i := FirstDroppable(s, passes, 0);
    if i < |s| then Greedy(Without(s, i), passes) else s
  }

  function FirstDroppable<T>(s: seq<T>, passes: seq<T> -> bool, from: nat): (i: nat)
    requires from <= |s|
    ensures from <= i <= |s|
    ensures i < |s| ==> passes(Without(s, i))
    ensures forall j | from <= j < i :: !passes(Without(s, j))
    decreases |s| - from
  {
    if from == |s| then from else if passes(Without(s, from)) then from else FirstDroppable(s, passes, from + 1)
  }

  /** The largest number of predicate calls that sweeping a list of n edits can take. */
  function Triangle(n: nat): (t: nat)
    ensures 2 * t == n * (n + 1)
  {
    if n == 0 then 0 else n + Triangle(n - 1)
  }

  lemma {:induction false} SubsequenceRefl<T>(s: seq<T>)
    ensures Subsequence(s, s)
  {
    if s != [] { SubsequenceRefl(s[1..]); }
  }

  lemma {:induction false} SubsequenceTail<T>(u: seq<T>, s: seq<T>)
    requires u != [] && Subsequence(u, s)
    ensures Subsequence(u[1..], s)
    decreases |s|
  {
    if u[0] == s[0] && Subsequence(u[1..], s[1..]) {
      if |u| > 1 { assert u[1..] != []; }
    } else {
      SubsequenceTail(u, s[1..]);
    }
  }

  lemma {:induction false} SubsequenceTrans<T>(a: seq<T>, b: seq<T>, c: seq<T>)
    requires Subsequence(a, b) && Subsequence(b, c)
    ensures Subsequence(a, c)
    decreases |b| + |c|
  {
    if a != [] {
      if b[0] == c[0] && Subsequence(b[1..], c[1..]) {
        if a[0] == b[0] && Subsequence(a[1..], b[1..]) {
          SubsequenceTrans(a[1..], b[1..], c[1..]);
        } else {
          SubsequenceTrans(a, b[1..], c[1..]);
        }
      } else {
        SubsequenceTrans(a, b, c[1..]);
      }
    }
  }

  lemma {:induction false} WithoutIsSubsequence<T>(s: seq<T>, i: nat)
    requires i < |s|
    ensures Subsequence(Without(s, i), s)
  {
    if i == 0 {
      assert Without(s, 0) == s[1..];
      SubsequenceRefl(s[1..]);
    } else {
      WithoutIsSubsequence(s[1..], i - 1);
      assert Without(s, i)[1..] == Without(s[1..], i - 1);
    }
  }

  /** A proper subsequence leaves out at least one position. */
  lemma {:induction false} ProperMissesOne<T>(u: seq<T>, s: seq<T>) returns (i: nat)
    requires Subsequence(u, s) && u != s
    ensures i < |s| && Subsequence(u, Without(s, i))
  {
    assert s != [];
    if u != [] && u[0] == s[0] && Subsequence(u[1..], s[1..]) {
      assert u == [u[0]] + u[1..] && s == [s[0]] + s[1..];
      i := ProperMissesOne(u[1..], s[1..]);
      assert Without(s, i + 1)[1..] == Without(s[1..], i);
      i := i + 1;
    } else {
      i := 0;
      assert Without(s, 0) == s[1..];
    }
  }

  /** What the restart loop returns, for every predicate. */
  lemma {:induction false} GreedyResult<T(!new)>(s: seq<T>, passes: seq<T> -> bool)
    requires passes(s)
    ensures passes(Greedy(s, passes)) && Subsequence(Greedy(s, passes), s) && OneMinimal(Greedy(s, passes), passes)
    decreases |s|
  {
    var i := FirstDroppable(s, passes, 0);
    if i < |s| {
      GreedyResult(Without(s, i), passes);
      WithoutIsSubsequence(s, i);
      SubsequenceTrans(Greedy(s, passes), Without(s, i), s);
    } else {
      SubsequenceRefl(s);
    }
  }

  method MinimizePatch<T(!new)>(edits: seq<T>, passes: seq<T> -> bool)
    returns (r: Result<seq<T>, Error>, calls: nat)
    ensures r.Err? <==> !passes([]) && !passes(edits)
    ensures passes([]) ==> r == Ok([])
    ensures r.Ok? ==> passes(r.value) && Subsequence(r.value, edits) && OneMinimal(r.value, passes)
    ensures r.Ok? && !passes([]) ==> r.value == Greedy(edits, passes)
    ensures calls <= 2 + |edits| * (|edits| + 1) / 2
  {
    calls := 1;
    if passes([]) { return Ok([]), calls; }
    var current := edits;
    calls := calls + 1;
    if !passes(current) { return Err(PatchDoesNotPass), calls; }
    GreedyResult(edits, passes);
    var changed := true;
    while changed
      invariant passes(current) && Greedy(current, passes) == Greedy(edits, passes)
      invariant changed ==> calls + Triangle(|current|) <= 2 + Triangle(|edits|)
      invariant !changed ==> calls <= 2 + Triangle(|edits|) && current == Greedy(edits, passes)
      decreases |current|, changed
    {
      var i, evaluations := Sweep(current, passes);
      calls := calls + evaluations;
      changed := i < |current|;
      if changed { current := Without(current, i); }
    }
    return Ok(current), calls;
  }

  /** The inner loop: one sweep up to the first edit whose removal still passes, and how often it asked. */
  method Sweep<T>(current: seq<T>, passes: seq<T> -> bool) returns (i: nat, evaluations: nat)
    ensures i == FirstDroppable(current, passes, 0)
    ensures evaluations == if i < |current| then i + 1 else i
  {
    i, evaluations := 0, 0;
    while i < |current|
      invariant 0 <= i <= |current| && evaluations == i
      invariant FirstDroppable(current, passes, i) == FirstDroppable(current, passes, 0)
    {
      var passing := passes(Without(current, i));
      evaluations := evaluations + 1;
      if passing { break; }
      i := i + 1;
    }
  }

  // ----- monotone predicates

  /** Adding edits of the patch back never breaks a passing subset. */
  ghost predicate MonotoneOn<T(!new)>(edits: seq<T>, passes: seq<T> -> bool) {
    forall u, s | Subsequence(u, s) && Subsequence(s, edits) :: passes(u) ==> passes(s)
  }

  /** For a monotone predicate 1-minimal is globally minimal: no proper subsequence passes. */
  lemma MonotoneMinimal<T(!new)>(edits: seq<T>, passes: seq<T> -> bool, u: seq<T>)
    requires MonotoneOn(edits, passes) && passes(edits)
    requires Subsequence(u, Greedy(edits, passes)) && u != Greedy(edits, passes)
    ensures !passes(u)
  {
    var g := Greedy(edits, passes);
    GreedyResult(edits, passes);
    var i := ProperMissesOne(u, g);
    WithoutIsSubsequence(g, i);
    SubsequenceTrans(Without(g, i), g, edits);
    assert !passes(Without(g, i));
  }

  /** A single left-to-right pass that never looks back. */
  function OnePass<T>(kept: seq<T>, rest: seq<T>, passes: seq<T> -> bool): seq<T>
    decreases |rest|
  {
    if rest == [] then kept
    else if passes(kept + rest[1..]) then OnePass(kept, rest[1..], passes)
    else OnePass(kept + [rest[0]], rest[1..], passes)
  }

  lemma {:induction false} SubsequenceFrame<T>(a: seq<T>, u: seq<T>, s: seq<T>)
    requires Subsequence(u, s)
    ensures Subsequence(a + u, a + s)
  {
    if a == [] {
      assert a + u == u && a + s == s;
    } else {
      SubsequenceFrame(a[1..], u, s);
      assert (a + u)[1..] == a[1..] + u && (a + s)[1..] == a[1..] + s;
    }
  }

  /** For a monotone predicate the restart loop equals one pass: an edit that had to be kept
      once never becomes droppable later. */
  lemma {:induction false} RestartEqualsOnePass<T(!new)>(kept: seq<T>, rest: seq<T>, edits: seq<T>,
                                                         passes: seq<T> -> bool)
    requires MonotoneOn(edits, passes) && Subsequence(kept + rest, edits)
    requires forall i | 0 <= i < |kept| :: !passes(Without(kept + rest, i))
    ensures Greedy(kept + rest, passes) == OnePass(kept, rest, passes)
    decreases |rest|
  {
    var s := kept + rest;
    if rest == [] {
      assert s == kept;
    } else {
      assert Without(s, |kept|) == kept + rest[1..];
      if passes(kept + rest[1..]) {
        assert FirstDroppable(s, passes, 0) == |kept|;
        var t := Without(s, |kept|);
        WithoutIsSubsequence(s, |kept|);
        SubsequenceTrans(t, s, edits);
        forall i | 0 <= i < |kept| ensures !passes(Without(t, i)) {
          var a := kept[..i] + kept[i + 1..];
          assert Without(t, i) == a + rest[1..] && Without(s, i) == a + rest;
          assert rest[1..] == Without(rest, 0);
          WithoutIsSubsequence(rest, 0);
          SubsequenceFrame(a, rest[1..], rest);
          WithoutIsSubsequence(s, i);
          SubsequenceTrans(Without(s, i), s, edits);
        }
        RestartEqualsOnePass(kept, rest[1..], edits, passes);
      } else {
        assert (kept + [rest[0]]) + rest[1..] == s;
        RestartEqualsOnePass(kept + [rest[0]], rest[1..], edits, passes);
      }
    }
  }
}
