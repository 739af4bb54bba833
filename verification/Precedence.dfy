/** Orders of numbered items under a precedence relation: deps[i] is the set of items that must come before i. */
module Precedence {
  type Deps = seq<set<nat>>

  ghost predicate NoDup<T>(s: seq<T>) {
    forall i, j :: 0 <= i < j < |s| ==> s[i] != s[j]
  }

  ghost predicate InRange(deps: Deps) {
    forall i, d :: 0 <= i < |deps| && d in deps[i] ==> d < |deps|
  }

  ghost predicate AllIn(wanted: set<nat>, done: seq<nat>) { forall d :: d in wanted ==> d in done }

  /** Not yet placed, with everything it waits for placed. */
  ghost predicate Ready(deps: Deps, done: seq<nat>, i: nat) {
    i < |deps| && i !in done && AllIn(deps[i], done)
  }

  ghost predicate LeastReady(deps: Deps, done: seq<nat>, i: nat) {
    Ready(deps, done, i) && forall j :: Ready(deps, done, j) ==> i <= j
  }

  /** Every item was the least one available when it was placed. */
  ghost predicate Greedy(deps: Deps, order: seq<nat>) {
    forall k :: 0 <= k < |order| ==> LeastReady(deps, order[..k], order[k])
  }

  /** Every item follows what it waits for. */
  ghost predicate DepsFirst(deps: Deps, order: seq<nat>) {
    forall k :: 0 <= k < |order| ==> order[k] < |deps| && AllIn(deps[order[k]], order[..k])
  }

  /** A permutation of all items in which every item follows what it waits for. */
  ghost predicate Topological(deps: Deps, order: seq<nat>) {
    |order| == |deps| && NoDup(order) && DepsFirst(deps, order)
  }

  ghost predicate Stuck(deps: Deps, order: seq<nat>) {
    forall i :: !Ready(deps, order, i)
  }

  /** Each item waits for the next one, and the last for the first. */
  ghost predicate Cycle(deps: Deps, c: seq<nat>) {
    && c != []
    && (forall k :: 0 <= k < |c| ==> c[k] < |deps|)
    && (forall k :: 0 <= k < |c| - 1 ==> c[k + 1] in deps[c[k]])
    && c[0] in deps[c[|c| - 1]]
  }

  ghost predicate Cyclic(deps: Deps) { exists c :: Cycle(deps, c) }

  ghost predicate WaitsFor(deps: Deps, i: nat, w: set<nat>) {
    i < |deps| && exists d :: d in w && d in deps[i]
  }

  /** Every member waits for some member. */
  ghost predicate WaitsWithin(deps: Deps, w: set<nat>) {
    forall i :: i in w ==> WaitsFor(deps, i, w)
  }

  // -- Counting ---------------------------------------------------------------------------------

  function Below(n: nat): (s: set<nat>)
    ensures |s| == n
    ensures forall i :: i in s <==> 0 <= i < n
  {
    if n == 0 then {} else Below(n - 1) + {n - 1}
  }

  lemma {:induction false} NoDupSize<T>(s: seq<T>)
    requires NoDup(s)
    ensures |set x | x in s| == |s|
  {
    if s != [] {
      var front, last := s[..|s| - 1], s[|s| - 1];
      NoDupSize(front);
      assert (set x | x in s) == (set x | x in front) + {last};
    }
  }

  lemma SubsetSize<T>(a: set<T>, b: set<T>)
    requires a <= b
    ensures |a| <= |b|
    ensures |a| == |b| ==> a == b
  {
    assert b == a + (b - a);
  }

  lemma ListedBelow(s: seq<nat>, n: nat) returns (members: set<nat>)
    requires NoDup(s) && forall x :: x in s ==> x < n
    ensures forall x :: x in members <==> x in s
    ensures |members| == |s| && members <= Below(n)
  {
    NoDupSize(s);
    members := set x | x in s;
  }

  /** A duplicate-free list of numbers below n has at most n of them, and has all of them when it has n. */
  lemma NoDupBelow(s: seq<nat>, n: nat)
    requires NoDup(s) && forall x :: x in s ==> x < n
    ensures |s| <= n
    ensures |s| == n <==> forall i :: 0 <= i < n ==> i in s
  {
    var members := ListedBelow(s, n);
    SubsetSize(members, Below(n));
    if |s| == n {
      forall i | 0 <= i < n ensures i in s {
        assert i in Below(n);
      }
    } else {
      assert Below(n) == members + (Below(n) - members);
      var i :| i in Below(n) - members;
      assert i !in s;
    }
  }

  // -- Greedy orders ----------------------------------------------------------------------------

  lemma GreedyShape(deps: Deps, order: seq<nat>)
    requires Greedy(deps, order)
    ensures NoDup(order) && DepsFirst(deps, order) && forall i :: i in order ==> i < |deps|
  {
    forall i, j | 0 <= i < j < |order| ensures order[i] != order[j] {
      assert LeastReady(deps, order[..j], order[j]) && order[..j][i] == order[i];
    }
    forall k | 0 <= k < |order| ensures order[k] < |deps| && AllIn(deps[order[k]], order[..k]) {
      assert LeastReady(deps, order[..k], order[k]);
    }
  }

  /** A complete greedy order is a permutation of all items in which every item follows what it waits for. */
  lemma GreedyIsTopological(deps: Deps, order: seq<nat>)
    requires Greedy(deps, order) && |order| == |deps|
    ensures Topological(deps, order)
    ensures forall i :: 0 <= i < |deps| <==> i in order
  {
    GreedyShape(deps, order);
    NoDupBelow(order, |deps|);
  }

  ghost predicate LexLess(a: seq<nat>, b: seq<nat>) {
    exists k :: 0 <= k < |a| && k < |b| && a[..k] == b[..k] && a[k] < b[k]
  }

  lemma {:induction false} FirstDifference(a: seq<nat>, b: seq<nat>, n: nat) returns (k: nat)
    requires |a| == |b| && n <= |a| && a[..n] == b[..n] && a[n..] != b[n..]
    ensures k < |a| && a[..k] == b[..k] && a[k] != b[k]
    decreases |a| - n
  {
    if a[n] != b[n] {
      k := n;
    } else {
      assert a[..n + 1] == a[..n] + [a[n]] && b[..n + 1] == b[..n] + [b[n]];
      assert a[n..] == [a[n]] + a[n + 1..] && b[n..] == [b[n]] + b[n + 1..];
      k := FirstDifference(a, b, n + 1);
    }
  }

  /** A complete greedy order comes lexicographically before every other topological order. */
  lemma GreedyIsLeast(deps: Deps, order: seq<nat>, other: seq<nat>)
    requires Greedy(deps, order) && |order| == |deps| && Topological(deps, other)
    ensures order == other || LexLess(order, other)
  {
    if order != other {
      assert order[..0] == other[..0] && order[0..] == order && other[0..] == other;
      var k := FirstDifference(order, other, 0);
      assert Ready(deps, other[..k], other[k]);
      assert LeastReady(deps, order[..k], order[k]);
    }
  }

  // -- Cycles -----------------------------------------------------------------------------------

  /** Along a path of waits, positions decrease. */
  lemma {:induction false} PathDescends(deps: Deps, order: seq<nat>, c: seq<nat>, k: nat, p: nat) returns (q: nat)
    requires DepsFirst(deps, order) && k < |c| && forall i :: 0 <= i < |c| ==> c[i] < |deps|
    requires forall i :: 0 <= i < |c| - 1 ==> c[i + 1] in deps[c[i]]
    requires p < |order| && order[p] == c[k]
    ensures q <= p && order[q] == c[|c| - 1]
    decreases |c| - k
  {
    if k == |c| - 1 {
      q := p;
    } else {
      assert c[k + 1] in order[..p];
      var r :| 0 <= r < p && order[r] == c[k + 1];
      q := PathDescends(deps, order, c, k + 1, r);
    }
  }

  /** No member of a cycle can be placed. */
  lemma {:induction false} CycleNotPlaced(deps: Deps, c: seq<nat>, order: seq<nat>, p: nat)
    requires Cycle(deps, c) && DepsFirst(deps, order) && p < |order|
    ensures order[p] != c[0]
    decreases p
  {
    if order[p] == c[0] {
      var q := PathDescends(deps, order, c, 0, p);
      assert c[0] in order[..q];
      var r :| 0 <= r < q && order[r] == c[0];
      CycleNotPlaced(deps, c, order, r);
    }
  }

  /** A topological order rules out every cycle. */
  lemma OrderHasNoCycle(deps: Deps, order: seq<nat>)
    requires Topological(deps, order)
    ensures !Cyclic(deps)
  {
    NoDupBelow(order, |deps|);
    forall c ensures !Cycle(deps, c) {
      if Cycle(deps, c) {
        assert c[0] in order;
        var p :| 0 <= p < |order| && order[p] == c[0];
        CycleNotPlaced(deps, c, order, p);
      }
    }
  }

  lemma PathFits(path: seq<nat>, w: set<nat>)
    requires NoDup(path) && forall i :: i in path ==> i in w
    ensures |path| <= |w|
  {
    NoDupSize(path);
    SubsetSize((set x | x in path), w);
  }

  /** Each item on the path waits for the next. */
  ghost predicate Path(deps: Deps, path: seq<nat>) {
    && (forall k :: 0 <= k < |path| ==> path[k] < |deps|)
    && forall k :: 0 <= k < |path| - 1 ==> path[k + 1] in deps[path[k]]
  }

  lemma CloseLoop(deps: Deps, path: seq<nat>, k: nat)
    requires Path(deps, path) && k < |path| && path[k] in deps[path[|path| - 1]]
    ensures Cycle(deps, path[k..])
  {
    var c := path[k..];
    assert forall i :: 0 <= i < |c| ==> c[i] == path[k + i];
  }

  /** A path without repetition among the members of w. */
  ghost predicate Walk(deps: Deps, w: set<nat>, path: seq<nat>) {
    path != [] && Path(deps, path) && NoDup(path) && forall i :: 0 <= i < |path| ==> path[i] in w
  }

  lemma ExtendWalk(deps: Deps, w: set<nat>, path: seq<nat>, d: nat)
    requires Walk(deps, w, path) && d < |deps| && d in deps[path[|path| - 1]] && d in w && d !in path
    ensures Walk(deps, w, path + [d]) && |path| < |w|
  {
    PathFits(path + [d], w);
  }

  lemma {:induction false} WalkToCycle(deps: Deps, w: set<nat>, path: seq<nat>) returns (c: seq<nat>)
    requires WaitsWithin(deps, w) && Walk(deps, w, path)
    ensures Cycle(deps, c)
    decreases |w| - |path|
  {
    var last := path[|path| - 1];
    assert WaitsFor(deps, last, w);
    var d :| d in w && d in deps[last];
    if d in path {
      var k :| 0 <= k < |path| && path[k] == d;
      CloseLoop(deps, path, k);
      c := path[k..];
    } else {
      assert WaitsFor(deps, d, w);
      ExtendWalk(deps, w, path, d);
      c := WalkToCycle(deps, w, path + [d]);
    }
  }

  lemma LeftOutWaits(deps: Deps, order: seq<nat>) returns (w: set<nat>)
    requires InRange(deps) && Stuck(deps, order)
    ensures WaitsWithin(deps, w)
    ensures forall i :: i in w <==> 0 <= i < |deps| && i !in order
  {
    w := set j | j in Below(|deps|) && j !in order;
    forall j | j in w ensures WaitsFor(deps, j, w) {
      assert !Ready(deps, order, j);
      var d :| d in deps[j] && d !in order;
      assert d in w;
    }
  }

  /** No member of a set that waits within itself can be placed. */
  lemma {:induction false} WaitingNotPlaced(deps: Deps, order: seq<nat>, w: set<nat>, k: nat)
    requires DepsFirst(deps, order) && WaitsWithin(deps, w) && k < |order|
    ensures order[k] !in w
    decreases k
  {
    if order[k] in w {
      assert WaitsFor(deps, order[k], w);
      var d :| d in w && d in deps[order[k]];
      assert d in order[..k];
      var j :| 0 <= j < k && order[j] == d;
      WaitingNotPlaced(deps, order, w, j);
    }
  }

  /** Exactly the items left out of a stuck greedy order are the members of sets in which everyone waits for
      someone. */
  lemma LeftOutIff(deps: Deps, order: seq<nat>, i: nat)
    requires InRange(deps) && Greedy(deps, order) && Stuck(deps, order)
    ensures i < |deps| && i !in order <==> exists w :: i in w && WaitsWithin(deps, w)
  {
    GreedyShape(deps, order);
    var left := LeftOutWaits(deps, order);
    forall w | i in w && WaitsWithin(deps, w) ensures i < |deps| && i !in order {
      assert WaitsFor(deps, i, w);
      forall k | 0 <= k < |order| ensures order[k] != i {
        WaitingNotPlaced(deps, order, w, k);
      }
    }
  }

  /** A greedy order that is stuck before it is complete leaves a cycle behind. */
  lemma StuckHasCycle(deps: Deps, order: seq<nat>)
    requires InRange(deps) && Greedy(deps, order) && Stuck(deps, order) && |order| != |deps|
    ensures Cyclic(deps)
  {
    GreedyShape(deps, order);
    NoDupBelow(order, |deps|);
    var i :| 0 <= i < |deps| && i !in order;
    var w := LeftOutWaits(deps, order);
    var c := WalkToCycle(deps, w, [i]);
  }
}
