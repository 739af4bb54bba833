/** Ordering ddl.sql files for application (cmd/protoc-gen-go-jet/apply_ddl.go): Kahn's algorithm with a
    sorted ready queue. A file is given by its path and the tables it creates and references. */
module TopoSort {
  import opened Prelude
  import opened Precedence

  datatype File = File(path: string, creates: seq<string>, references: seq<string>)

  /** The owner of a table is the last file that creates it. */
  ghost predicate Owns(files: seq<File>, table: string, o: nat) {
    && o < |files| && table in files[o].creates
    && forall j :: o < j < |files| ==> table !in files[j].creates
  }

  ghost predicate DependsOn(files: seq<File>, i: nat, o: nat)
    requires i < |files|
  {
    o != i && exists table :: table in files[i].references && Owns(files, table, o)
  }

  /** The foreign-key graph: self-references and tables no file creates are dropped. */
  ghost function Dependencies(files: seq<File>): (deps: Deps)
    ensures |deps| == |files| && InRange(deps)
    ensures forall i, o :: 0 <= i < |files| && 0 <= o < |files| ==> (o in deps[i] <==> DependsOn(files, i, o))
  {
    seq(|files|, i requires 0 <= i < |files| => set o | o in Below(|files|) && DependsOn(files, i, o))
  }

  ghost predicate OwnersOf(files: seq<File>, owner: map<string, nat>) {
    && (forall t :: t in owner ==> Owns(files, t, owner[t]))
    && forall t, k :: 0 <= k < |files| && t in files[k].creates ==> t in owner
  }

  lemma OwnersStep(files: seq<File>, before: map<string, nat>, f: File, after: map<string, nat>)
    requires OwnersOf(files, before)
    requires forall t :: t in after <==> t in before || t in f.creates
    requires forall t :: t in after ==> after[t] == if t in f.creates then |files| else before[t]
    ensures OwnersOf(files + [f], after)
  {
    forall t | t in after ensures Owns(files + [f], t, after[t]) {
      if t !in f.creates {
        assert Owns(files, t, before[t]);
      }
    }
  }

  method TableOwners(files: seq<File>) returns (owner: map<string, nat>)
    ensures OwnersOf(files, owner)
    ensures forall t, o :: Owns(files, t, o) ==> t in owner && owner[t] == o
  {
    owner := map[];
    for i := 0 to |files|
      invariant OwnersOf(files[..i], owner)
    {
      ghost var before := owner;
      for m := 0 to |files[i].creates|
        invariant forall t :: t in owner <==> t in before || t in files[i].creates[..m]
        invariant forall t :: t in owner ==> owner[t] == if t in files[i].creates[..m] then i else before[t]
      {
        owner := owner[files[i].creates[m] := i];
      }
      assert files[i].creates[..|files[i].creates|] == files[i].creates;
      OwnersStep(files[..i], before, files[i], owner);
      assert files[..i + 1] == files[..i] + [files[i]];
    }
    assert files[..|files|] == files;
    forall t, o | Owns(files, t, o) ensures t in owner && owner[t] == o {
      OwnerUnique(files, t, o, owner[t]);
    }
  }

  lemma OwnerUnique(files: seq<File>, table: string, a: nat, b: nat)
    requires Owns(files, table, a) && Owns(files, table, b)
    ensures a == b
  {
  }

  /** adj[o] lists, each once, the files that wait for o. */
  ghost predicate Adjacent(deps: Deps, adj: seq<seq<nat>>) {
    && |adj| == |deps|
    && (forall o :: 0 <= o < |adj| ==> NoDup(adj[o]))
    && (forall o, j :: 0 <= o < |adj| && j in adj[o] ==> j < |deps|)
    && forall o, j :: 0 <= o < |adj| && 0 <= j < |deps| ==> (j in adj[o] <==> o in deps[j])
  }

  /** The part of adjacency and in-degrees known after the first i files, and the owners seen so far for file i. */
  ghost predicate PartialGraph(deps: Deps, adj: seq<seq<nat>>, inDeg: seq<int>, i: nat, seen: set<nat>) {
    && |adj| == |inDeg| == |deps|
    && (forall o :: 0 <= o < |adj| ==> NoDup(adj[o]))
    && (forall o, j :: 0 <= o < |adj| && j in adj[o] ==> j <= i && j < |deps|)
    && (forall o, j :: 0 <= o < |adj| && 0 <= j < |deps| && j < i ==> (j in adj[o] <==> o in deps[j]))
    && (i < |deps| ==> forall o :: 0 <= o < |adj| ==> (i in adj[o] <==> o in seen))
    && forall j :: 0 <= j < |deps| ==> inDeg[j] == if j < i then |deps[j]| else if j == i then |seen| else 0
  }

  lemma AddEdge(deps: Deps, adj: seq<seq<nat>>, inDeg: seq<int>, i: nat, seen: set<nat>, o: nat)
    requires PartialGraph(deps, adj, inDeg, i, seen) && i < |deps| && o < |deps| && o !in seen
    ensures PartialGraph(deps, adj[o := adj[o] + [i]], inDeg[i := inDeg[i] + 1], i, seen + {o})
  {
    assert i !in adj[o];
  }

  lemma NextFile(deps: Deps, adj: seq<seq<nat>>, inDeg: seq<int>, i: nat)
    requires i < |deps| && InRange(deps) && PartialGraph(deps, adj, inDeg, i, deps[i])
    ensures PartialGraph(deps, adj, inDeg, i + 1, {})
  {
  }

  /** The owners of the first m tables that file i references, file i aside. */
  ghost predicate SeenOwner(files: seq<File>, i: nat, m: nat, o: nat)
    requires i < |files| && m <= |files[i].references|
  {
    o != i && exists k :: 0 <= k < m && Owns(files, files[i].references[k], o)
  }

  lemma SeenStep(files: seq<File>, i: nat, m: nat, o: nat)
    requires i < |files| && m < |files[i].references|
    ensures SeenOwner(files, i, m + 1, o) <==>
      SeenOwner(files, i, m, o) || (o != i && Owns(files, files[i].references[m], o))
  {
  }

  method AddReferences(files: seq<File>, owner: map<string, nat>, i: nat, adj: array<seq<nat>>, inDeg: array<int>)
    requires i < |files|
    requires OwnersOf(files, owner) && forall t, o :: Owns(files, t, o) ==> t in owner && owner[t] == o
    requires PartialGraph(Dependencies(files), adj[..], inDeg[..], i, {})
    modifies adj, inDeg
    ensures PartialGraph(Dependencies(files), adj[..], inDeg[..], i + 1, {})
  {
    ghost var deps := Dependencies(files);
    var seen: set<nat> := {};
    for m := 0 to |files[i].references|
      invariant PartialGraph(deps, adj[..], inDeg[..], i, seen)
      invariant forall o :: o in seen <==> SeenOwner(files, i, m, o)
    {
      var target := files[i].references[m];
      forall o
        ensures SeenOwner(files, i, m + 1, o) <==> SeenOwner(files, i, m, o) || (o != i && Owns(files, target, o))
      {
        SeenStep(files, i, m, o);
      }
      if target !in owner {
        continue;
      }
      if owner[target] == i {
        continue;
      }
      if owner[target] in seen {
        continue;
      }
      var o := owner[target];
      AddEdge(deps, adj[..], inDeg[..], i, seen, o);
      seen := seen + {o};
      adj[o] := adj[o] + [i];
      inDeg[i] := inDeg[i] + 1;
    }
    SeenIsDeps(files, i, seen);
    NextFile(deps, adj[..], inDeg[..], i);
  }

  lemma SeenIsDeps(files: seq<File>, i: nat, seen: set<nat>)
    requires i < |files| && forall o :: o in seen <==> SeenOwner(files, i, |files[i].references|, o)
    ensures seen == Dependencies(files)[i]
  {
    forall o: nat ensures SeenOwner(files, i, |files[i].references|, o) <==> o < |files| && DependsOn(files, i, o) {
      if o < |files| && DependsOn(files, i, o) {
        var table :| table in files[i].references && Owns(files, table, o);
        var k :| 0 <= k < |files[i].references| && files[i].references[k] == table;
      }
    }
  }

  method BuildGraph(files: seq<File>) returns (adj: array<seq<nat>>, inDeg: array<int>)
    ensures fresh(adj) && fresh(inDeg)
    ensures Adjacent(Dependencies(files), adj[..])
    ensures inDeg.Length == |files|
    ensures forall i :: 0 <= i < |files| ==> inDeg[i] == |Dependencies(files)[i]|
  {
    var owner := TableOwners(files);
    var n := |files|;
    adj := new seq<nat>[n](_ => []);
    inDeg := new int[n](_ => 0);
    for i := 0 to n
      invariant PartialGraph(Dependencies(files), adj[..], inDeg[..], i, {})
    {
      AddReferences(files, owner, i, adj, inDeg);
    }
  }

  // -- sort.Ints --------------------------------------------------------------------------------

  ghost predicate Ascending(s: seq<nat>) { forall i, j :: 0 <= i < j < |s| ==> s[i] <= s[j] }

  function Insert(x: nat, s: seq<nat>): (r: seq<nat>)
    ensures multiset(r) == multiset(s) + multiset{x}
    ensures forall k :: 0 <= k < |r| ==> r[k] == x || r[k] in s
  {
    if s == [] || x <= s[0] then [x] + s
    else
      assert s == [s[0]] + s[1..];
      [s[0]] + Insert(x, s[1..])
  }

  function SortInts(s: seq<nat>): (r: seq<nat>)
    ensures multiset(r) == multiset(s)
  {
    if s == [] then []
    else
      assert s == [s[0]] + s[1..];
      Insert(s[0], SortInts(s[1..]))
  }

  lemma {:induction false} InsertAscends(x: nat, s: seq<nat>)
    requires Ascending(s)
    ensures Ascending(Insert(x, s))
  {
    if s != [] && x > s[0] {
      InsertAscends(x, s[1..]);
      var rest := Insert(x, s[1..]);
      forall k | 0 <= k < |rest| ensures s[0] <= rest[k] {
        assert rest[k] == x || rest[k] in s[1..];
      }
      assert Insert(x, s) == [s[0]] + rest;
    }
  }

  lemma {:induction false} SortAscends(s: seq<nat>)
    ensures Ascending(SortInts(s))
  {
    if s != [] {
      SortAscends(s[1..]);
      InsertAscends(s[0], SortInts(s[1..]));
    }
  }

  lemma {:induction false} NoDupCounts(s: seq<nat>)
    ensures NoDup(s) <==> forall x :: multiset(s)[x] <= 1
  {
    if s != [] {
      var front, last := s[..|s| - 1], s[|s| - 1];
      NoDupCounts(front);
      assert s == front + [last];
      assert multiset(s)[last] == multiset(front)[last] + 1;
      if NoDup(s) {
        assert last !in front;
        forall x ensures multiset(s)[x] <= 1 {
          assert multiset(front)[x] <= 1 && (x == last ==> x !in multiset(front));
        }
      }
      if forall x :: multiset(s)[x] <= 1 {
        forall x ensures multiset(front)[x] <= 1 {
          assert multiset(front)[x] <= multiset(s)[x];
        }
        assert last !in multiset(front);
      }
    }
  }

  /** Sorting a duplicate-free list keeps its members and puts the least one first. */
  lemma SortKeeps(s: seq<nat>)
    requires NoDup(s)
    ensures NoDup(SortInts(s)) && Ascending(SortInts(s))
    ensures forall x :: x in SortInts(s) <==> x in s
  {
    SortAscends(s);
    NoDupCounts(s);
    NoDupCounts(SortInts(s));
    forall x ensures x in SortInts(s) <==> x in s {
      assert x in SortInts(s) <==> x in multiset(SortInts(s));
      assert x in s <==> x in multiset(s);
    }
  }

  // -- Kahn's algorithm -------------------------------------------------------------------------

  ghost function Waiting(wanted: set<nat>, done: seq<nat>): set<nat> { set d | d in wanted && d !in done }

  ghost predicate DegreesOk(deps: Deps, inDeg: seq<int>, order: seq<nat>) {
    |inDeg| == |deps| && forall i :: 0 <= i < |deps| ==> inDeg[i] == |Waiting(deps[i], order)|
  }

  ghost predicate QueueOk(deps: Deps, ready: seq<nat>, order: seq<nat>) {
    NoDup(ready) && forall i :: i in ready <==> Ready(deps, order, i)
  }

  /** While the neighbours of the newly placed x are being visited: those in visited are up to date. */
  ghost predicate Visiting(deps: Deps, inDeg: seq<int>, ready: seq<nat>, order: seq<nat>, x: nat, visited: seq<nat>) {
    && |inDeg| == |deps|
    && (forall i :: 0 <= i < |deps| ==> inDeg[i] == |Waiting(deps[i], if i in visited then order + [x] else order)|)
    && NoDup(ready)
    && forall i :: i in ready <==> (Ready(deps, order, i) && i != x) || (i in visited && Ready(deps, order + [x], i))
  }

  /** What removing x does to one of the files waiting for it. */
  lemma VisitOne(deps: Deps, order: seq<nat>, x: nat, j: nat)
    requires Greedy(deps, order) && Ready(deps, order, x) && j < |deps| && x in deps[j]
    ensures |Waiting(deps[j], order + [x])| == |Waiting(deps[j], order)| - 1
    ensures !Ready(deps, order, j)
    ensures |Waiting(deps[j], order + [x])| == 0 <==> Ready(deps, order + [x], j)
  {
    var before, after := Waiting(deps[j], order), Waiting(deps[j], order + [x]);
    assert before == after + {x};
    GreedyShape(deps, order);
    forall k | 0 <= k < |order| ensures order[k] != j {
      assert AllIn(deps[order[k]], order[..k]) && x !in order[..k];
    }
    forall d | d in deps[j] ensures d in order + [x] <==> d !in after {}
    assert after == {} ==> AllIn(deps[j], order + [x]);
    if AllIn(deps[j], order + [x]) {
      assert forall d :: d in after ==> d in deps[j] && d in order + [x];
    }
  }

  lemma StartVisiting(deps: Deps, inDeg: seq<int>, ready: seq<nat>, order: seq<nat>)
    requires DegreesOk(deps, inDeg, order) && QueueOk(deps, ready, order) && ready != []
    ensures Visiting(deps, inDeg, ready[1..], order, ready[0], [])
  {
    forall i ensures i in ready[1..] <==> i in ready && i != ready[0] {
      if i in ready && i != ready[0] {
        var k :| 0 <= k < |ready| && ready[k] == i;
        assert ready[1..][k - 1] == i;
      }
    }
  }

  /** After the last neighbour, degrees and queue are right for the longer order. */
  lemma DoneVisiting(deps: Deps, inDeg: seq<int>, ready: seq<nat>, order: seq<nat>, x: nat, visited: seq<nat>)
    requires Visiting(deps, inDeg, ready, order, x, visited)
    requires forall j :: 0 <= j < |deps| ==> (j in visited <==> x in deps[j])
    ensures DegreesOk(deps, inDeg, order + [x]) && QueueOk(deps, ready, order + [x])
  {
    forall i | 0 <= i < |deps| ensures inDeg[i] == |Waiting(deps[i], order + [x])| {
      if x !in deps[i] {
        assert Waiting(deps[i], order + [x]) == Waiting(deps[i], order);
      }
    }
    forall i: nat ensures i in ready <==> Ready(deps, order + [x], i) {
      if i < |deps| && x !in deps[i] {
        assert AllIn(deps[i], order + [x]) <==> AllIn(deps[i], order) by {
          if AllIn(deps[i], order + [x]) {
            forall d | d in deps[i] ensures d in order {
              assert d in order + [x] && d != x;
            }
          }
        }
      }
    }
  }

  /** The degrees after visiting j. */
  lemma VisitDegrees(deps: Deps, inDeg: seq<int>, ready: seq<nat>, order: seq<nat>, x: nat, visited: seq<nat>, j: nat)
    requires Greedy(deps, order) && Ready(deps, order, x)
    requires j < |deps| == |inDeg| && x in deps[j] && j !in visited
    requires Visiting(deps, inDeg, ready, order, x, visited)
    ensures forall i :: 0 <= i < |deps| ==>
      inDeg[j := inDeg[j] - 1][i] == |Waiting(deps[i], if i in visited + [j] then order + [x] else order)|
    ensures inDeg[j] == 1 <==> Ready(deps, order + [x], j)
  {
    VisitOne(deps, order, x, j);
    forall i: nat ensures i in visited + [j] <==> i in visited || i == j {}
  }

  /** The queue after visiting j. */
  lemma VisitQueue(deps: Deps, ready: seq<nat>, order: seq<nat>, x: nat, visited: seq<nat>, j: nat, joins: bool, i: nat)
    requires forall i ::
      i in ready <==> (Ready(deps, order, i) && i != x) || (i in visited && Ready(deps, order + [x], i))
    requires !Ready(deps, order, j) && (joins <==> Ready(deps, order + [x], j))
    ensures i in (if joins then ready + [j] else ready) <==>
      (Ready(deps, order, i) && i != x) || (i in visited + [j] && Ready(deps, order + [x], i))
  {
    assert i in visited + [j] <==> i in visited || i == j;
    assert i in ready + [j] <==> i in ready || i == j;
  }

  lemma VisitStep(deps: Deps, inDeg: seq<int>, ready: seq<nat>, order: seq<nat>, x: nat, visited: seq<nat>, j: nat)
    requires Greedy(deps, order) && Ready(deps, order, x)
    requires j < |deps| == |inDeg| && x in deps[j] && j !in visited
    requires Visiting(deps, inDeg, ready, order, x, visited)
    ensures inDeg[j] == 1 <==> Ready(deps, order + [x], j)
    ensures Visiting(deps, inDeg[j := inDeg[j] - 1], if inDeg[j] == 1 then ready + [j] else ready, order, x,
                     visited + [j])
  {
    VisitOne(deps, order, x, j);
    VisitDegrees(deps, inDeg, ready, order, x, visited, j);
    var queue := if inDeg[j] == 1 then ready + [j] else ready;
    assert j !in ready;
    forall i: nat
      ensures i in queue <==> (Ready(deps, order, i) && i != x) || (i in visited + [j] && Ready(deps, order + [x], i))
    {
      VisitQueue(deps, ready, order, x, visited, j, inDeg[j] == 1, i);
    }
  }

  lemma PlaceNext(deps: Deps, ready: seq<nat>, order: seq<nat>)
    requires Greedy(deps, order) && QueueOk(deps, ready, order) && Ascending(ready) && ready != []
    ensures LeastReady(deps, order, ready[0]) && Greedy(deps, order + [ready[0]])
  {
    var x, longer := ready[0], order + [ready[0]];
    forall j | Ready(deps, order, j) ensures x <= j {
      var k :| 0 <= k < |ready| && ready[k] == j;
    }
    forall k | 0 <= k < |longer| ensures LeastReady(deps, longer[..k], longer[k]) {
      assert longer[..k] == order[..k];
      if k == |order| {
        assert order[..k] == order;
      }
    }
  }

  method VisitNeighbour(ghost deps: Deps, j: nat, inDeg: array<int>, start: seq<nat>, ghost order: seq<nat>,
                        ghost x: nat, ghost visited: seq<nat>) returns (ready: seq<nat>)
    requires Greedy(deps, order) && Ready(deps, order, x)
    requires j < |deps| && x in deps[j] && j !in visited && Visiting(deps, inDeg[..], start, order, x, visited)
    modifies inDeg
    ensures Visiting(deps, inDeg[..], ready, order, x, visited + [j])
  {
    ghost var before := inDeg[..];
    VisitStep(deps, before, start, order, x, visited, j);
    ready := start;
    inDeg[j] := inDeg[j] - 1;
    assert inDeg[..] == before[j := before[j] - 1];
    if inDeg[j] == 0 {
      ready := ready + [j];
    }
  }

  method VisitNeighbours(ghost deps: Deps, neighbours: seq<nat>, inDeg: array<int>, start: seq<nat>,
                         ghost order: seq<nat>, x: nat) returns (ready: seq<nat>)
    requires Greedy(deps, order) && Ready(deps, order, x)
    requires NoDup(neighbours) && forall j :: j in neighbours ==> j < |deps| && x in deps[j]
    requires forall j :: 0 <= j < |deps| ==> (j in neighbours <==> x in deps[j])
    requires Visiting(deps, inDeg[..], start, order, x, [])
    modifies inDeg
    ensures DegreesOk(deps, inDeg[..], order + [x]) && QueueOk(deps, ready, order + [x])
  {
    ready := start;
    for m := 0 to |neighbours|
      invariant Visiting(deps, inDeg[..], ready, order, x, neighbours[..m])
    {
      assert neighbours[m] in neighbours && neighbours[..m + 1] == neighbours[..m] + [neighbours[m]];
      ready := VisitNeighbour(deps, neighbours[m], inDeg, ready, order, x, neighbours[..m]);
    }
    assert neighbours[..|neighbours|] == neighbours;
    DoneVisiting(deps, inDeg[..], ready, order, x, neighbours);
  }

  function Pick(files: seq<File>, order: seq<nat>): seq<File>
    requires forall i :: i in order ==> i < |files|
  {
    seq(|order|, k requires 0 <= k < |order| => assert order[k] in order; files[order[k]])
  }

  ghost predicate IsPick(files: seq<File>, order: seq<nat>, out: seq<File>) {
    (forall i :: i in order ==> i < |files|) && out == Pick(files, order)
  }

  /** The paths of the chosen files among the first n, in input order. */
  function PathsOf(files: seq<File>, chosen: set<nat>, n: nat): seq<string>
    requires n <= |files|
  {
    if n == 0 then []
    else PathsOf(files, chosen, n - 1) + if n - 1 in chosen then [files[n - 1].path] else []
  }

  /** The paths are those of the chosen files, in ascending order of the files. */
  lemma {:induction false} PathsOfChosen(files: seq<File>, chosen: set<nat>, n: nat) returns (at: seq<nat>)
    requires n <= |files|
    ensures forall k, m :: 0 <= k < m < |at| ==> at[k] < at[m]
    ensures forall i :: i in at <==> i < n && i in chosen
    ensures |PathsOf(files, chosen, n)| == |at|
    ensures forall k :: 0 <= k < |at| ==> at[k] < n && PathsOf(files, chosen, n)[k] == files[at[k]].path
  {
    at := [];
    if n > 0 {
      at := PathsOfChosen(files, chosen, n - 1);
      assert forall k :: 0 <= k < |at| ==> at[k] in at;
      if n - 1 in chosen {
        at := at + [n - 1];
      }
    }
  }

  lemma StartState(deps: Deps, inDeg: seq<int>)
    requires |inDeg| == |deps| && forall i :: 0 <= i < |deps| ==> inDeg[i] == |deps[i]|
    ensures DegreesOk(deps, inDeg, []) && Greedy(deps, [])
    ensures forall i :: 0 <= i < |deps| ==> (inDeg[i] == 0 <==> Ready(deps, [], i))
  {
    forall i | 0 <= i < |deps|
      ensures Waiting(deps[i], []) == deps[i] && (inDeg[i] == 0 <==> AllIn(deps[i], []))
    {
      if inDeg[i] != 0 {
        var d :| d in deps[i];
      }
    }
  }

  /** At the end a positive in-degree marks exactly the files left out. */
  lemma PositiveIffLeftOut(deps: Deps, inDeg: seq<int>, order: seq<nat>, i: nat)
    requires DegreesOk(deps, inDeg, order) && Greedy(deps, order) && Stuck(deps, order) && i < |deps|
    ensures inDeg[i] > 0 <==> i !in order
  {
    GreedyShape(deps, order);
    var waiting := Waiting(deps[i], order);
    if i in order {
      var k :| 0 <= k < |order| && order[k] == i;
      assert AllIn(deps[i], order[..k]);
      assert waiting == {};
    } else {
      assert !Ready(deps, order, i);
      var d :| d in deps[i] && d !in order;
      assert d in waiting;
    }
  }

  /** The files without open dependencies, in input order. */
  method InitialReady(ghost deps: Deps, inDeg: array<int>) returns (ready: seq<nat>)
    requires inDeg.Length == |deps| && forall i :: 0 <= i < |deps| ==> inDeg[i] == |deps[i]|
    ensures Greedy(deps, []) && DegreesOk(deps, inDeg[..], []) && QueueOk(deps, ready, []) && Ascending(ready)
  {
    StartState(deps, inDeg[..]);
    ready := [];
    for i := 0 to inDeg.Length
      invariant NoDup(ready) && forall j: nat :: j in ready <==> j < i && Ready(deps, [], j)
    {
      if inDeg[i] == 0 {
        ready := ready + [i];
      }
    }
    SortKeeps(ready);
    ready := SortInts(ready);
  }

  /** One round of the main loop: place the first ready file and update what waits for it. */
  method PlaceFirst(ghost deps: Deps, adj: array<seq<nat>>, inDeg: array<int>, start: seq<nat>, ghost order: seq<nat>)
    returns (ready: seq<nat>)
    requires Adjacent(deps, adj[..]) && start != []
    requires Greedy(deps, order) && DegreesOk(deps, inDeg[..], order) && QueueOk(deps, start, order) && Ascending(start)
    modifies inDeg
    ensures Greedy(deps, order + [start[0]])
    ensures DegreesOk(deps, inDeg[..], order + [start[0]])
    ensures QueueOk(deps, ready, order + [start[0]]) && Ascending(ready)
  {
    PlaceNext(deps, start, order);
    StartVisiting(deps, inDeg[..], start, order);
    var i := start[0];
    assert adj[..][i] == adj[i];
    ready := VisitNeighbours(deps, adj[i], inDeg, start[1..], order, i);
    SortKeeps(ready);
    ready := SortInts(ready);
  }

  ghost function LeftOut(n: nat, order: seq<nat>): set<nat> { set i | i in Below(n) && i !in order }

  method LeftOvers(files: seq<File>, ghost deps: Deps, inDeg: array<int>, ghost order: seq<nat>)
    returns (leftovers: seq<string>)
    requires |files| == |deps| && DegreesOk(deps, inDeg[..], order) && Greedy(deps, order) && Stuck(deps, order)
    ensures leftovers == PathsOf(files, LeftOut(|files|, order), |files|)
  {
    leftovers := [];
    for i := 0 to |files|
      invariant leftovers == PathsOf(files, LeftOut(|files|, order), i)
    {
      PositiveIffLeftOut(deps, inDeg[..], order, i);
      if inDeg[i] > 0 {
        leftovers := leftovers + [files[i].path];
      }
    }
  }

  method PlaceAll(files: seq<File>, ghost deps: Deps, adj: array<seq<nat>>, inDeg: array<int>)
    returns (out: seq<File>, ghost order: seq<nat>)
    requires |files| == |deps| == inDeg.Length && Adjacent(deps, adj[..])
    requires forall i :: 0 <= i < |deps| ==> inDeg[i] == |deps[i]|
    modifies inDeg
    ensures Greedy(deps, order) && Stuck(deps, order) && DegreesOk(deps, inDeg[..], order)
    ensures IsPick(files, order, out)
  {
    var ready := InitialReady(deps, inDeg);
    out, order := [], [];
    while |ready| > 0
      invariant Adjacent(deps, adj[..])
      invariant Greedy(deps, order) && DegreesOk(deps, inDeg[..], order)
      invariant QueueOk(deps, ready, order) && Ascending(ready)
      invariant IsPick(files, order, out)
      decreases |files| - |order|
    {
      var i := ready[0];
      ready := PlaceFirst(deps, adj, inDeg, ready, order);
      order := order + [i];
      GreedyShape(deps, order);
      NoDupBelow(order, |files|);
      assert order[|order| - 1] == i;
      out := out + [files[i]];
    }
  }

  // -- What the order is ------------------------------------------------------------------------

  /** A topological order that comes lexicographically before every other one. */
  ghost predicate LeastTopological(deps: Deps, order: seq<nat>) {
    Topological(deps, order) && forall other :: Topological(deps, other) ==> order == other || LexLess(order, other)
  }

  /** The file belongs to a set of files each of which waits for another of the set. */
  ghost predicate Blocked(deps: Deps, i: nat) { exists w :: i in w && WaitsWithin(deps, w) }

  ghost function BlockedSet(deps: Deps): set<nat> { set i | i in Below(|deps|) && Blocked(deps, i) }

  /** A greedy order that is stuck is complete exactly when the foreign-key graph has no cycle; then it is the
      least topological order, and otherwise it leaves out exactly the blocked files. */
  lemma TopoSortMeaning(files: seq<File>, order: seq<nat>)
    requires Greedy(Dependencies(files), order) && Stuck(Dependencies(files), order)
    ensures |order| == |files| <==> !Cyclic(Dependencies(files))
    ensures |order| == |files| ==> LeastTopological(Dependencies(files), order)
    ensures LeftOut(|files|, order) == BlockedSet(Dependencies(files))
  {
    var deps := Dependencies(files);
    GreedyShape(deps, order);
    if |order| == |files| {
      GreedyIsTopological(deps, order);
      OrderHasNoCycle(deps, order);
      forall other | Topological(deps, other) ensures order == other || LexLess(order, other) {
        GreedyIsLeast(deps, order, other);
      }
    } else {
      StuckHasCycle(deps, order);
    }
    forall i | 0 <= i < |files| ensures i !in order <==> Blocked(deps, i) {
      LeftOutIff(deps, order, i);
    }
  }

  /** The sort fails exactly when the foreign-key graph has a cycle, naming the files that wait for each other in
      a circle or for such files; otherwise it returns the input permuted by the least topological order. */
  method TopoSortDdl(files: seq<File>) returns (r: Result<seq<File>, seq<string>>)
    ensures r.Success? <==> !Cyclic(Dependencies(files))
    ensures r.Success? ==> exists order :: IsPick(files, order, r.value) && LeastTopological(Dependencies(files), order)
    ensures r.Failure? ==> r.error == PathsOf(files, BlockedSet(Dependencies(files)), |files|)
  {
    ghost var deps := Dependencies(files);
    var adj, inDeg := BuildGraph(files);
    var out;
    ghost var order;
    out, order := PlaceAll(files, deps, adj, inDeg);
    TopoSortMeaning(files, order);
    if |out| != |files| {
      var leftovers := LeftOvers(files, deps, inDeg, order);
      return Failure(leftovers);
    }
    assert IsPick(files, order, out);
    return Success(out);
  }

  /** In a topological order every file comes after the owner of each table it references. */
  lemma FollowsOwners(files: seq<File>, order: seq<nat>, k: nat, table: string, o: nat)
    requires Topological(Dependencies(files), order) && k < |order|
    requires table in files[order[k]].references && Owns(files, table, o) && o != order[k]
    ensures exists j :: 0 <= j < k && order[j] == o
  {
    assert AllIn(Dependencies(files)[order[k]], order[..k]);
    assert DependsOn(files, order[k], o);
    assert o in order[..k];
  }
}
