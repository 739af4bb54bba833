/** Paged reading in the abstract: every page is the next rows, in a strict order, of the snapshot it meets.
    The listing protocol is shown to be an instance in module Runs. */
module PagedReads {
  import opened Prelude

  ghost predicate StrictOrder<R(!new)>(less: (R, R) -> bool) {
    && (forall a :: !less(a, a))
    && (forall a, b, c :: less(a, b) && less(b, c) ==> less(a, c))
  }

  /** The rows of a snapshot after a position; None is before every row. */
  ghost function After<R>(less: (R, R) -> bool, snapshot: set<R>, pos: Option<R>): set<R> {
    set r | r in snapshot && (pos.None? || less(pos.value, r))
  }

  ghost predicate Increasing<R>(less: (R, R) -> bool, rows: seq<R>) {
    forall i, j :: 0 <= i < j < |rows| ==> less(rows[i], rows[j])
  }

  /** The first size rows of the remaining ones, and whether more follow. */
  ghost predicate NextRows<R>(less: (R, R) -> bool, remaining: set<R>, size: int, rows: seq<R>, more: bool) {
    && size >= 1
    && |rows| == Min(size, |remaining|)
    && (more <==> |remaining| > size)
    && (forall i :: 0 <= i < |rows| ==> rows[i] in remaining)
    && Increasing(less, rows)
    && forall s :: s in remaining ==> s in rows || (more && less(rows[|rows| - 1], s))
  }

  /** Rows is the beginning of the remaining rows in order. */
  ghost predicate SortedPrefix<R>(less: (R, R) -> bool, remaining: set<R>, rows: seq<R>) {
    && (forall i :: 0 <= i < |rows| ==> rows[i] in remaining)
    && Increasing(less, rows)
    && forall s, i :: s in remaining && s !in rows && 0 <= i < |rows| ==> less(rows[i], s)
  }

  function Trim<R>(rows: seq<R>, size: nat): seq<R> { if |rows| > size then rows[..size] else rows }

  lemma PrefixFits<R(!new)>(less: (R, R) -> bool, remaining: set<R>, rows: seq<R>)
    requires StrictOrder(less) && SortedPrefix(less, remaining, rows)
    ensures |rows| <= |remaining|
    ensures |rows| == |remaining| ==> forall s :: s in remaining ==> s in rows
  {
    var listed := set r | r in rows;
    IncreasingDistinct(less, rows);
    DistinctCount(rows);
    assert remaining == listed + (remaining - listed);
  }

  /** Reading at least one row more than the page holds, and trimming, gives the page and tells whether more
      follow. */
  lemma TrimmedPrefix<R(!new)>(less: (R, R) -> bool, remaining: set<R>, size: nat, rows: seq<R>)
    requires StrictOrder(less) && SortedPrefix(less, remaining, rows)
    requires size >= 1 && |rows| >= Min(size + 1, |remaining|)
    ensures NextRows(less, remaining, size, Trim(rows, size), |rows| > size)
  {
    var page := Trim(rows, size);
    PrefixFits(less, remaining, rows);
    if |rows| > size {
      forall s | s in remaining ensures s in page || less(page[size - 1], s) {
        if s in rows {
          var i :| 0 <= i < |rows| && rows[i] == s;
          assert i < size ==> page[i] == s;
        }
      }
    }
  }

  function EndOf<R>(pos: Option<R>, rows: seq<R>): Option<R> {
    if rows == [] then pos else Some(rows[|rows| - 1])
  }

  ghost predicate Reads<R>(less: (R, R) -> bool, snapshots: seq<set<R>>, sizes: seq<int>, pos: Option<R>,
                           pages: seq<seq<R>>, complete: bool)
    decreases |pages|
  {
    && |snapshots| == |sizes| == |pages| > 0
    && NextRows(less, After(less, snapshots[0], pos), sizes[0], pages[0], |pages| > 1 || !complete)
    && (|pages| > 1 ==> Reads(less, snapshots[1..], sizes[1..], EndOf(pos, pages[0]), pages[1..], complete))
  }

  function Concat<R>(pages: seq<seq<R>>): seq<R> {
    if pages == [] then [] else pages[0] + Concat(pages[1..])
  }

  ghost predicate AllAfter<R>(less: (R, R) -> bool, pos: Option<R>, rows: seq<R>) {
    pos.Some? ==> forall i :: 0 <= i < |rows| ==> less(pos.value, rows[i])
  }

  lemma JoinIncreasing<R(!new)>(less: (R, R) -> bool, pos: Option<R>, first: seq<R>, rest: seq<R>)
    requires StrictOrder(less)
    requires Increasing(less, first) && Increasing(less, rest) && AllAfter(less, pos, first)
    requires first != [] && AllAfter(less, Some(first[|first| - 1]), rest)
    ensures Increasing(less, first + rest) && AllAfter(less, pos, first + rest)
  {
    var last, all := first[|first| - 1], first + rest;
    forall j | 0 <= j < |rest| ensures less(last, rest[j]) {}
    forall i, j | 0 <= i < j < |all| ensures less(all[i], all[j]) {
      if i < |first| <= j {
        assert all[j] == rest[j - |first|] && less(last, all[j]);
        assert i == |first| - 1 || less(all[i], last);
      }
    }
  }

  /** Everything received, across all pages, strictly increases past the starting position. */
  lemma {:induction false} ReadsIncrease<R(!new)>(less: (R, R) -> bool, snapshots: seq<set<R>>, sizes: seq<int>,
                                                  pos: Option<R>, pages: seq<seq<R>>, complete: bool)
    requires StrictOrder(less) && Reads(less, snapshots, sizes, pos, pages, complete)
    ensures Increasing(less, Concat(pages)) && AllAfter(less, pos, Concat(pages))
    decreases |pages|
  {
    if |pages| > 1 {
      ReadsIncrease(less, snapshots[1..], sizes[1..], EndOf(pos, pages[0]), pages[1..], complete);
      JoinIncreasing(less, pos, pages[0], Concat(pages[1..]));
    } else {
      assert Concat(pages) == pages[0] + [] == pages[0];
    }
  }

  /** A completed run received every row past the starting position that was in every snapshot. */
  lemma {:induction false} ReadsCover<R(!new)>(less: (R, R) -> bool, snapshots: seq<set<R>>, sizes: seq<int>,
                                               pos: Option<R>, pages: seq<seq<R>>, r: R)
    requires Reads(less, snapshots, sizes, pos, pages, true)
    requires (forall s :: s in snapshots ==> r in s) && (pos.Some? ==> less(pos.value, r))
    ensures r in Concat(pages)
    decreases |pages|
  {
    assert snapshots[0] in snapshots;
    assert r in After(less, snapshots[0], pos);
    if r !in pages[0] {
      ReadsCover(less, snapshots[1..], sizes[1..], EndOf(pos, pages[0]), pages[1..], r);
    }
  }

  /** Every row of a page was in the snapshot the page was read from. */
  lemma {:induction false} ReadsOrigin<R(!new)>(less: (R, R) -> bool, snapshots: seq<set<R>>, sizes: seq<int>,
                                                pos: Option<R>, pages: seq<seq<R>>, complete: bool, k: nat, i: nat)
    requires Reads(less, snapshots, sizes, pos, pages, complete) && k < |pages| && i < |pages[k]|
    ensures pages[k][i] in snapshots[k]
    decreases |pages|
  {
    if k > 0 {
      ReadsOrigin(less, snapshots[1..], sizes[1..], EndOf(pos, pages[0]), pages[1..], complete, k - 1, i);
    } else {
      assert pages[0][i] in After(less, snapshots[0], pos);
    }
  }

  lemma IncreasingDistinct<R(!new)>(less: (R, R) -> bool, rows: seq<R>)
    requires StrictOrder(less) && Increasing(less, rows)
    ensures forall i, j :: 0 <= i < j < |rows| ==> rows[i] != rows[j]
  {
    forall i, j | 0 <= i < j < |rows| ensures rows[i] != rows[j] {
      assert less(rows[i], rows[j]);
    }
  }

  lemma {:induction false} DistinctCount<R>(rows: seq<R>)
    requires forall i, j :: 0 <= i < j < |rows| ==> rows[i] != rows[j]
    ensures |set r | r in rows| == |rows|
  {
    if rows != [] {
      var last, front := rows[|rows| - 1], rows[..|rows| - 1];
      DistinctCount(front);
      assert (set r | r in rows) == (set r | r in front) + {last};
    }
  }

  /** After a page with more to come, what remains is exactly what remained before, minus the page. */
  lemma RemainingAfter<R(!new)>(less: (R, R) -> bool, snapshot: set<R>, pos: Option<R>, size: int, rows: seq<R>)
    requires StrictOrder(less) && NextRows(less, After(less, snapshot, pos), size, rows, true)
    ensures |rows| == size
    ensures After(less, snapshot, EndOf(pos, rows)) == After(less, snapshot, pos) - set r | r in rows
    ensures |After(less, snapshot, EndOf(pos, rows))| == |After(less, snapshot, pos)| - size
  {
    var remaining, last := After(less, snapshot, pos), rows[|rows| - 1];
    var shown := set r | r in rows;
    assert last in remaining;
    forall r ensures r in After(less, snapshot, Some(last)) <==> r in remaining && r !in shown {
      if r in shown {
        var i :| 0 <= i < |rows| && rows[i] == r;
        assert i == |rows| - 1 || less(r, last);
      }
    }
    IncreasingDistinct(less, rows);
    DistinctCount(rows);
    assert remaining == After(less, snapshot, Some(last)) + shown;
  }

  /** The number of pages of size k needed for n rows; one page is read even when there are none. */
  function PagesFor(n: nat, k: nat): nat
    requires k > 0
  {
    if n <= k then 1 else 1 + PagesFor(n - k, k)
  }

  /** p is max(1, ceil(n / k)): the least positive number of pages of size k that hold n rows. */
  predicate PagesNeeded(n: nat, k: nat, p: nat) {
    p >= 1 && n <= p * k && (p == 1 || (p - 1) * k < n)
  }

  lemma {:induction false} PagesForIsLeast(n: nat, k: nat)
    requires k > 0
    ensures PagesNeeded(n, k, PagesFor(n, k))
  {
    if n > k {
      PagesForIsLeast(n - k, k);
      var p := PagesFor(n - k, k);
      assert (1 + p) * k == k + p * k;
      assert p * k == k + (p - 1) * k;
    }
  }

  /** Over one unchanged snapshot the number of pages is fixed. */
  lemma {:induction false} ReadsCount<R(!new)>(less: (R, R) -> bool, snapshots: seq<set<R>>, sizes: seq<int>,
                                               pos: Option<R>, pages: seq<seq<R>>, snapshot: set<R>, size: int)
    requires StrictOrder(less) && Reads(less, snapshots, sizes, pos, pages, true)
    requires forall i :: 0 <= i < |snapshots| ==> snapshots[i] == snapshot && sizes[i] == size
    ensures size >= 1 && |pages| == PagesFor(|After(less, snapshot, pos)|, size)
    decreases |pages|
  {
    if |pages| > 1 {
      RemainingAfter(less, snapshot, pos, size, pages[0]);
      ReadsCount(less, snapshots[1..], sizes[1..], EndOf(pos, pages[0]), pages[1..], snapshot, size);
    }
  }

  /** Over one unchanged snapshot a completed run lists exactly its rows, each once and in order, in
      max(1, ceil(n / size)) pages. */
  lemma UnchangedReads<R(!new)>(less: (R, R) -> bool, snapshots: seq<set<R>>, sizes: seq<int>,
                                pages: seq<seq<R>>, snapshot: set<R>, size: int)
    requires StrictOrder(less) && Reads(less, snapshots, sizes, None, pages, true)
    requires forall i :: 0 <= i < |snapshots| ==> snapshots[i] == snapshot && sizes[i] == size
    ensures Increasing(less, Concat(pages))
    ensures forall r :: r in Concat(pages) <==> r in snapshot
    ensures size >= 1 && PagesNeeded(|snapshot|, size, |pages|)
  {
    ReadsIncrease(less, snapshots, sizes, None, pages, true);
    ReadsCount(less, snapshots, sizes, None, pages, snapshot, size);
    assert After(less, snapshot, None) == snapshot;
    PagesForIsLeast(|snapshot|, size);
    forall r | r in snapshot ensures r in Concat(pages) {
      ReadsCover(less, snapshots, sizes, None, pages, r);
    }
    forall r | r in Concat(pages) ensures r in snapshot {
      var k, i := PageHolding(pages, r);
      ReadsOrigin(less, snapshots, sizes, None, pages, true, k, i);
    }
  }

  lemma {:induction false} PageHolding<R>(pages: seq<seq<R>>, r: R) returns (k: nat, i: nat)
    requires r in Concat(pages)
    ensures k < |pages| && i < |pages[k]| && pages[k][i] == r
  {
    if r in pages[0] {
      k := 0;
      i :| 0 <= i < |pages[0]| && pages[0][i] == r;
    } else {
      k, i := PageHolding(pages[1..], r);
      k := k + 1;
    }
  }

  /** The next rows, and the token of the row the page ends in exactly when more follow. */
  ghost predicate NextPage<R>(less: (R, R) -> bool, remaining: set<R>, size: int, token: R -> string, page: Page<R>) {
    && NextRows(less, remaining, size, page.rows, page.next != "")
    && (page.next != "" ==> page.rows != [] && page.next == token(page.rows[|page.rows| - 1]))
  }

  lemma LastOfPage<R>(less: (R, R) -> bool, remaining: set<R>, size: int, token: R -> string, pos: Option<R>,
                      page: Page<R>) returns (last: R)
    requires NextPage(less, remaining, size, token, page) && page.next != ""
    ensures last in remaining && EndOf(pos, page.rows) == Some(last) && page.next == token(last)
  {
    last := page.rows[|page.rows| - 1];
  }

  /** The page made of one row more than it holds. */
  function PageOfRows<R>(rows: seq<R>, size: nat, token: R -> string): Page<R>
    requires size >= 1
  {
    Page(Trim(rows, size), if |rows| > size then token(rows[size - 1]) else "")
  }

  lemma PrefixPage<R(!new)>(less: (R, R) -> bool, remaining: set<R>, size: nat, rows: seq<R>, token: R -> string)
    requires StrictOrder(less) && SortedPrefix(less, remaining, rows)
    requires size >= 1 && |rows| >= Min(size + 1, |remaining|)
    requires forall r :: r in remaining ==> token(r) != ""
    ensures NextPage(less, remaining, size, token, PageOfRows(rows, size, token))
  {
    TrimmedPrefix(less, remaining, size, rows);
    assert |rows| > size ==> rows[size - 1] in remaining;
  }

  // -- Following tokens -------------------------------------------------------------------------

  /** The pages received when each request passes on the token of the page before it. */
  ghost predicate Run<V, R>(respond: (V, string) -> Option<Page<R>>, visits: seq<V>, token: string, pages: seq<Page<R>>)
    decreases |visits|
  {
    && |visits| == |pages| > 0
    && respond(visits[0], token) == Some(pages[0])
    && (|visits| > 1 ==> pages[0].next != "" && Run(respond, visits[1..], pages[0].next, pages[1..]))
  }

  lemma NoRun<V, R>(respond: (V, string) -> Option<Page<R>>, v: V, visits: seq<V>, token: string, pages: seq<Page<R>>)
    requires respond(v, token).None? && (visits != [] ==> visits[0] == v)
    ensures !Run(respond, visits, token, pages)
  {
  }

  /** A run that repeats one request gets no further than a page whose token is refused. */
  lemma RefusedRun<V, R>(respond: (V, string) -> Option<Page<R>>, v: V, visits: seq<V>, token: string,
                         pages: seq<Page<R>>)
    requires Run(respond, visits, token, pages) && forall i :: 0 <= i < |visits| ==> visits[i] == v
    requires respond(v, token).Some? && respond(v, token).value.next != ""
    requires respond(v, respond(v, token).value.next).None?
    ensures !Complete(pages)
  {
    assert visits[0] == v;
    NoRun(respond, v, visits[1..], pages[0].next, pages[1..]);
  }

  predicate Complete<R>(pages: seq<Page<R>>) { pages != [] && pages[|pages| - 1].next == "" }

  function RowsOf<R>(pages: seq<Page<R>>): seq<seq<R>> {
    seq(|pages|, i requires 0 <= i < |pages| => pages[i].rows)
  }

  /** All rows received, in the order received. */
  function Received<R>(pages: seq<Page<R>>): seq<R> { Concat(RowsOf(pages)) }

  function MapSeq<V, W>(f: V -> W, vs: seq<V>): seq<W> {
    seq(|vs|, i requires 0 <= i < |vs| => f(vs[i]))
  }

  /** How a service answers: tokens stand for positions in the order. */
  datatype Service<!V, !R> = Service(
    less: (R, R) -> bool,
    snapshot: V -> set<R>,
    size: V -> int,
    respond: (V, string) -> Option<Page<R>>,
    presents: (Option<R>, string, V) -> bool)

  /** Asked at a position, a request answers with the next rows, and its token presents the position they
      end in to the request that follows. */
  ghost predicate StepOk<V, R>(s: Service<V, R>, visits: seq<V>, i: nat, pos: Option<R>, token: string)
    requires i < |visits|
  {
    var v := visits[i];
    && s.respond(v, token).Some?
    && var page := s.respond(v, token).value;
       && NextRows(s.less, After(s.less, s.snapshot(v), pos), s.size(v), page.rows, page.next != "")
       && (page.next != "" && i + 1 < |visits| ==> s.presents(EndOf(pos, page.rows), page.next, visits[i + 1]))
  }

  lemma StepFrom<V, R>(s: Service<V, R>, visits: seq<V>, i: nat, pos: Option<R>, token: string, page: Page<R>)
    requires i < |visits| && s.respond(visits[i], token) == Some(page)
    requires NextRows(s.less, After(s.less, s.snapshot(visits[i]), pos), s.size(visits[i]), page.rows, page.next != "")
    requires page.next != "" && i + 1 < |visits| ==> s.presents(EndOf(pos, page.rows), page.next, visits[i + 1])
    ensures StepOk(s, visits, i, pos, token)
  {
  }

  ghost predicate Faithful<V, R(!new)>(s: Service<V, R>, visits: seq<V>) {
    forall i, pos, token :: 0 <= i < |visits| && s.presents(pos, token, visits[i]) ==> StepOk(s, visits, i, pos, token)
  }

  lemma FaithfulTail<V, R(!new)>(s: Service<V, R>, visits: seq<V>)
    requires Faithful(s, visits) && visits != []
    ensures Faithful(s, visits[1..])
  {
    var rest := visits[1..];
    forall i, pos, token | 0 <= i < |rest| && s.presents(pos, token, rest[i]) ensures StepOk(s, rest, i, pos, token) {
      assert StepOk(s, visits, i + 1, pos, token);
    }
  }

  /** A run against a faithful service is a paged read of the snapshots it meets. */
  lemma {:induction false} RunReads<V, R(!new)>(s: Service<V, R>, visits: seq<V>, pos: Option<R>, token: string,
                                                pages: seq<Page<R>>)
    requires Faithful(s, visits) && Run(s.respond, visits, token, pages)
    requires s.presents(pos, token, visits[0])
    ensures Reads(s.less, MapSeq(s.snapshot, visits), MapSeq(s.size, visits), pos, RowsOf(pages), Complete(pages))
    decreases |visits|
  {
    assert StepOk(s, visits, 0, pos, token);
    if |visits| > 1 {
      FaithfulTail(s, visits);
      RunReads(s, visits[1..], EndOf(pos, pages[0].rows), pages[0].next, pages[1..]);
      assert MapSeq(s.snapshot, visits)[1..] == MapSeq(s.snapshot, visits[1..]);
      assert MapSeq(s.size, visits)[1..] == MapSeq(s.size, visits[1..]);
      assert RowsOf(pages)[1..] == RowsOf(pages[1..]);
    }
  }

  /** In every run: what is received strictly increases across all pages, each row was in the snapshot its
      request met, and a completed run received every row that was in every snapshot. */
  lemma RunFacts<V, R(!new)>(s: Service<V, R>, visits: seq<V>, token: string, pages: seq<Page<R>>)
    requires StrictOrder(s.less) && Faithful(s, visits) && Run(s.respond, visits, token, pages)
    requires s.presents(None, token, visits[0])
    ensures Increasing(s.less, Received(pages))
    ensures forall i, j :: 0 <= i < j < |Received(pages)| ==> Received(pages)[i] != Received(pages)[j]
    ensures forall k, i :: 0 <= k < |pages| && 0 <= i < |pages[k].rows| ==> pages[k].rows[i] in s.snapshot(visits[k])
    ensures Complete(pages) ==>
      forall r :: (forall k :: 0 <= k < |visits| ==> r in s.snapshot(visits[k])) ==> r in Received(pages)
  {
    var snapshots, sizes, lists := MapSeq(s.snapshot, visits), MapSeq(s.size, visits), RowsOf(pages);
    RunReads(s, visits, None, token, pages);
    ReadsIncrease(s.less, snapshots, sizes, None, lists, Complete(pages));
    IncreasingDistinct(s.less, Received(pages));
    forall k, i | 0 <= k < |pages| && 0 <= i < |pages[k].rows| ensures pages[k].rows[i] in s.snapshot(visits[k]) {
      ReadsOrigin(s.less, snapshots, sizes, None, lists, Complete(pages), k, i);
      assert lists[k][i] in snapshots[k];
    }
    if Complete(pages) {
      forall r | forall k :: 0 <= k < |visits| ==> r in s.snapshot(visits[k]) ensures r in Received(pages) {
        assert forall m :: m in snapshots ==> r in m;
        ReadsCover(s.less, snapshots, sizes, None, lists, r);
      }
    }
  }

  /** Against a faithful service over one unchanged snapshot, a completed run lists exactly its rows, each once
      and in order, in max(1, ceil(n / size)) requests. */
  lemma UnchangedRun<V, R(!new)>(s: Service<V, R>, visits: seq<V>, token: string, pages: seq<Page<R>>,
                                 snapshot: set<R>, size: int)
    requires StrictOrder(s.less) && Faithful(s, visits) && Run(s.respond, visits, token, pages) && Complete(pages)
    requires s.presents(None, token, visits[0])
    requires forall i :: 0 <= i < |visits| ==> s.snapshot(visits[i]) == snapshot && s.size(visits[i]) == size
    ensures Increasing(s.less, Received(pages))
    ensures forall r :: r in Received(pages) <==> r in snapshot
    ensures size >= 1 && PagesNeeded(|snapshot|, size, |pages|)
  {
    RunReads(s, visits, None, token, pages);
    UnchangedReads(s.less, MapSeq(s.snapshot, visits), MapSeq(s.size, visits), RowsOf(pages), snapshot, size);
  }

  /** Against a faithful service over one unchanged snapshot, following tokens always ends. */
  lemma {:induction false} RunEnds<V, R(!new)>(s: Service<V, R>, v: V, pos: Option<R>, token: string)
    returns (visits: seq<V>, pages: seq<Page<R>>)
    requires StrictOrder(s.less) && Faithful(s, [v, v]) && s.presents(pos, token, v)
    ensures Run(s.respond, visits, token, pages) && Complete(pages)
    ensures forall i :: 0 <= i < |visits| ==> visits[i] == v
    decreases |After(s.less, s.snapshot(v), pos)|
  {
    assert [v, v][0] == v && [v, v][1] == v;
    assert StepOk(s, [v, v], 0, pos, token);
    var page := s.respond(v, token).value;
    if page.next == "" {
      visits, pages := [v], [page];
    } else {
      RemainingAfter(s.less, s.snapshot(v), pos, s.size(v), page.rows);
      var vs, ps := RunEnds(s, v, EndOf(pos, page.rows), page.next);
      visits, pages := [v] + vs, [page] + ps;
      assert visits[1..] == vs && pages[1..] == ps;
    }
  }
}
