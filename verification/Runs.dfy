/** Runs of a listing: a client follows next-page tokens while the table changes between its requests, or
    while it does not. The listing is shown to be a faithful service in the sense of module PagedReads. */
module Runs {
  import opened Prelude
  import opened Sql
  import opened Token
  import opened Schemas
  import opened Keyset
  import opened Execute
  import opened Pagination
  import P = PagedReads

  /** One request of a run: the table it meets, the backend that reads it, its page size and its time. */
  datatype Visit = Visit(table: set<Row>, backend: Query -> Answer, pageSize: int, now: int)

  /** The effective order is not empty and cursors of it can be resumed. */
  ghost predicate Pageable(l: Listing) { l.Ready() && l.Order() != [] && l.Resumable() }

  ghost predicate GoodVisit(l: Listing, v: Visit)
    requires l.Ready()
  {
    l.GoodTable(v.table) && Serves(l.db, v.backend, v.table) && l.Size(v.pageSize) < MAX_INT32
  }

  /** Every request meets an identified table, and no token expires before it is used. */
  ghost predicate GoodVisits(l: Listing, visits: seq<Visit>)
    requires l.Ready()
  {
    && (forall i :: 0 <= i < |visits| ==> GoodVisit(l, visits[i]))
    && (forall i :: 0 < i < |visits| ==> visits[i].now - visits[i - 1].now <= TOKEN_MAX_AGE)
  }

  ghost function Respond(l: Listing): (Visit, string) -> Option<Page<Row>> {
    (v: Visit, token) =>
      if Valid(l.ctx.schema) then
        match Listed(l.ctx, l.Request(token, v.pageSize), v.backend, v.now)
        case Success(page) => Some(page)
        case Failure(_) => None
      else None
  }

  ghost predicate PresentsTo(l: Listing, pos: Option<Row>, token: string, v: Visit) {
    l.Ready() && exists minted: int :: Presents(l, pos, token, minted, v.now)
  }

  ghost function WantedRows(l: Listing, table: set<Row>): set<Row> { set r | r in table && l.Wanted(r) }

  ghost function ServiceOf(l: Listing): P.Service<Visit, Row> {
    P.Service(
      LessOf(l),
      (v: Visit) => WantedRows(l, v.table),
      (v: Visit) => l.Size(v.pageSize),
      Respond(l),
      (pos, token, v) => PresentsTo(l, pos, token, v))
  }

  lemma RemainingIsAfter(l: Listing, table: set<Row>, pos: Option<Row>)
    requires l.Ready()
    ensures l.Remaining(table, pos) == P.After(LessOf(l), WantedRows(l, table), pos)
  {
  }

  lemma OneRequest(l: Listing, v: Visit, pos: Option<Row>, token: string)
    requires Pageable(l) && GoodVisit(l, v) && PresentsTo(l, pos, token, v)
    ensures Respond(l)(v, token).Some?
    ensures PageFacts(l, P.After(LessOf(l), WantedRows(l, v.table), pos), l.Size(v.pageSize),
                      Respond(l)(v, token).value, v.now)
  {
    var minted: int :| Presents(l, pos, token, minted, v.now);
    ConditionAvailable(l, pos);
    PageFrom(l, v.table, v.backend, pos, token, minted, v.pageSize, v.now);
    RemainingIsAfter(l, v.table, pos);
  }

  lemma TokenPresents(l: Listing, r: Row, token: string, v: Visit, later: Visit)
    requires l.Ready() && l.Conforms(r) && token == TokenOf(l, v.now)(r) && later.now - v.now <= TOKEN_MAX_AGE
    ensures PresentsTo(l, Some(r), token, later)
  {
    assert Presents(l, Some(r), token, v.now, later.now);
  }

  lemma RemainingConforms(l: Listing, table: set<Row>, pos: Option<Row>, r: Row)
    requires l.Ready() && l.GoodTable(table) && r in P.After(LessOf(l), WantedRows(l, table), pos)
    ensures l.Conforms(r)
  {
  }

  lemma ServiceFields(l: Listing, v: Visit)
    ensures ServiceOf(l).less == LessOf(l) && ServiceOf(l).respond == Respond(l)
    ensures ServiceOf(l).snapshot(v) == WantedRows(l, v.table) && ServiceOf(l).size(v) == l.Size(v.pageSize)
    ensures forall pos, token :: ServiceOf(l).presents(pos, token, v) <==> PresentsTo(l, pos, token, v)
  {
  }

  /** The token of a page presents the position the page ends in to a request made in time. */
  lemma NextPresents(l: Listing, v: Visit, pos: Option<Row>, page: Page<Row>, later: Visit)
    requires Pageable(l) && GoodVisit(l, v) && later.now - v.now <= TOKEN_MAX_AGE && page.next != ""
    requires PageFacts(l, P.After(LessOf(l), WantedRows(l, v.table), pos), l.Size(v.pageSize), page, v.now)
    ensures PresentsTo(l, P.EndOf(pos, page.rows), page.next, later)
  {
    var remaining := P.After(LessOf(l), WantedRows(l, v.table), pos);
    var last := P.LastOfPage(LessOf(l), remaining, l.Size(v.pageSize), TokenOf(l, v.now), pos, page);
    RemainingConforms(l, v.table, pos, last);
    TokenPresents(l, last, page.next, v, later);
  }

  /** What one request of a run answers, and that its token presents the position it ends in to the next. */
  lemma ListingPage(l: Listing, visits: seq<Visit>, i: nat, pos: Option<Row>, token: string) returns (page: Page<Row>)
    requires Pageable(l) && GoodVisits(l, visits) && i < |visits| && PresentsTo(l, pos, token, visits[i])
    ensures Respond(l)(visits[i], token) == Some(page)
    ensures PageFacts(l, P.After(LessOf(l), WantedRows(l, visits[i].table), pos), l.Size(visits[i].pageSize), page,
                      visits[i].now)
    ensures page.next != "" && i + 1 < |visits| ==> PresentsTo(l, P.EndOf(pos, page.rows), page.next, visits[i + 1])
  {
    OneRequest(l, visits[i], pos, token);
    page := Respond(l)(visits[i], token).value;
    if page.next != "" && i + 1 < |visits| {
      NextPresents(l, visits[i], pos, page, visits[i + 1]);
    }
  }

  lemma ListingStep(l: Listing, visits: seq<Visit>, i: nat, pos: Option<Row>, token: string)
    requires Pageable(l) && GoodVisits(l, visits) && i < |visits| && PresentsTo(l, pos, token, visits[i])
    ensures P.StepOk(ServiceOf(l), visits, i, pos, token)
  {
    var page := ListingPage(l, visits, i, pos, token);
    ServiceFields(l, visits[i]);
    if i + 1 < |visits| {
      ServiceFields(l, visits[i + 1]);
    }
    P.StepFrom(ServiceOf(l), visits, i, pos, token, page);
  }

  /** The listing protocol is a faithful service. */
  lemma ListingIsFaithful(l: Listing, visits: seq<Visit>)
    requires Pageable(l) && GoodVisits(l, visits)
    ensures P.StrictOrder(LessOf(l)) && P.Faithful(ServiceOf(l), visits)
  {
    LessIsStrict(l);
    var s := ServiceOf(l);
    forall i, pos, token | 0 <= i < |visits| && s.presents(pos, token, visits[i])
      ensures P.StepOk(s, visits, i, pos, token)
    {
      ListingStep(l, visits, i, pos, token);
    }
  }

  /** The first request passes the empty token. */
  ghost predicate Run(l: Listing, visits: seq<Visit>, pages: seq<Page<Row>>) { P.Run(Respond(l), visits, "", pages) }

  lemma StartPresents(l: Listing, v: Visit)
    requires l.Ready()
    ensures PresentsTo(l, None, "", v)
  {
    assert Presents(l, None, "", 0, v.now);
  }

  /** In every run, whatever is inserted, deleted or changed between its requests: the sort keys received
      strictly increase across all pages, so no row comes twice; each row received was a wanted row of the
      table its request met; and once the run completes, every wanted row that was in every table was
      received. */
  lemma InterleavedRun(l: Listing, visits: seq<Visit>, pages: seq<Page<Row>>)
    requires Pageable(l) && GoodVisits(l, visits) && Run(l, visits, pages)
    ensures P.Increasing(LessOf(l), P.Received(pages))
    ensures forall i, j :: 0 <= i < j < |P.Received(pages)| ==> P.Received(pages)[i] != P.Received(pages)[j]
    ensures forall k, i :: 0 <= k < |pages| && 0 <= i < |pages[k].rows| ==>
      pages[k].rows[i] in WantedRows(l, visits[k].table)
    ensures P.Complete(pages) ==>
      forall r :: (forall k :: 0 <= k < |visits| ==> r in WantedRows(l, visits[k].table)) ==> r in P.Received(pages)
  {
    var s := ServiceOf(l);
    ListingIsFaithful(l, visits);
    StartPresents(l, visits[0]);
    P.RunFacts(s, visits, "", pages);
    forall k, i | 0 <= k < |pages| && 0 <= i < |pages[k].rows|
      ensures pages[k].rows[i] in WantedRows(l, visits[k].table)
    {
      assert pages[k].rows[i] in s.snapshot(visits[k]);
    }
    if P.Complete(pages) {
      forall r | forall k :: 0 <= k < |visits| ==> r in WantedRows(l, visits[k].table) ensures r in P.Received(pages) {
        assert forall k :: 0 <= k < |visits| ==> r in s.snapshot(visits[k]);
      }
    }
  }

  /** The rows of a run come in the order asked for: where an earlier and a later one first differ on the fields
      of the order, the earlier has the smaller value of an ascending field, the larger of a descending one. */
  lemma RowsAsAsked(l: Listing, visits: seq<Visit>, pages: seq<Page<Row>>)
    requires Pageable(l) && GoodVisits(l, visits) && Run(l, visits, pages)
    ensures forall i, j :: 0 <= i < j < |P.Received(pages)| ==>
      Precedes(l.db, l.ctx.schema, l.Order(), P.Received(pages)[i], P.Received(pages)[j])
  {
    InterleavedRun(l, visits, pages);
    var rows := P.Received(pages);
    forall i, j | 0 <= i < j < |rows| ensures Precedes(l.db, l.ctx.schema, l.Order(), rows[i], rows[j]) {
      assert LessOf(l)(rows[i], rows[j]);
      ClausesMeaning(l.db, l.ctx.schema, l.Order(), rows[i], rows[j]);
    }
  }

  /** Over an unchanged table a completed run with page size k returns exactly the n wanted rows, each once,
      in ORDER BY order, in max(1, ceil(n / k)) requests. */
  lemma StaticRun(l: Listing, visits: seq<Visit>, table: set<Row>, pageSize: int, pages: seq<Page<Row>>)
    requires Pageable(l) && GoodVisits(l, visits) && Run(l, visits, pages) && P.Complete(pages)
    requires forall i :: 0 <= i < |visits| ==> visits[i].table == table && visits[i].pageSize == pageSize
    ensures P.Increasing(LessOf(l), P.Received(pages))
    ensures forall r :: r in P.Received(pages) <==> r in WantedRows(l, table)
    ensures l.Size(pageSize) >= 1 && P.PagesNeeded(|WantedRows(l, table)|, l.Size(pageSize), |pages|)
  {
    var s := ServiceOf(l);
    ListingIsFaithful(l, visits);
    StartPresents(l, visits[0]);
    P.UnchangedRun(s, visits, "", pages, WantedRows(l, table), l.Size(pageSize));
  }

  /** Following tokens over an unchanged table never fails and always ends. */
  lemma StaticRunExists(l: Listing, v: Visit) returns (visits: seq<Visit>, pages: seq<Page<Row>>)
    requires Pageable(l) && GoodVisit(l, v)
    ensures Run(l, visits, pages) && P.Complete(pages)
    ensures forall i :: 0 <= i < |visits| ==> visits[i] == v
  {
    ListingIsFaithful(l, [v, v]);
    StartPresents(l, v);
    visits, pages := P.RunEnds(ServiceOf(l), v, None, "");
  }
}
