/** Where a listing stops working, exactly: page sizes at the int32 limit, booleans in a mixed-direction
    order, and the empty order; and what makes ordering columns identify a row. */
module Limits {
  import opened Prelude
  import opened Order
  import opened Sql
  import opened Token
  import opened Schemas
  import opened Keyset
  import opened Execute
  import opened Pagination
  import opened Runs

  /** Asking with a current token succeeds exactly on the first page and, past it, when the order has one
      direction or no boolean column; otherwise the token is said to be bad. */
  lemma RequestSucceedsIff(l: Listing, table: set<Row>, backend: Query -> Answer, pos: Option<Row>, token: string,
                           minted: int, pageSize: int, now: int)
    requires l.Ready() && l.Order() != [] && l.GoodTable(table) && Serves(l.db, backend, table)
    requires Presents(l, pos, token, minted, now) && l.Size(pageSize) < MAX_INT32
    ensures Listed(l.ctx, l.Request(token, pageSize), backend, now).Success? <==> pos.None? || l.Resumable()
    ensures pos.Some? && !l.Resumable() ==>
      Listed(l.ctx, l.Request(token, pageSize), backend, now) == Failure(BadPageToken)
  {
    PlanAt(l, pos, token, minted, pageSize, now);
    if pos.Some? {
      ResumableIff(l, pos.value);
    }
    if ConditionAt(l, pos).Success? {
      PageFrom(l, table, backend, pos, token, minted, pageSize, now);
    }
  }

  // -- The int32 limit --------------------------------------------------------------------------

  /** The LIMIT asks for one row more than the page exactly when the size is below the largest int32; at that
      size it wraps around to -2^31. */
  lemma LimitIff(l: Listing, pos: Option<Row>, size: int)
    requires l.Ready() && ConditionAt(l, pos).Success? && 1 <= size <= MAX_INT32
    ensures QueryOf(l.ctx, PlanFor(l, pos, size)).Success?
    ensures QueryOf(l.ctx, PlanFor(l, pos, size)).value.limit == if size < MAX_INT32 then size + 1 else -0x8000_0000
  {
  }

  /** The rows are all those selected, in order: what a query without LIMIT returns. */
  ghost predicate AllRows(db: Database, table: set<Row>, q: Query, rows: seq<Row>) {
    Answers(db, table, q.(limit := |Selected(db, table, q.where)|), rows)
  }

  ghost function WrappedQuery(l: Listing, pos: Option<Row>): Query
    requires l.Ready() && ConditionAt(l, pos).Success?
  {
    QueryOf(l.ctx, PlanFor(l, pos, MAX_INT32)).value
  }

  /** At the largest int32 the outcome rests on what the negative LIMIT does: if the query fails, so does the
      request; if it finds no rows, the page is empty and the last one, which is right exactly when none remain;
      if it reads on without limit, the page is right all the same. */
  lemma AtTheLimit(l: Listing, table: set<Row>, backend: Query -> Answer, pos: Option<Row>, token: string,
                   minted: int, pageSize: int, now: int)
    requires l.Ready() && l.Order() != [] && l.GoodTable(table)
    requires Presents(l, pos, token, minted, now) && ConditionAt(l, pos).Success? && l.Size(pageSize) == MAX_INT32
    ensures WrappedQuery(l, pos).limit < 0
    ensures
      var answer := backend(WrappedQuery(l, pos));
      var r := Listed(l.ctx, l.Request(token, pageSize), backend, now);
      && (answer.Failed? ==> r == Failure(QueryFailed))
      && (answer.NoRows? ==>
          r == Success(Page([], ""))
          && (PageFacts(l, l.Remaining(table, pos), MAX_INT32, r.value, now) <==> l.Remaining(table, pos) == {}))
      && (answer.Rows? && AllRows(l.db, table, WrappedQuery(l, pos), answer.rows) ==>
          r.Success? && PageFacts(l, l.Remaining(table, pos), MAX_INT32, r.value, now))
  {
    var plan, q := PlanFor(l, pos, MAX_INT32), WrappedQuery(l, pos);
    PlanAt(l, pos, token, minted, pageSize, now);
    SelectedIsRemaining(l, table, pos);
    var answer := backend(q);
    assert Listed(l.ctx, l.Request(token, pageSize), backend, now) == PageOf(l.ctx, plan, answer, now);
    if answer.Rows? && AllRows(l.db, table, q, answer.rows) {
      AnswerSorted(l, table, q.(limit := |Selected(l.db, table, q.where)|), answer.rows);
      PrefixFacts(l, l.Remaining(table, pos), plan, answer.rows, now);
    }
  }

  // -- The empty order --------------------------------------------------------------------------

  /** The token minted for any row under the empty order. */
  ghost function EmptyToken(l: Listing, minted: int): string {
    l.ctx.wire.seal(MintToken(l.ctx.wire, l.ctx.schema.resourceType, Codecs(l.ctx.schema), [], [], l.filter, minted))
  }

  lemma EmptyOrderPlan(l: Listing, token: string, minted: int, pageSize: int, now: int)
    requires l.Ready() && l.Order() == []
    requires token == "" || (token == EmptyToken(l, minted) && now - minted <= TOKEN_MAX_AGE)
    ensures PlanOf(l.ctx, l.Request(token, pageSize), now) == Success(PlanFor(l, None, l.Size(pageSize)))
  {
    if token != "" {
      CursorRoundTrip(l.ctx.wire, l.ctx.schema, [], [], l.filter, minted, []);
      MintedTokenAccepted(l.ctx.wire, l.ctx.schema.resourceType, Codecs(l.ctx.schema), [], [], l.filter, minted,
                          now, l.ctx.schema.resourceType, l.filter);
    }
  }

  lemma EmptyOrderAnswer(l: Listing, table: set<Row>, backend: Query -> Answer, size: int)
    requires l.Ready() && l.Order() == [] && Serves(l.db, backend, table) && 1 <= size < MAX_INT32
    ensures QueryOf(l.ctx, PlanFor(l, None, size)).Success?
    ensures
      match backend(QueryOf(l.ctx, PlanFor(l, None, size)).value)
      case Rows(rows) => |rows| == Min(size + 1, |WantedRows(l, table)|)
      case NoRows => |WantedRows(l, table)| == 0
      case Failed => false
  {
    QueryAt(l, None, size);
    var q := QueryOf(l.ctx, PlanFor(l, None, size)).value;
    forall r | r in table ensures Passes(l.db, q.where, r) <==> l.Wanted(r) {
      CombineMeaning(l.db, l.ctx.base, None, r);
    }
    assert Selected(l.db, table, q.where) == WantedRows(l, table);
    var answer := backend(q);
  }

  /** Under the empty order every request of the listing, with or without a token, gets the first page. */
  lemma EmptyOrderRepeats(l: Listing, v: Visit, token: string, minted: int)
    requires l.Ready() && l.Order() == [] && Serves(l.db, v.backend, v.table) && l.Size(v.pageSize) < MAX_INT32
    requires token == "" || (token == EmptyToken(l, minted) && v.now - minted <= TOKEN_MAX_AGE)
    ensures Respond(l)(v, token).Some?
    ensures Respond(l)(v, token) == Respond(l)(v, "")
    ensures Respond(l)(v, token).value.next ==
      if |WantedRows(l, v.table)| > l.Size(v.pageSize) then EmptyToken(l, v.now) else ""
  {
    EmptyOrderPlan(l, token, minted, v.pageSize, v.now);
    EmptyOrderPlan(l, "", minted, v.pageSize, v.now);
    EmptyOrderAnswer(l, v.table, v.backend, l.Size(v.pageSize));
    assert forall r :: CursorOf(l.ctx.schema, r, []) == [];
  }

  lemma EmptyTokenNotEmpty(l: Listing, minted: int)
    requires l.Ready()
    ensures EmptyToken(l, minted) != ""
  {
    assert WireOk(l.ctx.wire);
  }

  lemma {:induction false} EmptyOrderRun(l: Listing, v: Visit, visits: seq<Visit>, token: string, pages: seq<Page<Row>>)
    requires l.Ready() && l.Order() == [] && Serves(l.db, v.backend, v.table) && l.Size(v.pageSize) < MAX_INT32
    requires |WantedRows(l, v.table)| > l.Size(v.pageSize)
    requires token == "" || token == EmptyToken(l, v.now)
    requires (forall i :: 0 <= i < |visits| ==> visits[i] == v) && P.Run(Respond(l), visits, token, pages)
    ensures !P.Complete(pages)
    decreases |visits|
  {
    EmptyOrderRepeats(l, v, token, v.now);
    EmptyTokenNotEmpty(l, v.now);
    if |visits| > 1 {
      EmptyOrderRun(l, v, visits[1..], pages[0].next, pages[1..]);
    }
  }

  /** Following tokens from the start, with the same request each time, comes to an end. */
  ghost predicate Ends(l: Listing, v: Visit) {
    exists visits, pages ::
      Run(l, visits, pages) && P.Complete(pages) && forall i :: 0 <= i < |visits| ==> visits[i] == v
  }

  // -- Orders that cannot be resumed ------------------------------------------------------------

  /** The first page of any non-empty order. */
  lemma FirstPage(l: Listing, v: Visit)
    requires l.Ready() && l.Order() != [] && GoodVisit(l, v)
    ensures Respond(l)(v, "").Some?
    ensures PageFacts(l, P.After(LessOf(l), WantedRows(l, v.table), None), l.Size(v.pageSize),
                      Respond(l)(v, "").value, v.now)
  {
    PageFrom(l, v.table, v.backend, None, "", 0, v.pageSize, v.now);
    RemainingIsAfter(l, v.table, None);
  }

  lemma FirstToken(l: Listing, v: Visit)
    requires l.Ready() && l.Order() != [] && GoodVisit(l, v)
    ensures Respond(l)(v, "").Some?
    ensures Respond(l)(v, "").value.next != "" <==> |WantedRows(l, v.table)| > l.Size(v.pageSize)
  {
    FirstPage(l, v);
    assert P.After(LessOf(l), WantedRows(l, v.table), None) == WantedRows(l, v.table);
  }

  /** When rows remain after the first page of an order that cannot be resumed, its token is refused, whatever
      has become of the table. */
  lemma SecondPageFails(l: Listing, v: Visit, later: Visit)
    requires l.Ready() && l.Order() != [] && !l.Resumable() && GoodVisit(l, v) && GoodVisit(l, later)
    requires |WantedRows(l, v.table)| > l.Size(v.pageSize) && later.now - v.now <= TOKEN_MAX_AGE
    ensures Respond(l)(v, "").Some? && Respond(l)(v, "").value.next != ""
    ensures Respond(l)(later, Respond(l)(v, "").value.next).None?
  {
    FirstPage(l, v);
    FirstToken(l, v);
    var page, remaining := Respond(l)(v, "").value, P.After(LessOf(l), WantedRows(l, v.table), None);
    var last := P.LastOfPage(LessOf(l), remaining, l.Size(v.pageSize), TokenOf(l, v.now), None, page);
    RemainingConforms(l, v.table, None, last);
    assert Presents(l, Some(last), page.next, v.now, later.now);
    RequestSucceedsIff(l, later.table, later.backend, Some(last), page.next, v.now, later.pageSize, later.now);
  }

  /** A run of one request over a table whose wanted rows fit the page. */
  lemma OnePageEnds(l: Listing, v: Visit)
    requires Respond(l)(v, "").Some? && Respond(l)(v, "").value.next == ""
    ensures Ends(l, v)
  {
    var visits, pages := [v], [Respond(l)(v, "").value];
    assert Run(l, visits, pages) && P.Complete(pages);
  }

  lemma NeverEnds(l: Listing, v: Visit)
    requires l.Ready() && l.Order() != [] && !l.Resumable() && GoodVisit(l, v)
    requires |WantedRows(l, v.table)| > l.Size(v.pageSize)
    ensures !Ends(l, v)
  {
    SecondPageFails(l, v, v);
    forall visits: seq<Visit>, pages: seq<Page<Row>>
      | Run(l, visits, pages) && forall i :: 0 <= i < |visits| ==> visits[i] == v
      ensures !P.Complete(pages)
    {
      P.RefusedRun(Respond(l), v, visits, "", pages);
    }
  }

  lemma EmptyOrderNeverEnds(l: Listing, v: Visit)
    requires l.Ready() && l.Order() == [] && Serves(l.db, v.backend, v.table) && l.Size(v.pageSize) < MAX_INT32
    requires |WantedRows(l, v.table)| > l.Size(v.pageSize)
    ensures !Ends(l, v)
  {
    forall visits: seq<Visit>, pages: seq<Page<Row>>
      | Run(l, visits, pages) && forall i :: 0 <= i < |visits| ==> visits[i] == v
      ensures !P.Complete(pages)
    {
      EmptyOrderRun(l, v, visits, "", pages);
    }
  }

  /** Over an unchanged table a listing ends exactly when its order is not empty and can be resumed, or the
      wanted rows fit on one page. */
  lemma EndsIff(l: Listing, v: Visit)
    requires l.Ready() && Serves(l.db, v.backend, v.table) && l.Size(v.pageSize) < MAX_INT32
    requires l.Order() != [] ==> l.GoodTable(v.table)
    ensures Ends(l, v) <==> (l.Order() != [] && l.Resumable()) || |WantedRows(l, v.table)| <= l.Size(v.pageSize)
  {
    if l.Order() == [] {
      EmptyOrderRepeats(l, v, "", v.now);
    } else {
      FirstToken(l, v);
    }
    if |WantedRows(l, v.table)| <= l.Size(v.pageSize) {
      OnePageEnds(l, v);
    } else if l.Order() == [] {
      EmptyOrderNeverEnds(l, v);
    } else if l.Resumable() {
      var visits, pages := StaticRunExists(l, v);
    } else {
      NeverEnds(l, v);
    }
  }

  // -- Identification ---------------------------------------------------------------------------

  /** The tie-breaker columns of a row. */
  ghost predicate SameTieBreakers(l: Listing, r: Row, s: Row)
    requires l.Ordered()
  {
    forall t :: t in l.ctx.schema.tieBreakers ==>
      Get(r, l.ctx.schema.fields[t.path].column) == Get(s, l.ctx.schema.fields[t.path].column)
  }

  /** Whatever order the client asks for, rows that the tie-breakers identify are identified by the order. */
  lemma TieBreakersIdentify(l: Listing, table: set<Row>)
    requires l.Ordered()
    requires forall r :: r in table && l.Wanted(r) ==> l.Conforms(r)
    requires forall r, s ::
      r in table && s in table && l.Wanted(r) && l.Wanted(s) && SameTieBreakers(l, r, s) ==> r == s
    ensures l.GoodTable(table)
  {
    EffectiveOrderMeaning(l.ctx.letter, l.ctx.schema, l.orderBy);
    forall r, s | r in table && s in table && l.Wanted(r) && l.Wanted(s) && l.KeyOf(r) == l.KeyOf(s) ensures r == s {
      forall t | t in l.ctx.schema.tieBreakers
        ensures Get(r, l.ctx.schema.fields[t.path].column) == Get(s, l.ctx.schema.fields[t.path].column)
      {
        assert HasPath(l.Order(), t.path);
        var k :| 0 <= k < |l.Order()| && l.Order()[k].path == t.path;
        assert l.KeyOf(r)[k] == l.KeyOf(s)[k];
      }
    }
  }
}
