/** Listings whose base condition is a compiled filter: the client receives the rows the filter is true of. */
module FilteredListing {
  import opened Prelude
  import opened Sql
  import opened Pagination
  import opened Runs
  import opened Filter

  /** The listing's base condition is what the filter compiles to. */
  ghost predicate Filtered(l: Listing, env: Env, e: FilterExpr, fields: FieldBindings) {
    && env.db == l.db
    && NonEmptyJunctions(e)
    && Translate(env, e, fields).Success?
    && l.ctx.base == Some(Translate(env, e, fields).value)
  }

  /** Every bound expression fits every row of the table. */
  ghost predicate TableFits(env: Env, fields: FieldBindings, table: set<Row>) {
    forall r :: r in table ==> RowFits(env.db, fields, r)
  }

  /** The rows of a table that the filter is true of. */
  ghost function Matching(env: Env, e: FilterExpr, fields: FieldBindings, table: set<Row>): set<Row>
    requires WellTyped(env, e, fields)
  {
    set r | r in table && Meaning(env, e, fields, r) == True
  }

  lemma WantedAreMatching(l: Listing, env: Env, e: FilterExpr, fields: FieldBindings, table: set<Row>)
    requires Filtered(l, env, e, fields) && TableFits(env, fields, table)
    ensures WellTyped(env, e, fields)
    ensures WantedRows(l, table) == Matching(env, e, fields, table)
  {
    TranslateAccepts(env, e, fields);
    forall r | r in table ensures l.Wanted(r) <==> Meaning(env, e, fields, r) == True {
      TranslatePreserves(env, e, fields, r);
    }
  }

  /** Over an unchanged table a completed run returns exactly the rows the filter is true of, each once, in ORDER
      BY order, in max(1, ceil(n / k)) requests. */
  lemma FilteredRun(l: Listing, env: Env, e: FilterExpr, fields: FieldBindings, visits: seq<Visit>, table: set<Row>,
                    pageSize: int, pages: seq<Page<Row>>)
    requires Filtered(l, env, e, fields) && TableFits(env, fields, table)
    requires Pageable(l) && GoodVisits(l, visits) && Runs.Run(l, visits, pages) && P.Complete(pages)
    requires forall i :: 0 <= i < |visits| ==> visits[i].table == table && visits[i].pageSize == pageSize
    ensures WellTyped(env, e, fields)
    ensures P.Increasing(LessOf(l), P.Received(pages))
    ensures forall r :: r in P.Received(pages) <==> r in table && Meaning(env, e, fields, r) == True
    ensures l.Size(pageSize) >= 1 && P.PagesNeeded(|Matching(env, e, fields, table)|, l.Size(pageSize), |pages|)
  {
    StaticRun(l, visits, table, pageSize, pages);
    WantedAreMatching(l, env, e, fields, table);
  }

  /** While the table changes between requests, the rows received increase strictly, the filter was true of each
      when it was read, and once the run completes every row of every table that the filter is true of was
      received. */
  lemma FilteredInterleavedRun(l: Listing, env: Env, e: FilterExpr, fields: FieldBindings, visits: seq<Visit>,
                               pages: seq<Page<Row>>)
    requires Filtered(l, env, e, fields) && forall k :: 0 <= k < |visits| ==> TableFits(env, fields, visits[k].table)
    requires Pageable(l) && GoodVisits(l, visits) && Runs.Run(l, visits, pages)
    ensures WellTyped(env, e, fields)
    ensures P.Increasing(LessOf(l), P.Received(pages))
    ensures forall k, i :: 0 <= k < |pages| && 0 <= i < |pages[k].rows| ==>
      pages[k].rows[i] in Matching(env, e, fields, visits[k].table)
    ensures P.Complete(pages) ==> forall r ::
      (forall k :: 0 <= k < |visits| ==> r in Matching(env, e, fields, visits[k].table)) ==> r in P.Received(pages)
  {
    InterleavedRun(l, visits, pages);
    TranslateAccepts(env, e, fields);
    forall k | 0 <= k < |visits| ensures WantedRows(l, visits[k].table) == Matching(env, e, fields, visits[k].table) {
      WantedAreMatching(l, env, e, fields, visits[k].table);
    }
  }
}
