/** Every table can be served, and listings of several pages exist: what is assumed of the database and of a
    listing can be met. */
module Backends {
  import opened Prelude
  import opened Order
  import opened Sql
  import opened Token
  import opened Schemas
  import opened Keyset
  import opened Execute
  import opened Pagination
  import opened Runs
  import opened Limits

  ghost predicate KeyBefore(db: Database, order: seq<Clause>, a: Row, b: Row) {
    KeyLess(db, order, Key(order, a), Key(order, b))
  }

  /** The rows, each once, none after a row that it sorts before. */
  ghost predicate Sorts(db: Database, order: seq<Clause>, rows: set<Row>, listed: seq<Row>) {
    && |listed| == |rows|
    && (forall r :: r in listed <==> r in rows)
    && forall i, j :: 0 <= i < j < |listed| ==> listed[i] != listed[j] && !KeyBefore(db, order, listed[j], listed[i])
  }

  /** No row of the set sorts before the given one. */
  ghost predicate First(db: Database, order: seq<Clause>, rows: set<Row>, first: Row) {
    first in rows && forall r :: r in rows ==> !KeyBefore(db, order, r, first)
  }

  /** Of a row and the first of the others, the one that is not after the other comes first of all. */
  lemma FirstOfTwo(db: Database, order: seq<Clause>, rows: set<Row>, a: Row, b: Row)
    requires TotalOrder(db.collate) && a in rows && First(db, order, rows - {a}, b)
    ensures First(db, order, rows, if KeyBefore(db, order, a, b) then a else b)
  {
    Irreflexive(db, order, Key(order, a));
    assert forall r :: r in rows ==> r == a || r in rows - {a};
    if KeyBefore(db, order, a, b) {
      forall r | r in rows ensures !KeyBefore(db, order, r, a) {
        if r != a && KeyBefore(db, order, r, a) {
          KeyLessTransitive(db, order, Key(order, r), Key(order, a), Key(order, b));
        }
      }
    }
  }

  lemma {:induction false} FirstRow(db: Database, order: seq<Clause>, rows: set<Row>) returns (first: Row)
    requires TotalOrder(db.collate) && rows != {}
    ensures First(db, order, rows, first)
    decreases |rows|
  {
    var a :| a in rows;
    if rows == {a} {
      first := a;
      Irreflexive(db, order, Key(order, a));
    } else {
      assert rows - {a} != {};
      var b := FirstRow(db, order, rows - {a});
      FirstOfTwo(db, order, rows, a, b);
      first := if KeyBefore(db, order, a, b) then a else b;
    }
  }

  lemma {:induction false} SortExists(db: Database, order: seq<Clause>, rows: set<Row>) returns (listed: seq<Row>)
    requires TotalOrder(db.collate)
    ensures Sorts(db, order, rows, listed)
    decreases |rows|
  {
    listed := [];
    if rows != {} {
      var first := FirstRow(db, order, rows);
      var rest := SortExists(db, order, rows - {first});
      listed := [first] + rest;
      forall j | 0 <= j < |rest| ensures rest[j] in rows - {first} {
        assert rest[j] in rest;
      }
    }
  }

  /** Whatever LIMIT asks for, the beginning of a sorted selection answers the query. */
  lemma AnswerExists(db: Database, table: set<Row>, q: Query)
    requires TotalOrder(db.collate) && q.limit >= 0
    ensures exists rows :: Answers(db, table, q, rows)
  {
    var selected := Selected(db, table, q.where);
    var listed := SortExists(db, q.order, selected);
    var rows := listed[..Min(q.limit, |selected|)];
    assert forall m :: 0 <= m < |rows| ==> listed[m] == rows[m];
    forall s, i | s in selected && s !in rows && 0 <= i < |rows| ensures !KeyBefore(db, q.order, s, rows[i]) {
      var j :| 0 <= j < |listed| && listed[j] == s;
    }
    forall i | 0 <= i < |rows| ensures rows[i] in selected {
      assert listed[i] in listed;
    }
    assert forall i, j :: 0 <= i < j < |rows| ==> !KeyBefore(db, q.order, listed[j], listed[i]);
    assert Answers(db, table, q, rows);
  }

  ghost function AnswerFor(db: Database, table: set<Row>, q: Query): (answer: Answer)
    requires TotalOrder(db.collate)
    ensures if q.limit < 0 then answer == Failed else answer.Rows? && Answers(db, table, q, answer.rows)
  {
    if q.limit < 0 then Failed
    else
      AnswerExists(db, table, q);
      var rows :| Answers(db, table, q, rows);
      Rows(rows)
  }

  /** For every table there is a backend that runs every query on it. */
  lemma BackendExists(db: Database, table: set<Row>) returns (backend: Query -> Answer)
    requires TotalOrder(db.collate)
    ensures Serves(db, backend, table)
  {
    backend := q => if TotalOrder(db.collate) then AnswerFor(db, table, q) else Failed;
  }

  // -- A listing of several pages ---------------------------------------------------------------

  lemma NoOrderAsked(letter: char -> bool)
    ensures Parsed(letter, "") == Success([])
  {
    assert Parses(letter, "", []);
    forall f | Parses(letter, "", f) ensures f == [] {
      ParsesUnique(letter, "", f, []);
    }
  }

  function IdRow(id: string): Row { map["id" := Text(id)] }

  function IdField(): Field { Field("id", TextColumn, Some(StringCodec), true, true, false) }

  /** A listing of rows with a text column, in no order but that of the tie-breakers. */
  function IdListing(letter: char -> bool, wire: Wire, db: Database, ties: OrderBy, maxPageSize: int): Listing {
    var schema := Schema("Resource", map["id" := IdField()], 1, maxPageSize, [], ties);
    Listing(Context(letter, wire, schema, None), db, "", "")
  }

  /** Pages of one row, ordered by the text column. */
  function ById(letter: char -> bool, wire: Wire, db: Database): Listing {
    IdListing(letter, wire, db, [OrderField("id", Asc)], 1)
  }

  lemma IdListingOrder(letter: char -> bool, wire: Wire, db: Database, ties: OrderBy, maxPageSize: int)
    requires WireOk(wire) && TotalOrder(db.collate) && maxPageSize >= 1
    requires ties == [] || ties == [OrderField("id", Asc)]
    ensures IdListing(letter, wire, db, ties, maxPageSize).Ready()
    ensures IdListing(letter, wire, db, ties, maxPageSize).Order() == ties
  {
    var l := IdListing(letter, wire, db, ties, maxPageSize);
    NoOrderAsked(letter);
    assert [OrderField("id", Asc)][1..] == [];
    assert l.Order() == ties;
  }

  ghost predicate IdRows(table: set<Row>) { forall r :: r in table ==> exists id :: r == IdRow(id) }

  lemma ByIdIsPageable(letter: char -> bool, wire: Wire, db: Database, maxPageSize: int, table: set<Row>)
    requires WireOk(wire) && TotalOrder(db.collate) && maxPageSize >= 1 && IdRows(table)
    ensures
      var l := IdListing(letter, wire, db, [OrderField("id", Asc)], maxPageSize);
      Pageable(l) && l.GoodTable(table) && WantedRows(l, table) == table
  {
    var l := IdListing(letter, wire, db, [OrderField("id", Asc)], maxPageSize);
    IdListingOrder(letter, wire, db, [OrderField("id", Asc)], maxPageSize);
    forall r | r in table ensures l.Conforms(r) && r == IdRow(l.KeyOf(r)[0].text) {
      var id :| r == IdRow(id);
      assert l.KeyOf(r)[0] == Get(r, "id") == Text(id);
    }
  }

  function TwoRows(): set<Row> { {IdRow("a"), IdRow("b")} }

  lemma TwoRowsAreTwo()
    ensures |TwoRows()| == 2 && IdRows(TwoRows())
  {
    assert IdRow("a")["id"] != IdRow("b")["id"];
  }

  /** Over every collation and every token encoding there is a run of more than one page that meets every
      assumption of the run theorems. */
  lemma RunOfTwoPages(letter: char -> bool, wire: Wire, db: Database)
    returns (l: Listing, visits: seq<Visit>, pages: seq<Page<Row>>)
    requires WireOk(wire) && TotalOrder(db.collate)
    ensures Pageable(l) && GoodVisits(l, visits) && Runs.Run(l, visits, pages) && P.Complete(pages) && |pages| == 2
  {
    l := ById(letter, wire, db);
    TwoRowsAreTwo();
    ByIdIsPageable(letter, wire, db, 1, TwoRows());
    var backend := BackendExists(db, TwoRows());
    visits, pages := StaticRunExists(l, Visit(TwoRows(), backend, 0, 0));
    StaticRun(l, visits, TwoRows(), 0, pages);
  }

  // -- A listing without order ------------------------------------------------------------------

  /** Without tie-breakers the listing of two rows can be followed for ever. */
  lemma EmptyOrderNeverStops(letter: char -> bool, wire: Wire, db: Database) returns (l: Listing, v: Visit)
    requires WireOk(wire) && TotalOrder(db.collate)
    ensures l.Ready() && l.Order() == [] && Serves(l.db, v.backend, v.table) && l.Size(v.pageSize) == 1
    ensures !Ends(l, v)
  {
    l := IdListing(letter, wire, db, [], 1);
    IdListingOrder(letter, wire, db, [], 1);
    TwoRowsAreTwo();
    var backend := BackendExists(db, TwoRows());
    v := Visit(TwoRows(), backend, 0, 0);
    assert WantedRows(l, TwoRows()) == TwoRows();
    EndsIff(l, v);
  }

  // -- The largest page -------------------------------------------------------------------------

  /** A schema may allow the largest int32 as a page size; a request for it asks for a negative number of rows. */
  lemma LargestPageWraps(letter: char -> bool, wire: Wire, db: Database) returns (l: Listing)
    requires WireOk(wire) && TotalOrder(db.collate)
    ensures Pageable(l) && l.Size(MAX_INT32) == MAX_INT32
    ensures PlanOf(l.ctx, l.Request("", MAX_INT32), 0) == Success(PlanFor(l, None, MAX_INT32))
    ensures WrappedQuery(l, None).limit == -0x8000_0000
  {
    l := IdListing(letter, wire, db, [OrderField("id", Asc)], MAX_INT32);
    ByIdIsPageable(letter, wire, db, MAX_INT32, {});
    PlanAt(l, None, "", 0, MAX_INT32, 0);
    LimitIff(l, None, MAX_INT32);
  }

  // -- A listing that stops ---------------------------------------------------------------------

  function TaskRow(done: bool, id: string): Row { map["done" := Bool(done), "id" := Text(id)] }

  function DoneField(): Field { Field("done", BooleanColumn, Some(BoolCodec), true, true, false) }

  function DoneOrder(): OrderBy { [OrderField("done", Desc), OrderField("id", Asc)] }

  /** Pages of one row, ordered by a boolean column downwards and a text column upwards. */
  function DoneFirst(letter: char -> bool, wire: Wire, db: Database): Listing {
    var fields := map["done" := DoneField(), "id" := IdField()];
    var schema := Schema("Task", fields, 1, 1, [OrderField("done", Desc)], [OrderField("id", Asc)]);
    Listing(Context(letter, wire, schema, None), db, "", "")
  }

  lemma DoneThenId()
    ensures AppendUnique([OrderField("done", Desc)], [OrderField("id", Asc)]) == DoneOrder()
  {
    assert "done"[0] != "id"[0] && !HasPath([OrderField("done", Desc)], "id");
    assert [OrderField("id", Asc)][1..] == [];
    assert [OrderField("done", Desc)] + [OrderField("id", Asc)] == DoneOrder();
  }

  lemma DoneFirstOrder(letter: char -> bool, wire: Wire, db: Database)
    requires WireOk(wire) && TotalOrder(db.collate)
    ensures DoneFirst(letter, wire, db).Ready()
    ensures DoneFirst(letter, wire, db).Order() == DoneOrder()
    ensures !DoneFirst(letter, wire, db).Resumable()
  {
    var l := DoneFirst(letter, wire, db);
    NoOrderAsked(letter);
    DoneThenId();
    var order := l.Order();
    assert order[0].direction != order[1].direction;
    assert l.ctx.schema.fields[order[0].path].kind == BooleanColumn;
  }

  function TwoTasks(): set<Row> { {TaskRow(true, "a"), TaskRow(false, "b")} }

  ghost predicate ListsTasks(l: Listing) {
    && l.Ready() && l.ctx.base == None && l.Order() == DoneOrder()
    && l.ctx.schema.fields == map["done" := DoneField(), "id" := IdField()]
  }

  lemma TaskConforms(l: Listing, done: bool, id: string)
    requires ListsTasks(l)
    ensures l.Conforms(TaskRow(done, id)) && l.KeyOf(TaskRow(done, id))[1] == Text(id)
  {
    var r := TaskRow(done, id);
    assert Get(r, "done") == Bool(done) && Get(r, "id") == Text(id);
    assert l.KeyOf(r)[1] == Get(r, "id");
  }

  lemma TwoTasksAreGood(l: Listing)
    requires ListsTasks(l)
    ensures l.GoodTable(TwoTasks()) && |TwoTasks()| == 2 && WantedRows(l, TwoTasks()) == TwoTasks()
  {
    TaskConforms(l, true, "a");
    TaskConforms(l, false, "b");
    var a, b := TaskRow(true, "a"), TaskRow(false, "b");
    assert a["id"] != b["id"] && l.KeyOf(a)[1] != l.KeyOf(b)[1];
    assert l.Wanted(a) && l.Wanted(b);
  }

  /** The listing of two tasks shows one, hands out a token, and refuses it. */
  lemma BooleanOrderStops(letter: char -> bool, wire: Wire, db: Database)
    returns (l: Listing, v: Visit, first: Page<Row>)
    requires WireOk(wire) && TotalOrder(db.collate)
    ensures l.Ready() && l.GoodTable(v.table) && Serves(l.db, v.backend, v.table)
    ensures Respond(l)(v, "") == Some(first) && first.next != "" && Respond(l)(v, first.next) == None
  {
    l := DoneFirst(letter, wire, db);
    DoneFirstOrder(letter, wire, db);
    TwoTasksAreGood(l);
    var backend := BackendExists(db, TwoTasks());
    v := Visit(TwoTasks(), backend, 0, 0);
    SecondPageFails(l, v, v);
    first := Respond(l)(v, "").value;
  }
}
