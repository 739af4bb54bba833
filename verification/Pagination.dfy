/** Whole runs of paginated list requests: what a client that follows next-page tokens receives, over
    an unchanged table and while other sessions insert and delete rows between the requests. */
module Pagination {
  import opened Prelude
  import opened Order
  import opened Sql
  import opened Token
  import opened Strconv
  import opened Schemas
  import opened Keyset
  import opened Execute
  import PagedReads

  /** One listing: the order_by and filter strings stay the same for all of its requests. */
  datatype Listing = Listing(ctx: Context, db: Database, orderBy: string, filter: string)
  {
    ghost predicate Ordered() {
      Valid(ctx.schema) && EffectiveOrder(ctx.letter, ctx.schema, orderBy).Success?
    }

    ghost function Order(): (order: OrderBy)
      requires Ordered()
      ensures AllOrderable(ctx.schema, order)
    {
      EffectiveOrderMeaning(ctx.letter, ctx.schema, orderBy);
      EffectiveOrder(ctx.letter, ctx.schema, orderBy).value
    }

    ghost function Clauses(): (clauses: seq<Clause>)
      requires Ordered()
      ensures |clauses| == |Order()|
    {
      Keyset.Clauses(ctx.schema, Order())
    }

    ghost function KeyOf(row: Row): (key: seq<Value>)
      requires Ordered()
      ensures |key| == |Clauses()|
    {
      Key(Clauses(), row)
    }

    ghost predicate Before(a: Row, b: Row)
      requires Ordered()
    {
      KeyLess(db, Clauses(), KeyOf(a), KeyOf(b))
    }

    ghost predicate Wanted(row: Row) { Passes(db, ctx.base, row) }

    /** The wanted rows after a position; None is the start of the listing. */
    ghost function Remaining(table: set<Row>, pos: Option<Row>): set<Row>
      requires Ordered()
    {
      set r | r in table && Wanted(r) && (pos.Some? ==> Before(pos.value, r))
    }

    /** Each ordering field's codec is the one for its column's type. */
    ghost predicate CodecsFit()
      requires Ordered()
    {
      forall i :: 0 <= i < |Order()| ==> FitsKind(ctx.schema.fields[Order()[i].path])
    }

    /** The ordering columns hold non-NULL values of their declared types. */
    ghost predicate Conforms(row: Row)
      requires Ordered()
    {
      forall i :: 0 <= i < |Order()| ==>
        HasKind(ctx.schema.fields[Order()[i].path].kind, Get(row, ctx.schema.fields[Order()[i].path].column))
    }

    /** Among the wanted rows, the ordering columns are conforming and identify the row. */
    ghost predicate GoodTable(table: set<Row>)
      requires Ordered()
    {
      && (forall r :: r in table && Wanted(r) ==> Conforms(r))
      && (forall r, s :: r in table && s in table && Wanted(r) && Wanted(s) && KeyOf(r) == KeyOf(s) ==> r == s)
    }

    /** A cursor can be turned back into a condition: no boolean column in a mixed-direction order. */
    ghost predicate Resumable()
      requires Ordered()
    {
      || Uniform(Order())
      || forall i :: 0 <= i < |Order()| ==> ctx.schema.fields[Order()[i].path].kind != BooleanColumn
    }

    ghost predicate Ready() {
      && Ordered()
      && TotalOrder(db.collate)
      && WireOk(ctx.wire)
      && CodecsFit()
    }

    function Request(token: string, pageSize: int): Params { Params(pageSize, token, filter, orderBy) }

    function Size(pageSize: int): int { ClampPageSize(ctx.schema, pageSize) }
  }

  ghost predicate FitsKind(field: Field) {
    && field.codec.Some?
    && CodecOk(field.codec.value)
    && match field.kind
       case TextColumn => field.codec.value.StringCodec?
       case BooleanColumn => field.codec.value.BoolCodec?
       case IntegerColumn => field.codec.value.Int64Codec?
       case BigintColumn => field.codec.value.Int64Codec?
       case RealColumn => field.codec.value.Float64Codec?
       case DoubleColumn => field.codec.value.Float64Codec?
       case TimestampColumn => field.codec.value.TimestampCodec?
  }

  ghost predicate HasKind(kind: ColumnKind, v: Value) {
    match kind
    case TextColumn => v.Text?
    case BooleanColumn => v.Bool?
    case IntegerColumn => v.Int? && InSigned(v.number, 32)
    case BigintColumn => v.Int? && InSigned(v.number, 64)
    case RealColumn => v.Float? && IsDouble(v.measure)
    case DoubleColumn => v.Float? && IsDouble(v.measure)
    case TimestampColumn => v.Instant? && InCalendar(v.nanos)
  }

  // -- The database -----------------------------------------------------------------------------

  ghost function Selected(db: Database, table: set<Row>, where: Option<Expr>): set<Row> {
    set r | r in table && Passes(db, where, r)
  }

  /** The rows are a possible answer: the first limit rows of the selection in some sorted sequence. */
  ghost predicate Answers(db: Database, table: set<Row>, q: Query, rows: seq<Row>) {
    var selected := Selected(db, table, q.where);
    && |rows| == Min(q.limit, |selected|)
    && (forall i :: 0 <= i < |rows| ==> rows[i] in selected)
    && (forall i, j :: 0 <= i < j < |rows| ==>
         rows[i] != rows[j] && !KeyLess(db, q.order, Key(q.order, rows[j]), Key(q.order, rows[i])))
    && (forall s, i :: s in selected && s !in rows && 0 <= i < |rows| ==>
         !KeyLess(db, q.order, Key(q.order, s), Key(q.order, rows[i])))
  }

  /** The backend runs every query on this table. What it makes of a negative LIMIT is left open. */
  ghost predicate Serves(db: Database, backend: Query -> Answer, table: set<Row>) {
    forall q: Query :: q.limit >= 0 ==>
      match backend(q)
      case Failed => false
      case NoRows => Selected(db, table, q.where) == {}
      case Rows(rows) => Answers(db, table, q, rows)
  }

  // -- Key order --------------------------------------------------------------------------------

  lemma {:induction false} KeyLessTransitive(db: Database, clauses: seq<Clause>, a: seq<Value>, b: seq<Value>,
                                              c: seq<Value>)
    requires |a| == |b| == |c| == |clauses| && TotalOrder(db.collate)
    requires KeyLess(db, clauses, a, b) && KeyLess(db, clauses, b, c)
    ensures KeyLess(db, clauses, a, c)
  {
    if a[0] == b[0] == c[0] {
      KeyLessTransitive(db, clauses[1..], a[1..], b[1..], c[1..]);
    }
  }

  lemma {:induction false} KeyLessTotal(db: Database, clauses: seq<Clause>, kinds: seq<ColumnKind>, a: seq<Value>,
                                         b: seq<Value>)
    requires |a| == |b| == |clauses| == |kinds| && TotalOrder(db.collate)
    requires forall i :: 0 <= i < |a| ==> HasKind(kinds[i], a[i]) && HasKind(kinds[i], b[i])
    ensures a == b || KeyLess(db, clauses, a, b) || KeyLess(db, clauses, b, a)
  {
    if clauses != [] && a[0] == b[0] {
      KeyLessTotal(db, clauses[1..], kinds[1..], a[1..], b[1..]);
      assert a == [a[0]] + a[1..] && b == [b[0]] + b[1..];
    }
  }

  /** Conforming rows are linearly ordered by their keys. */
  lemma BeforeTotal(l: Listing, a: Row, b: Row)
    requires l.Ready() && l.Conforms(a) && l.Conforms(b)
    ensures l.KeyOf(a) == l.KeyOf(b) || l.Before(a, b) || l.Before(b, a)
  {
    var order := l.Order();
    var kinds := seq(|order|, i requires 0 <= i < |order| => l.ctx.schema.fields[order[i].path].kind);
    KeyLessTotal(l.db, l.Clauses(), kinds, l.KeyOf(a), l.KeyOf(b));
  }

  lemma BeforeTransitive(l: Listing, a: Row, b: Row, c: Row)
    requires l.Ready() && l.Before(a, b) && l.Before(b, c)
    ensures l.Before(a, c)
  {
    KeyLessTransitive(l.db, l.Clauses(), l.KeyOf(a), l.KeyOf(b), l.KeyOf(c));
  }

  ghost function LessOf(l: Listing): (Row, Row) -> bool { (a, b) => l.Ordered() && l.Before(a, b) }

  lemma {:induction false} Irreflexive(db: Database, clauses: seq<Clause>, key: seq<Value>)
    requires |key| == |clauses|
    ensures !KeyLess(db, clauses, key, key)
  {
    if clauses != [] {
      Irreflexive(db, clauses[1..], key[1..]);
    }
  }

  lemma LessIsStrict(l: Listing)
    requires l.Ready()
    ensures PagedReads.StrictOrder(LessOf(l))
  {
    var less := LessOf(l);
    forall a ensures !less(a, a) {
      Irreflexive(l.db, l.Clauses(), l.KeyOf(a));
    }
    forall a, b, c | less(a, b) && less(b, c) ensures less(a, c) {
      BeforeTransitive(l, a, b, c);
    }
  }

  // -- One request ------------------------------------------------------------------------------

  /** One entry of a conforming row's cursor: encodable, in range, and the row's own value once decoded. */
  lemma CursorEntry(l: Listing, r: Row, i: nat)
    requires l.Ready() && l.Conforms(r) && i < |l.Order()|
    ensures
      var path := l.Order()[i].path;
      var v := GetValue(l.ctx.schema.fields[path], r);
      && path in Codecs(l.ctx.schema) && Encode(Codecs(l.ctx.schema)[path], v).Success?
      && InRange(v) && SqlOf(Widen(v)) == l.KeyOf(r)[i] && !l.KeyOf(r)[i].Null?
      && SameType(l.ctx.schema.fields[path].kind, Widen(v))
  {
    var field := l.ctx.schema.fields[l.Order()[i].path];
    assert FitsKind(field) && HasKind(field.kind, Get(r, field.column));
    assert l.KeyOf(r)[i] == Get(r, field.column);
  }

  /** The cursor of a conforming row can be encoded, and comes back as the row's own key. */
  lemma CursorIsKey(l: Listing, r: Row)
    requires l.Ready() && l.Conforms(r)
    ensures
      var cursor := CursorOf(l.ctx.schema, r, l.Order());
      && Encodable(Codecs(l.ctx.schema), cursor, l.Order())
      && (forall v :: v in cursor ==> InRange(v))
      && SqlAll(WidenAll(cursor)) == l.KeyOf(r)
      && NoNulls(l.KeyOf(r))
  {
    forall i | 0 <= i < |l.Order()|
      ensures
        var path := l.Order()[i].path;
        var v := CursorOf(l.ctx.schema, r, l.Order())[i];
        && path in Codecs(l.ctx.schema) && Encode(Codecs(l.ctx.schema)[path], v).Success?
        && InRange(v) && SqlOf(Widen(v)) == l.KeyOf(r)[i] && !l.KeyOf(r)[i].Null?
    {
      CursorEntry(l, r, i);
    }
  }

  /** Resuming from the cursor of a conforming row is possible exactly when the order has one direction
      or no boolean column. */
  lemma ResumableIff(l: Listing, r: Row)
    requires l.Ready() && l.Conforms(r)
    ensures KeysetCondition(l.ctx.schema, l.Order(), WidenAll(CursorOf(l.ctx.schema, r, l.Order()))).Success?
       <==> l.Resumable()
  {
    var order := l.Order();
    var cursor := WidenAll(CursorOf(l.ctx.schema, r, order));
    forall i | 0 <= i < |order| ensures SameType(l.ctx.schema.fields[order[i].path].kind, cursor[i]) {
      CursorEntry(l, r, i);
    }
    KeysetConditionIff(l.ctx.schema, order, cursor);
  }

  ghost function TokenAfter(l: Listing, r: Row, now: int): string
    requires l.Ready() && l.Conforms(r)
  {
    CursorIsKey(l, r);
    NextToken(l.ctx, l.Order(), l.filter, r, now).value
  }

  /** The token stands for the position: none at the start, else minted for that row and not expired. */
  ghost predicate Presents(l: Listing, pos: Option<Row>, token: string, minted: int, now: int)
    requires l.Ready()
  {
    match pos
    case None => token == ""
    case Some(r) => l.Conforms(r) && token == TokenAfter(l, r, minted) && now - minted <= TOKEN_MAX_AGE
  }

  ghost function PlanFor(l: Listing, pos: Option<Row>, size: int): Plan
    requires l.Ready()
  {
    Plan(size, l.filter, l.Order(),
         if pos.None? then [] else WidenAll(CursorOf(l.ctx.schema, pos.value, l.Order())))
  }

  lemma PlanAt(l: Listing, pos: Option<Row>, token: string, minted: int, pageSize: int, now: int)
    requires l.Ready() && l.Order() != [] && Presents(l, pos, token, minted, now)
    ensures PlanOf(l.ctx, l.Request(token, pageSize), now) == Success(PlanFor(l, pos, l.Size(pageSize)))
  {
    if pos.Some? {
      var cursor := CursorOf(l.ctx.schema, pos.value, l.Order());
      CursorIsKey(l, pos.value);
      CursorRoundTrip(l.ctx.wire, l.ctx.schema, cursor, l.Order(), l.filter, minted, l.Order());
      MintedTokenAccepted(l.ctx.wire, l.ctx.schema.resourceType, Codecs(l.ctx.schema), cursor, l.Order(), l.filter,
                          minted, now, l.ctx.schema.resourceType, l.filter);
    }
  }

  /** A token minted by one listing and presented to another over the same schema is accepted exactly when it has
      not expired and the other listing has the same effective order and a filter of the same hash. */
  lemma ForeignToken(l: Listing, m: Listing, r: Row, minted: int, pageSize: int, now: int)
    requires l.Ready() && l.Order() != [] && l.Conforms(r) && m.ctx == l.ctx
    ensures PlanOf(m.ctx, m.Request(TokenAfter(l, r, minted), pageSize), now).Success? <==>
      && now - minted <= TOKEN_MAX_AGE
      && m.Ordered() && m.Order() == l.Order()
      && HashFilter(l.ctx.wire, m.filter) == HashFilter(l.ctx.wire, l.filter)
  {
    var schema := l.ctx.schema;
    var cursor := CursorOf(schema, r, l.Order());
    CursorIsKey(l, r);
    MintedTokenAccepted(l.ctx.wire, schema.resourceType, Codecs(schema), cursor, l.Order(), l.filter, minted, now,
                        schema.resourceType, m.filter);
    if m.Ordered() {
      CursorRoundTrip(l.ctx.wire, schema, cursor, l.Order(), l.filter, minted, m.Order());
    }
  }

  /** The keyset condition for a position. */
  ghost function ConditionAt(l: Listing, pos: Option<Row>): Result<Option<Expr>, KeysetError>
    requires l.Ready()
  {
    KeysetCondition(l.ctx.schema, l.Order(),
                    if pos.None? then [] else WidenAll(CursorOf(l.ctx.schema, pos.value, l.Order())))
  }

  lemma ConditionMeaning(l: Listing, pos: Option<Row>, r: Row)
    requires l.Ready() && l.Order() != [] && ConditionAt(l, pos).Success?
    requires l.Conforms(r) && (pos.Some? ==> l.Conforms(pos.value))
    ensures Passes(l.db, ConditionAt(l, pos).value, r) <==> (pos.Some? ==> l.Before(pos.value, r))
  {
    if pos.Some? {
      var cursor := WidenAll(CursorOf(l.ctx.schema, pos.value, l.Order()));
      CursorIsKey(l, pos.value);
      CursorIsKey(l, r);
      KeysetMeaning(l.db, l.ctx.schema, l.Order(), cursor, r);
    }
  }

  lemma SelectedIsRemaining(l: Listing, table: set<Row>, pos: Option<Row>)
    requires l.Ready() && l.Order() != [] && l.GoodTable(table)
    requires pos.Some? ==> l.Conforms(pos.value)
    requires ConditionAt(l, pos).Success?
    ensures Selected(l.db, table, Combine([l.ctx.base, ConditionAt(l, pos).value])) == l.Remaining(table, pos)
  {
    var condition := ConditionAt(l, pos).value;
    forall r | r in table
      ensures Passes(l.db, Combine([l.ctx.base, condition]), r)
        <==> l.Wanted(r) && (pos.Some? ==> l.Before(pos.value, r))
    {
      CombineMeaning(l.db, l.ctx.base, condition, r);
      if l.Wanted(r) {
        ConditionMeaning(l, pos, r);
      }
    }
  }

  /** The token of a row, as a function; rows that do not conform have none worth the name. */
  ghost function TokenOf(l: Listing, now: int): Row -> string {
    r => if l.Ready() && l.Conforms(r) then TokenAfter(l, r, now) else "-"
  }

  /** What a page holds, given the rows remaining at its position. */
  ghost predicate PageFacts(l: Listing, remaining: set<Row>, size: int, page: Page<Row>, now: int) {
    PagedReads.NextPage(LessOf(l), remaining, size, TokenOf(l, now), page)
  }

  /** An answer over identified rows is the beginning of the selected rows in order. */
  lemma AnswerSorted(l: Listing, table: set<Row>, q: Query, rows: seq<Row>)
    requires l.Ready() && l.GoodTable(table) && q.order == l.Clauses() && Answers(l.db, table, q, rows)
    requires forall r :: r in Selected(l.db, table, q.where) ==> l.Wanted(r)
    ensures PagedReads.SortedPrefix(LessOf(l), Selected(l.db, table, q.where), rows)
  {
    forall i, j | 0 <= i < j < |rows| ensures l.Before(rows[i], rows[j]) {
      BeforeTotal(l, rows[i], rows[j]);
    }
    forall s, i | s in Selected(l.db, table, q.where) && s !in rows && 0 <= i < |rows| ensures l.Before(rows[i], s) {
      assert rows[i] in Selected(l.db, table, q.where);
      BeforeTotal(l, rows[i], s);
    }
  }

  lemma TokenNotEmpty(l: Listing, r: Row, now: int)
    requires l.Ready() && l.Conforms(r)
    ensures NextToken(l.ctx, l.Order(), l.filter, r, now) == Success(TokenAfter(l, r, now))
    ensures TokenAfter(l, r, now) != ""
  {
    CursorIsKey(l, r);
  }

  /** A page is its rows, trimmed, with the token of the last row kept. */
  lemma TokenShape(ctx: Context, plan: Plan, rows: seq<Row>, now: int, token: Row -> string)
    requires AllOrderable(ctx.schema, plan.orderBy) && plan.pageSize >= 1
    requires |rows| > plan.pageSize ==>
      NextToken(ctx, plan.orderBy, plan.filter, rows[plan.pageSize - 1], now) == Success(token(rows[plan.pageSize - 1]))
    ensures PageOf(ctx, plan, Rows(rows), now) == Success(PagedReads.PageOfRows(rows, plan.pageSize, token))
  {
  }

  lemma LastToken(l: Listing, r: Row, now: int)
    requires l.Ready() && l.Conforms(r)
    ensures NextToken(l.ctx, l.Order(), l.filter, r, now) == Success(TokenOf(l, now)(r))
  {
    TokenNotEmpty(l, r, now);
  }

  lemma PageShape(l: Listing, plan: Plan, rows: seq<Row>, now: int)
    requires l.Ready() && plan.pageSize >= 1 && plan.orderBy == l.Order() && plan.filter == l.filter
    requires |rows| > plan.pageSize ==> l.Conforms(rows[plan.pageSize - 1])
    ensures PageOf(l.ctx, plan, Rows(rows), now) == Success(PagedReads.PageOfRows(rows, plan.pageSize, TokenOf(l, now)))
  {
    if |rows| > plan.pageSize {
      LastToken(l, rows[plan.pageSize - 1], now);
    }
    TokenShape(l.ctx, plan, rows, now, TokenOf(l, now));
  }

  lemma TokensNotEmpty(l: Listing, rows: set<Row>, now: int)
    requires l.Ready() && forall r :: r in rows ==> l.Conforms(r)
    ensures forall r :: r in rows ==> TokenOf(l, now)(r) != ""
  {
    forall r | r in rows ensures TokenOf(l, now)(r) != "" {
      TokenNotEmpty(l, r, now);
    }
  }

  /** The first size + 1 remaining rows, or more of them, make a page with the facts above. */
  lemma PrefixFacts(l: Listing, remaining: set<Row>, plan: Plan, rows: seq<Row>, now: int)
    requires l.Ready() && plan.pageSize >= 1 && plan.orderBy == l.Order() && plan.filter == l.filter
    requires PagedReads.SortedPrefix(LessOf(l), remaining, rows) && |rows| >= Min(plan.pageSize + 1, |remaining|)
    requires forall r :: r in remaining ==> l.Conforms(r)
    ensures PageOf(l.ctx, plan, Rows(rows), now).Success?
    ensures PageFacts(l, remaining, plan.pageSize, PageOf(l.ctx, plan, Rows(rows), now).value, now)
  {
    LessIsStrict(l);
    TokensNotEmpty(l, remaining, now);
    PagedReads.PrefixPage(LessOf(l), remaining, plan.pageSize, rows, TokenOf(l, now));
    PageShape(l, plan, rows, now);
  }

  lemma ConditionAvailable(l: Listing, pos: Option<Row>)
    requires l.Ready() && l.Resumable() && (pos.Some? ==> l.Conforms(pos.value))
    ensures ConditionAt(l, pos).Success?
  {
    if pos.Some? {
      ResumableIff(l, pos.value);
    }
  }

  lemma QueryAt(l: Listing, pos: Option<Row>, size: int)
    requires l.Ready() && 1 <= size < MAX_INT32 && ConditionAt(l, pos).Success?
    ensures QueryOf(l.ctx, PlanFor(l, pos, size)) ==
      Success(Query(Combine([l.ctx.base, ConditionAt(l, pos).value]), l.Clauses(), size + 1))
  {
  }

  /** One request returns the next rows in order after its position, and a token exactly when more remain. */
  lemma PageFrom(l: Listing, table: set<Row>, backend: Query -> Answer, pos: Option<Row>, token: string, minted: int,
                 pageSize: int, now: int)
    requires l.Ready() && l.Order() != [] && l.GoodTable(table) && Serves(l.db, backend, table)
    requires Presents(l, pos, token, minted, now) && ConditionAt(l, pos).Success? && l.Size(pageSize) < MAX_INT32
    ensures Listed(l.ctx, l.Request(token, pageSize), backend, now).Success?
    ensures PageFacts(l, l.Remaining(table, pos), l.Size(pageSize),
                      Listed(l.ctx, l.Request(token, pageSize), backend, now).value, now)
  {
    var size := l.Size(pageSize);
    var plan := PlanFor(l, pos, size);
    PlanAt(l, pos, token, minted, pageSize, now);
    QueryAt(l, pos, size);
    SelectedIsRemaining(l, table, pos);
    var q := Query(Combine([l.ctx.base, ConditionAt(l, pos).value]), l.Clauses(), size + 1);
    var answer := backend(q);
    assert Listed(l.ctx, l.Request(token, pageSize), backend, now) == PageOf(l.ctx, plan, answer, now);
    if answer.Rows? {
      AnswerSorted(l, table, q, answer.rows);
      PrefixFacts(l, l.Remaining(table, pos), plan, answer.rows, now);
    } else {
      assert answer == NoRows;
    }
  }
}
