/** One paginated list request (pkg/aip/jet/plan.go, pkg/aip/jet/execute.go). */
module Execute {
  import opened Prelude
  import opened Order
  import opened Sql
  import opened Token
  import opened Schemas
  import opened Keyset

  datatype Params = Params(pageSize: int, pageToken: string, filter: string, orderBy: string)

  datatype Plan = Plan(pageSize: int, filter: string, orderBy: OrderBy, cursor: seq<GoValue>)

  datatype ListError = BadOrderBy | BadPageToken | FilterChanged | QueryFailed | TokenNotEncodable

  /** What the request runs against, apart from the database contents. */
  datatype Context = Context(
    letter: char -> bool,
    wire: Wire,
    schema: Schema,
    base: Option<Expr>)

  datatype Query = Query(where: Option<Expr>, order: seq<Clause>, limit: int)

  datatype Answer = Rows(rows: seq<Row>) | NoRows | Failed

  const MAX_INT32 := 0x7FFF_FFFF

  /** int32 addition wraps around. */
  function AddInt32(a: int, b: int): int {
    if a + b > MAX_INT32 then a + b - 0x1_0000_0000
    else if a + b < -0x8000_0000 then a + b + 0x1_0000_0000
    else a + b
  }

  /** A requested size within bounds is granted as asked, a larger one is cut to the maximum, and a missing one is
      the default, cut to the maximum. */
  function ClampPageSize(schema: Schema, requested: int): (size: int)
    ensures size <= schema.maxPageSize
    ensures 1 <= requested <= schema.maxPageSize ==> size == requested
    ensures schema.defaultPageSize >= 1 && schema.maxPageSize >= 1 ==> size >= 1
    ensures requested > schema.maxPageSize && requested > 0 ==> size == schema.maxPageSize
    ensures requested <= 0 && schema.defaultPageSize <= schema.maxPageSize ==> size == schema.defaultPageSize
    ensures requested <= 0 && schema.defaultPageSize > schema.maxPageSize ==> size == schema.maxPageSize
  {
    Min(if requested <= 0 then schema.defaultPageSize else requested, schema.maxPageSize)
  }

  ghost function PlanOf(ctx: Context, params: Params, now: int): Result<Plan, ListError>
    requires Valid(ctx.schema)
  {
    var order := EffectiveOrder(ctx.letter, ctx.schema, params.orderBy);
    if order.Failure? then Failure(BadOrderBy)
    else
      EffectiveOrderMeaning(ctx.letter, ctx.schema, params.orderBy);
      var token := DecodeToken(ctx.wire, params.pageToken);
      if token.Failure? then Failure(BadPageToken)
      else
        var refusal := ValidateToken(ctx.wire, token.value, ctx.schema.resourceType, params.filter, now);
        if refusal.Some? then Failure(if refusal.value == FilterMismatch then FilterChanged else BadPageToken)
        else
          var cursor := DecodeCursor(ctx.schema, token.value, order.value);
          if cursor.Failure? then Failure(BadPageToken)
          else Success(Plan(ClampPageSize(ctx.schema, params.pageSize), params.filter, order.value, cursor.value))
  }

  method BuildPlan(ctx: Context, params: Params, now: int) returns (r: Result<Plan, ListError>)
    requires Valid(ctx.schema)
    ensures r == PlanOf(ctx, params, now)
  {
    var pageSize := params.pageSize;
    if pageSize <= 0 {
      pageSize := ctx.schema.defaultPageSize;
    }
    if pageSize > ctx.schema.maxPageSize {
      pageSize := ctx.schema.maxPageSize;
    }
    var order := EffectiveOrderBy(ctx.letter, ctx.schema, params.orderBy);
    if order.Failure? {
      return Failure(BadOrderBy);
    }
    EffectiveOrderMeaning(ctx.letter, ctx.schema, params.orderBy);
    var token := DecodeToken(ctx.wire, params.pageToken);
    if token.Failure? {
      return Failure(BadPageToken);
    }
    var refusal := ValidateToken(ctx.wire, token.value, ctx.schema.resourceType, params.filter, now);
    if refusal.Some? {
      return Failure(if refusal.value == FilterMismatch then FilterChanged else BadPageToken);
    }
    var cursor := DecodeCursorValues(ctx.schema, token.value, order.value);
    if cursor.Failure? {
      return Failure(BadPageToken);
    }
    return Success(Plan(pageSize, params.filter, order.value, cursor.value));
  }

  /** The token is at most a day old and was minted for the resource and for a filter of the same hash. */
  predicate TokenCurrent(ctx: Context, t: PageToken, filter: string, now: int) {
    && now - t.createTime <= 86_400_000_000_000
    && t.resourceType == ctx.schema.resourceType
    && t.filterHash == (if |filter| > 0 then ctx.wire.digest(filter) else "")
  }

  /** The token's order is the given one, field by field, and each of its values can be read; a token without order
      has no cursor. */
  ghost predicate CursorReadable(ctx: Context, t: PageToken, order: OrderBy)
    requires Valid(ctx.schema) && AllOrderable(ctx.schema, order)
  {
    t.orderFields == []
    || (&& |t.orderFields| == |t.cursorValues| == |order|
        && forall i :: 0 <= i < |order| ==>
          && t.orderFields[i].field == order[i].path
          && t.orderFields[i].desc == (order[i].direction == Desc)
          && Decode(ctx.schema.fields[order[i].path].codec.value, t.cursorValues[i]).Success?)
  }

  lemma CursorReadableIff(ctx: Context, t: PageToken, order: OrderBy)
    requires Valid(ctx.schema) && AllOrderable(ctx.schema, order)
    ensures DecodeCursor(ctx.schema, Some(t), order).Success? <==> CursorReadable(ctx, t, order)
  {
    if |t.orderFields| == |order| == |t.cursorValues| {
      assert forall i :: 0 <= i < |order| ==>
        DecodeAt(ctx.schema, order, t.cursorValues, i) ==
          Decode(ctx.schema.fields[order[i].path].codec.value, t.cursorValues[i]);
      if CursorReadable(ctx, t, order) && t.orderFields != [] {
        assert t.orderFields == TokenOrders(order);
      }
      if t.orderFields == TokenOrders(order) {
        assert forall i :: 0 <= i < |order| ==> t.orderFields[i] == TokenOrders(order)[i];
      }
    }
  }

  /** A request is planned exactly when its order is accepted and its token, if it has one, opens to a current
      token whose cursor can be read in that order. Every other request is refused: for its order, if that is not
      accepted; for its filter, if a fresh token of the resource has another filter hash; else for its token. */
  lemma PlannedIff(ctx: Context, params: Params, now: int)
    requires Valid(ctx.schema)
    ensures EffectiveOrder(ctx.letter, ctx.schema, params.orderBy).Failure? <==>
      PlanOf(ctx, params, now) == Failure(BadOrderBy)
    ensures PlanOf(ctx, params, now).Failure? ==>
      PlanOf(ctx, params, now).error in {BadOrderBy, FilterChanged, BadPageToken}
    ensures EffectiveOrder(ctx.letter, ctx.schema, params.orderBy).Success? ==>
      var order := EffectiveOrder(ctx.letter, ctx.schema, params.orderBy).value;
      var token := ctx.wire.open(params.pageToken);
      && AllOrderable(ctx.schema, order)
      && (PlanOf(ctx, params, now).Success? <==>
           params.pageToken == ""
           || (token.Some? && TokenCurrent(ctx, token.value, params.filter, now)
               && CursorReadable(ctx, token.value, order)))
      && (PlanOf(ctx, params, now) == Failure(FilterChanged) <==>
           params.pageToken != "" && token.Some?
           && !TokenCurrent(ctx, token.value, params.filter, now)
           && TokenCurrent(ctx, token.value.(filterHash := HashFilter(ctx.wire, params.filter)), params.filter, now))
      && (PlanOf(ctx, params, now).Success? ==>
           PlanOf(ctx, params, now).value.orderBy == order && PlanOf(ctx, params, now).value.filter == params.filter)
  {
    if EffectiveOrder(ctx.letter, ctx.schema, params.orderBy).Success? {
      EffectiveOrderMeaning(ctx.letter, ctx.schema, params.orderBy);
      var order := EffectiveOrder(ctx.letter, ctx.schema, params.orderBy).value;
      var token := ctx.wire.open(params.pageToken);
      if token.Some? {
        CursorReadableIff(ctx, token.value, order);
      }
    }
  }

  function QueryOf(ctx: Context, plan: Plan): Result<Query, ListError>
    requires AllOrderable(ctx.schema, plan.orderBy)
  {
    var condition := KeysetCondition(ctx.schema, plan.orderBy, plan.cursor);
    if condition.Failure? then Failure(BadPageToken)
    else
      var where := Combine([ctx.base, condition.value]);
      Success(Query(where, Clauses(ctx.schema, plan.orderBy), AddInt32(plan.pageSize, 1)))
  }

  /** The token of the page that follows a page ending in this row. */
  function NextToken(ctx: Context, order: OrderBy, filter: string, last: Row, now: int): Result<string, ListError>
    requires AllOrderable(ctx.schema, order)
  {
    var cursor := CursorOf(ctx.schema, last, order);
    if Encodable(Codecs(ctx.schema), cursor, order) then
      Success(ctx.wire.seal(
        MintToken(ctx.wire, ctx.schema.resourceType, Codecs(ctx.schema), cursor, order, filter, now)))
    else Failure(TokenNotEncodable)
  }

  function PageOf(ctx: Context, plan: Plan, answer: Answer, now: int): Result<Page<Row>, ListError>
    requires AllOrderable(ctx.schema, plan.orderBy) && plan.pageSize >= 1
  {
    match answer
    case Failed => Failure(QueryFailed)
    case NoRows => Success(Page([], ""))
    case Rows(rows) =>
      if |rows| <= plan.pageSize then Success(Page(rows, ""))
      else
        var token := NextToken(ctx, plan.orderBy, plan.filter, rows[plan.pageSize - 1], now);
        if token.Failure? then Failure(token.error)
        else Success(Page(rows[..plan.pageSize], token.value))
  }

  ghost function Listed(ctx: Context, params: Params, backend: Query -> Answer, now: int): Result<Page<Row>, ListError>
    requires Valid(ctx.schema)
  {
    var plan := PlanOf(ctx, params, now);
    if plan.Failure? then Failure(plan.error)
    else
      EffectiveOrderMeaning(ctx.letter, ctx.schema, params.orderBy);
      var query := QueryOf(ctx, plan.value);
      if query.Failure? then Failure(query.error)
      else PageOf(ctx, plan.value, backend(query.value), now)
  }

  method BuildNextPageToken(ctx: Context, plan: Plan, rows: seq<Row>, now: int) returns (r: Result<string, ListError>)
    requires AllOrderable(ctx.schema, plan.orderBy) && plan.pageSize >= 1
    ensures r ==
      if |rows| <= plan.pageSize then Success("")
      else NextToken(ctx, plan.orderBy, plan.filter, rows[plan.pageSize - 1], now)
  {
    if |rows| <= plan.pageSize {
      return Success("");
    }
    var cursor := ExtractCursorValues(ctx.schema, rows[plan.pageSize - 1], plan.orderBy);
    var codecs := Codecs(ctx.schema);
    var token := EncodeToken(ctx.wire, ctx.schema.resourceType, cursor, plan.orderBy, plan.filter, codecs, now);
    return if token.Success? then Success(token.value) else Failure(TokenNotEncodable);
  }

  method BuildStatement(ctx: Context, plan: Plan) returns (r: Result<Query, ListError>)
    requires AllOrderable(ctx.schema, plan.orderBy)
    ensures r == QueryOf(ctx, plan)
  {
    var condition := BuildKeysetCondition(ctx.schema, plan.orderBy, plan.cursor);
    if condition.Failure? {
      return Failure(BadPageToken);
    }
    var clauses := OrderByClauses(ctx.schema, plan.orderBy);
    var statement := Query(None, clauses, AddInt32(plan.pageSize, 1));
    var where := CombineConditions([ctx.base, condition.value]);
    if where.Some? {
      statement := statement.(where := where);
    }
    return Success(statement);
  }

  /** Run the statement, mint the next token, trim the extra row. */
  method RunStatement(ctx: Context, plan: Plan, answer: Answer, now: int) returns (r: Result<Page<Row>, ListError>)
    requires AllOrderable(ctx.schema, plan.orderBy) && plan.pageSize >= 1
    ensures r == PageOf(ctx, plan, answer, now)
  {
    var rows: seq<Row>;
    match answer {
      case Failed => return Failure(QueryFailed);
      case NoRows => return Success(Page([], ""));
      case Rows(answered) => rows := answered;
    }
    var token := BuildNextPageToken(ctx, plan, rows, now);
    if token.Failure? {
      return Failure(token.error);
    }
    if |rows| > plan.pageSize {
      rows := rows[..plan.pageSize];
    }
    return Success(Page(rows, token.value));
  }

  /** One page is read from the backend with a single query. */
  method ExecuteWithCondition(ctx: Context, params: Params, backend: Query -> Answer, now: int)
    returns (r: Result<Page<Row>, ListError>)
    requires Valid(ctx.schema)
    ensures r == Listed(ctx, params, backend, now)
  {
    var plan := BuildPlan(ctx, params, now);
    if plan.Failure? {
      return Failure(plan.error);
    }
    EffectiveOrderMeaning(ctx.letter, ctx.schema, params.orderBy);
    var statement := BuildStatement(ctx, plan.value);
    if statement.Failure? {
      return Failure(statement.error);
    }
    r := RunStatement(ctx, plan.value, backend(statement.value), now);
  }
}
