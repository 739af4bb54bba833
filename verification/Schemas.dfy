/** The ordering and pagination schema of a resource (pkg/aip/jet/schema.go). */
module Schemas {
  import opened Prelude
  import opened Order
  import opened Sql
  import opened Token

  datatype ColumnKind =
    | TextColumn
    | BooleanColumn
    | IntegerColumn
    | BigintColumn
    | RealColumn
    | DoubleColumn
    | TimestampColumn

  /** A field; hasColumn and hasGetter say whether its column reference and its getter are set. */
  datatype Field = Field(
    column: string,
    kind: ColumnKind,
    codec: Option<Codec>,
    hasColumn: bool,
    hasGetter: bool,
    disableOrdering: bool)

  datatype Schema = Schema(
    resourceType: string,
    fields: map<string, Field>,
    defaultPageSize: int,
    maxPageSize: int,
    defaultOrder: OrderBy,
    tieBreakers: OrderBy)

  predicate Orderable(schema: Schema, path: string) {
    path in schema.fields && !schema.fields[path].disableOrdering
  }

  predicate AllOrderable(schema: Schema, order: OrderBy) {
    forall i :: 0 <= i < |order| ==> Orderable(schema, order[i].path)
  }

  /** What NewSchema insists on. */
  predicate Valid(schema: Schema) {
    && schema.defaultPageSize >= 1
    && schema.maxPageSize >= 1
    && AllOrderable(schema, schema.defaultOrder)
    && AllOrderable(schema, schema.tieBreakers)
    && forall p :: p in schema.fields && !schema.fields[p].disableOrdering ==> Complete(schema.fields[p])
  }

  predicate Complete(field: Field) { field.codec.Some? && field.hasGetter && field.hasColumn }

  /** A field of the order is missing from the schema or cannot be ordered by. */
  ghost predicate NamesUnorderable(schema: Schema, order: OrderBy) {
    exists f :: f in order && (f.path !in schema.fields || schema.fields[f.path].disableOrdering)
  }

  /** A field that can be ordered by lacks its codec, its getter or its column. */
  ghost predicate HasIncomplete(schema: Schema) {
    exists p :: p in schema.fields && !schema.fields[p].disableOrdering
      && (schema.fields[p].codec == None || !schema.fields[p].hasGetter || !schema.fields[p].hasColumn)
  }

  /** A schema is refused exactly for a page size below one, an order it cannot follow, or an incomplete field. */
  lemma RefusedIff(schema: Schema)
    ensures !Valid(schema) <==>
      || schema.defaultPageSize < 1 || schema.maxPageSize < 1
      || NamesUnorderable(schema, schema.defaultOrder) || NamesUnorderable(schema, schema.tieBreakers)
      || HasIncomplete(schema)
  {
    OrderableIff(schema, schema.defaultOrder);
    OrderableIff(schema, schema.tieBreakers);
  }

  lemma OrderableIff(schema: Schema, order: OrderBy)
    ensures AllOrderable(schema, order) <==> !NamesUnorderable(schema, order)
  {
    if f :| f in order && (f.path !in schema.fields || schema.fields[f.path].disableOrdering) {
      var i :| 0 <= i < |order| && order[i] == f;
      assert !Orderable(schema, order[i].path);
    }
    if i :| 0 <= i < |order| && !Orderable(schema, order[i].path) {
      assert order[i] in order;
    }
  }

  method CheckOrderable(schema: Schema, order: OrderBy) returns (ok: bool)
    ensures ok <==> AllOrderable(schema, order)
  {
    for i := 0 to |order|
      invariant forall k :: 0 <= k < i ==> Orderable(schema, order[k].path)
    {
      if order[i].path !in schema.fields || schema.fields[order[i].path].disableOrdering {
        return false;
      }
    }
    return true;
  }

  method Validate(schema: Schema) returns (ok: bool)
    ensures ok <==> Valid(schema)
  {
    if schema.defaultPageSize < 1 || schema.maxPageSize < 1 {
      return false;
    }
    ok := CheckOrderable(schema, schema.defaultOrder);
    if !ok {
      return;
    }
    ok := CheckOrderable(schema, schema.tieBreakers);
    if !ok {
      return;
    }
    var todo := schema.fields.Keys;
    while todo != {}
      invariant todo <= schema.fields.Keys
      invariant forall p :: p in schema.fields && p !in todo ==>
        schema.fields[p].disableOrdering || Complete(schema.fields[p])
      decreases |todo|
    {
      var path :| path in todo;
      if !schema.fields[path].disableOrdering {
        if schema.fields[path].codec.None? || !schema.fields[path].hasGetter || !schema.fields[path].hasColumn {
          return false;
        }
      }
      todo := todo - {path};
    }
    return true;
  }

  function Codecs(schema: Schema): map<string, Codec> {
    map p | p in schema.fields && schema.fields[p].codec.Some? :: schema.fields[p].codec.value
  }

  /** The client's order, or the default one, followed by the tie-breakers it does not name. */
  ghost function EffectiveOrder(letter: char -> bool, schema: Schema, s: string): Result<OrderBy, ParseError> {
    var parsed := Parsed(letter, s);
    if parsed.Failure? || !AllOrderable(schema, parsed.value) then Failure(InvalidOrderBy)
    else Success(AppendUnique(if parsed.value == [] then schema.defaultOrder else parsed.value, schema.tieBreakers))
  }

  method EffectiveOrderBy(letter: char -> bool, schema: Schema, s: string) returns (r: Result<OrderBy, ParseError>)
    ensures r == EffectiveOrder(letter, schema, s)
  {
    var parsed := ParseOrderBy(letter, s);
    if parsed.Failure? {
      return Failure(InvalidOrderBy);
    }
    forall f | Parses(letter, s, f) ensures f == parsed.value {
      ParsesUnique(letter, s, f, parsed.value);
    }
    var client := parsed.value;
    var effective := if |client| == 0 then schema.defaultOrder else client;
    for i := 0 to |client|
      invariant forall k :: 0 <= k < i ==> Orderable(schema, client[k].path)
    {
      if !Orderable(schema, client[i].path) {
        return Failure(InvalidOrderBy);
      }
    }
    effective := AppendUniqueFields(effective, schema.tieBreakers);
    return Success(effective);
  }

  /** An order_by string is accepted exactly when it parses and names only fields that can be ordered by. */
  lemma EffectiveOrderAccepts(letter: char -> bool, schema: Schema, s: string)
    ensures EffectiveOrder(letter, schema, s).Success? <==>
      exists fields: OrderBy :: Parses(letter, s, fields)
        && forall f: OrderField :: f in fields ==> f.path in schema.fields && !schema.fields[f.path].disableOrdering
  {
    if fields :| Parses(letter, s, fields) {
      ParsesUnique(letter, s, fields, Parsed(letter, s).value);
      assert forall i :: 0 <= i < |fields| ==> fields[i] in fields;
    }
  }

  /** An accepted order is what the client asked for, or the whole default order, followed by the tie-breakers that
      are not named yet, in their own order. */
  lemma EffectiveOrderIs(letter: char -> bool, schema: Schema, s: string, fields: OrderBy) returns (chosen: seq<nat>)
    requires EffectiveOrder(letter, schema, s).Success? && Parses(letter, s, fields)
    ensures
      var start := if |fields| > 0 then fields else schema.defaultOrder;
      && Chosen(start, schema.tieBreakers, chosen)
      && EffectiveOrder(letter, schema, s).value == start + At(schema.tieBreakers, chosen)
  {
    ParsesUnique(letter, s, fields, Parsed(letter, s).value);
    chosen := AppendUniqueTail(if |fields| > 0 then fields else schema.defaultOrder, schema.tieBreakers);
  }

  /** An accepted order starts with what was asked for, or else with the default order, ends up naming every
      tie-breaker, and uses only orderable fields. */
  lemma EffectiveOrderMeaning(letter: char -> bool, schema: Schema, s: string)
    requires Valid(schema) && EffectiveOrder(letter, schema, s).Success?
    ensures
      var order := EffectiveOrder(letter, schema, s).value;
      && AllOrderable(schema, order)
      && Parsed(letter, s).Success? && Parsed(letter, s).value <= order
      && (Parsed(letter, s).value == [] ==> schema.defaultOrder <= order)
      && (forall t :: t in schema.tieBreakers ==> HasPath(order, t.path))
      && (DistinctPaths(schema.defaultOrder) || Parsed(letter, s).value != [] ==> DistinctPaths(order))
  {
    var parsed := Parsed(letter, s).value;
    var start := if parsed == [] then schema.defaultOrder else parsed;
    AppendUniqueKeeps(start, schema.tieBreakers);
    AppendUniqueNames(start, schema.tieBreakers);
    var order := AppendUnique(start, schema.tieBreakers);
    forall i | 0 <= i < |order| ensures Orderable(schema, order[i].path) {
      assert order[i] in order;
    }
  }

  /** What the field's getter returns for a scanned row. */
  function GetValue(field: Field, row: Row): GoValue {
    match (field.kind, Get(row, field.column))
    case (TextColumn, Text(s)) => GoString(s)
    case (BooleanColumn, Bool(b)) => GoBool(b)
    case (IntegerColumn, Int(i)) => GoInt32(i)
    case (BigintColumn, Int(i)) => GoInt64(i)
    case (RealColumn, Float(x)) => GoFloat32(x)
    case (DoubleColumn, Float(x)) => GoFloat64(x)
    case (TimestampColumn, Instant(nanos)) => GoTime(nanos)
    case _ => GoOther
  }

  function CursorOf(schema: Schema, row: Row, order: OrderBy): seq<GoValue>
    requires AllOrderable(schema, order)
  {
    seq(|order|, i requires 0 <= i < |order| => GetValue(schema.fields[order[i].path], row))
  }

  method ExtractCursorValues(schema: Schema, row: Row, order: OrderBy) returns (values: seq<GoValue>)
    requires AllOrderable(schema, order)
    ensures values == CursorOf(schema, row, order)
  {
    values := [];
    for i := 0 to |order|
      invariant values == CursorOf(schema, row, order)[..i]
    {
      values := values + [GetValue(schema.fields[order[i].path], row)];
    }
    assert CursorOf(schema, row, order)[..|order|] == CursorOf(schema, row, order);
  }

  function DecodeAt(schema: Schema, order: OrderBy, cursorValues: seq<string>, i: nat): Result<GoValue, TokenError>
    requires Valid(schema) && AllOrderable(schema, order)
    requires i < |order| == |cursorValues|
  {
    Decode(schema.fields[order[i].path].codec.value, cursorValues[i])
  }

  /** The cursor a token carries for this order; an empty cursor means the first page. */
  function DecodeCursor(schema: Schema, token: Option<PageToken>, order: OrderBy): Result<seq<GoValue>, TokenError>
    requires Valid(schema) && AllOrderable(schema, order)
  {
    if token.None? || |token.value.orderFields| == 0 then Success([])
    else
      var t := token.value;
      if |t.cursorValues| != |t.orderFields| then Failure(LengthMismatch)
      else if t.orderFields != TokenOrders(order) then Failure(OrderChanged)
      else if exists i :: 0 <= i < |order| && DecodeAt(schema, order, t.cursorValues, i).Failure? then Failure(BadValue)
      else Success(seq(|order|, i requires 0 <= i < |order| => DecodeAt(schema, order, t.cursorValues, i).value))
  }

  method DecodeCursorValues(schema: Schema, token: Option<PageToken>, order: OrderBy)
    returns (r: Result<seq<GoValue>, TokenError>)
    requires Valid(schema) && AllOrderable(schema, order)
    ensures r == DecodeCursor(schema, token, order)
  {
    if token.None? || |token.value.orderFields| == 0 {
      return Success([]);
    }
    var t := token.value;
    if |t.cursorValues| != |t.orderFields| {
      return Failure(LengthMismatch);
    }
    if |order| != |t.orderFields| {
      return Failure(OrderChanged);
    }
    for i := 0 to |t.orderFields|
      invariant forall k :: 0 <= k < i ==> t.orderFields[k] == TokenOrders(order)[k]
    {
      if t.orderFields[i].field != order[i].path || t.orderFields[i].desc != (order[i].direction == Desc) {
        assert t.orderFields[i] != TokenOrders(order)[i];
        return Failure(OrderChanged);
      }
    }
    assert t.orderFields == TokenOrders(order);
    var values: seq<GoValue> := [];
    for i := 0 to |t.cursorValues|
      invariant |values| == i
      invariant forall k :: 0 <= k < i ==> DecodeAt(schema, order, t.cursorValues, k) == Success(values[k])
    {
      var v := Decode(schema.fields[t.orderFields[i].field].codec.value, t.cursorValues[i]);
      assert t.orderFields[i] == TokenOrders(order)[i] && v == DecodeAt(schema, order, t.cursorValues, i);
      if v.Failure? {
        return Failure(BadValue);
      }
      values := values + [v.value];
    }
    assert values == DecodeCursor(schema, token, order).value;
    return Success(values);
  }

  /** A token minted under a non-empty order decodes to the same values, int32 and float32 widened, under that
      order, and is refused under every other order. One minted under the empty order is taken for a
      first-page request under every order. */
  lemma CursorRoundTrip(wire: Wire, schema: Schema, vals: seq<GoValue>, order: OrderBy, filter: string, now: int,
                        other: OrderBy)
    requires Valid(schema) && AllOrderable(schema, order) && AllOrderable(schema, other)
    requires Encodable(Codecs(schema), vals, order) && forall v :: v in vals ==> InRange(v)
    requires forall i :: 0 <= i < |order| ==> CodecOk(schema.fields[order[i].path].codec.value)
    ensures
      var t := MintToken(wire, schema.resourceType, Codecs(schema), vals, order, filter, now);
      DecodeCursor(schema, Some(t), other) ==
        if order == [] then Success([])
        else if other == order then Success(WidenAll(vals))
        else Failure(OrderChanged)
  {
    var t := MintToken(wire, schema.resourceType, Codecs(schema), vals, order, filter, now);
    TokenOrdersInjective(order, other);
    if other == order {
      forall i | 0 <= i < |order|
        ensures DecodeAt(schema, order, t.cursorValues, i) == Success(Widen(vals[i]))
      {
        assert vals[i] in vals;
        CodecRoundTrip(Codecs(schema)[order[i].path], vals[i]);
      }
      assert DecodeCursor(schema, Some(t), order).value == WidenAll(vals);
    }
  }
}
