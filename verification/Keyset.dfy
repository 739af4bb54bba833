/** The WHERE clause that skips rows already seen (pkg/aip/jet/execute.go): a row comparison for a
    uniform order, an OR of AND chains for a mixed one, both meaning "strictly after the cursor". */
module Keyset {
  import opened Prelude
  import opened Order
  import opened Sql
  import opened Token
  import opened Schemas

  datatype KeysetError = NoOrder | CursorMismatch | Unsupported

  datatype Clause = Clause(column: string, desc: bool)

  function SqlOf(v: GoValue): Value {
    match v
    case GoString(s) => Text(s)
    case GoBool(b) => Bool(b)
    case GoInt32(i) => Int(i)
    case GoInt64(i) => Int(i)
    case GoFloat32(x) => Float(x)
    case GoFloat64(x) => Float(x)
    case GoTime(nanos) => Instant(nanos)
    case GoOther => Null
  }

  function SqlAll(vs: seq<GoValue>): seq<Value> {
    seq(|vs|, i requires 0 <= i < |vs| => SqlOf(vs[i]))
  }

  // -- The order that ORDER BY defines ----------------------------------------------------------

  function Clauses(schema: Schema, order: OrderBy): seq<Clause>
    requires AllOrderable(schema, order)
  {
    seq(|order|, i requires 0 <= i < |order| =>
      Clause(schema.fields[order[i].path].column, order[i].direction == Desc))
  }

  method OrderByClauses(schema: Schema, order: OrderBy) returns (clauses: seq<Clause>)
    requires AllOrderable(schema, order)
    ensures clauses == Clauses(schema, order)
  {
    clauses := [];
    for i := 0 to |order|
      invariant clauses == Clauses(schema, order)[..i]
    {
      clauses := clauses + [Clause(schema.fields[order[i].path].column, order[i].direction == Desc)];
    }
    assert Clauses(schema, order)[..|order|] == Clauses(schema, order);
  }

  function Key(clauses: seq<Clause>, row: Row): seq<Value> {
    seq(|clauses|, i requires 0 <= i < |clauses| => Get(row, clauses[i].column))
  }

  predicate ColumnLess(db: Database, desc: bool, a: Value, b: Value) {
    if desc then Less(db, b, a) else Less(db, a, b)
  }

  /** Key a sorts strictly before key b. */
  predicate KeyLess(db: Database, clauses: seq<Clause>, a: seq<Value>, b: seq<Value>)
    requires |a| == |b| == |clauses|
  {
    clauses != []
    && (if a[0] == b[0] then KeyLess(db, clauses[1..], a[1..], b[1..])
        else ColumnLess(db, clauses[0].desc, a[0], b[0]))
  }

  predicate NoNulls(key: seq<Value>) { forall i :: 0 <= i < |key| ==> !key[i].Null? }

  /** The first difference between the keys is at position i, and there a sorts before b. */
  predicate LessAt(db: Database, clauses: seq<Clause>, a: seq<Value>, b: seq<Value>, i: nat)
    requires |a| == |b| == |clauses| && i < |clauses|
  {
    (forall j :: 0 <= j < i ==> a[j] == b[j]) && ColumnLess(db, clauses[i].desc, a[i], b[i])
  }

  lemma {:induction false} KeyLessIffLessAt(db: Database, clauses: seq<Clause>, a: seq<Value>, b: seq<Value>)
    requires |a| == |b| == |clauses|
    requires forall s :: !db.collate(s, s)
    ensures KeyLess(db, clauses, a, b) <==> exists i :: 0 <= i < |clauses| && LessAt(db, clauses, a, b, i)
  {
    if clauses != [] {
      var c', a', b' := clauses[1..], a[1..], b[1..];
      KeyLessIffLessAt(db, c', a', b');
      if a[0] == b[0] {
        forall i | 0 <= i < |c'| ensures LessAt(db, c', a', b', i) <==> LessAt(db, clauses, a, b, i + 1) {
          if LessAt(db, c', a', b', i) {
            forall j | 0 <= j < i + 1 ensures a[j] == b[j] {
              assert j > 0 ==> a'[j - 1] == b'[j - 1];
            }
          }
          if LessAt(db, clauses, a, b, i + 1) {
            forall j | 0 <= j < i ensures a'[j] == b'[j] {
              assert a[j + 1] == b[j + 1];
            }
          }
        }
        if i :| 0 <= i < |clauses| && LessAt(db, clauses, a, b, i) {
          assert i > 0;
          assert LessAt(db, c', a', b', i - 1);
        }
      } else {
        assert KeyLess(db, clauses, a, b) ==> LessAt(db, clauses, a, b, 0);
      }
    }
  }

  /** The value of a row in the column of an ordering field. */
  function FieldValue(schema: Schema, field: OrderField, row: Row): Value
    requires field.path in schema.fields
  {
    Get(row, schema.fields[field.path].column)
  }

  /** Rows a and b agree on the first i fields, and on field i the row with the smaller value comes first if it is
      ascending, the one with the larger value if it is descending. */
  predicate PrecedesAt(db: Database, schema: Schema, order: OrderBy, a: Row, b: Row, i: nat)
    requires AllOrderable(schema, order) && i < |order|
  {
    && (forall j :: 0 <= j < i ==> FieldValue(schema, order[j], a) == FieldValue(schema, order[j], b))
    && var x, y := FieldValue(schema, order[i], a), FieldValue(schema, order[i], b);
       match order[i].direction
       case Asc => Less(db, x, y)
       case Desc => Less(db, y, x)
  }

  /** Row a comes before row b in the order asked for. */
  ghost predicate Precedes(db: Database, schema: Schema, order: OrderBy, a: Row, b: Row)
    requires AllOrderable(schema, order)
  {
    exists i: nat :: i < |order| && PrecedesAt(db, schema, order, a, b, i)
  }

  /** ORDER BY sorts rows as the order fields say, ascending and descending fields alike. */
  lemma ClausesMeaning(db: Database, schema: Schema, order: OrderBy, a: Row, b: Row)
    requires AllOrderable(schema, order) && forall s :: !db.collate(s, s)
    ensures
      var clauses := Clauses(schema, order);
      KeyLess(db, clauses, Key(clauses, a), Key(clauses, b)) <==> Precedes(db, schema, order, a, b)
  {
    var clauses := Clauses(schema, order);
    var x, y := Key(clauses, a), Key(clauses, b);
    KeyLessIffLessAt(db, clauses, x, y);
    forall i: nat | i < |order| ensures LessAt(db, clauses, x, y, i) <==> PrecedesAt(db, schema, order, a, b, i) {
      assert forall j :: 0 <= j < |order| ==>
        x[j] == FieldValue(schema, order[j], a) && y[j] == FieldValue(schema, order[j], b);
    }
    if KeyLess(db, clauses, x, y) {
      var i :| 0 <= i < |clauses| && LessAt(db, clauses, x, y, i);
      assert PrecedesAt(db, schema, order, a, b, i);
    }
    if Precedes(db, schema, order, a, b) {
      var i: nat :| i < |order| && PrecedesAt(db, schema, order, a, b, i);
      assert LessAt(db, clauses, x, y, i);
    }
  }

  // -- Building the conditions ------------------------------------------------------------------

  function ToLiteral(v: GoValue): Result<Term, KeysetError> {
    if v.GoOther? then Failure(Unsupported) else Success(Literal(SqlOf(v)))
  }

  /** The column offers the comparisons of the cursor value's type. */
  predicate SameType(kind: ColumnKind, v: GoValue) {
    match v
    case GoString(_) => kind == TextColumn
    case GoBool(_) => kind == BooleanColumn
    case GoInt32(_) => kind == IntegerColumn || kind == BigintColumn
    case GoInt64(_) => kind == IntegerColumn || kind == BigintColumn
    case GoFloat32(_) => kind == RealColumn || kind == DoubleColumn
    case GoFloat64(_) => kind == RealColumn || kind == DoubleColumn
    case GoTime(_) => kind == TimestampColumn
    case GoOther => false
  }

  function EqualityExpr(field: Field, v: GoValue): Result<Expr, KeysetError> {
    if SameType(field.kind, v) then Success(Compare(Eq, Column(field.column), Literal(SqlOf(v))))
    else Failure(Unsupported)
  }

  /** There is no branch for booleans. */
  function DirectionExpr(field: Field, direction: Direction, v: GoValue): Result<Expr, KeysetError> {
    if v.GoBool? || !SameType(field.kind, v) then Failure(Unsupported)
    else Success(Compare(if direction == Asc then Gt else Lt, Column(field.column), Literal(SqlOf(v))))
  }

  function TupleExpr(schema: Schema, order: OrderBy, vals: seq<GoValue>): Expr
    requires AllOrderable(schema, order) && |order| == |vals| > 0
  {
    RowCompare(
      if order[0].direction == Desc then Lt else Gt,
      seq(|order|, i requires 0 <= i < |order| => Column(schema.fields[order[i].path].column)),
      seq(|vals|, i requires 0 <= i < |vals| => Literal(SqlOf(vals[i]))))
  }

  /** Equal on the first i fields and past the cursor on field i. */
  function ChainExpr(schema: Schema, order: OrderBy, vals: seq<GoValue>, i: nat): Expr
    requires AllOrderable(schema, order) && |order| == |vals| && i < |order|
  {
    And(seq(i + 1, j requires 0 <= j < i + 1 =>
      Compare(
        if j < i then Eq else if order[j].direction == Asc then Gt else Lt,
        Column(schema.fields[order[j].path].column),
        Literal(SqlOf(vals[j])))))
  }

  function FallbackExpr(schema: Schema, order: OrderBy, vals: seq<GoValue>): Expr
    requires AllOrderable(schema, order) && |order| == |vals|
  {
    Or(seq(|order|, i requires 0 <= i < |order| => ChainExpr(schema, order, vals, i)))
  }

  predicate TupleSupported(vals: seq<GoValue>) {
    forall i :: 0 <= i < |vals| ==> !vals[i].GoOther?
  }

  predicate FallbackSupported(schema: Schema, order: OrderBy, vals: seq<GoValue>)
    requires AllOrderable(schema, order) && |order| == |vals|
  {
    forall i :: 0 <= i < |vals| ==> !vals[i].GoBool? && SameType(schema.fields[order[i].path].kind, vals[i])
  }

  function KeysetCondition(schema: Schema, order: OrderBy, vals: seq<GoValue>): Result<Option<Expr>, KeysetError>
    requires AllOrderable(schema, order)
  {
    if vals == [] then Success(None)
    else if order == [] then Failure(NoOrder)
    else if |order| != |vals| then Failure(CursorMismatch)
    else if Uniform(order) then
      if TupleSupported(vals) then Success(Some(TupleExpr(schema, order, vals))) else Failure(Unsupported)
    else
      if FallbackSupported(schema, order, vals) then Success(Some(FallbackExpr(schema, order, vals)))
      else Failure(Unsupported)
  }

  /** With a value of the column's type for every field, a condition exists exactly when the order has one
      direction or no boolean column. */
  lemma KeysetConditionIff(schema: Schema, order: OrderBy, vals: seq<GoValue>)
    requires AllOrderable(schema, order) && |order| == |vals|
    requires forall i :: 0 <= i < |order| ==> SameType(schema.fields[order[i].path].kind, vals[i])
    ensures KeysetCondition(schema, order, vals).Success? <==>
      Uniform(order) || forall i :: 0 <= i < |order| ==> schema.fields[order[i].path].kind != BooleanColumn
  {
    forall i | 0 <= i < |order|
      ensures !vals[i].GoOther? && (vals[i].GoBool? <==> schema.fields[order[i].path].kind == BooleanColumn)
    {
      assert SameType(schema.fields[order[i].path].kind, vals[i]);
    }
  }

  method BuildTupleComparison(schema: Schema, order: OrderBy, vals: seq<GoValue>)
    returns (r: Result<Expr, KeysetError>)
    requires AllOrderable(schema, order) && |order| == |vals| > 0
    ensures r == if TupleSupported(vals) then Success(TupleExpr(schema, order, vals)) else Failure(Unsupported)
  {
    var columns: seq<Term> := [];
    var literals: seq<Term> := [];
    var e := TupleExpr(schema, order, vals);
    for i := 0 to |order|
      invariant columns == e.lefts[..i] && literals == e.rights[..i]
      invariant forall k :: 0 <= k < i ==> !vals[k].GoOther?
    {
      columns := columns + [Column(schema.fields[order[i].path].column)];
      var literal := ToLiteral(vals[i]);
      if literal.Failure? {
        return Failure(Unsupported);
      }
      literals := literals + [literal.value];
    }
    assert columns == e.lefts && literals == e.rights;
    if order[0].direction == Desc {
      return Success(RowCompare(Lt, columns, literals));
    }
    return Success(RowCompare(Gt, columns, literals));
  }

  method BuildLexicographicFallback(schema: Schema, order: OrderBy, vals: seq<GoValue>)
    returns (r: Result<Expr, KeysetError>)
    requires AllOrderable(schema, order) && |order| == |vals|
    ensures r ==
      if FallbackSupported(schema, order, vals) then Success(FallbackExpr(schema, order, vals))
      else Failure(Unsupported)
  {
    var conditions: seq<Expr> := [];
    for i := 0 to |order|
      invariant conditions == FallbackExpr(schema, order, vals).args[..i]
      invariant forall k :: 0 <= k < i ==>
        DirectionExpr(schema.fields[order[k].path], order[k].direction, vals[k]).Success?
    {
      var chain: seq<Expr> := [];
      for j := 0 to i
        invariant chain == ChainExpr(schema, order, vals, i).args[..j]
      {
        var equal := EqualityExpr(schema.fields[order[j].path], vals[j]);
        assert DirectionExpr(schema.fields[order[j].path], order[j].direction, vals[j]).Success?;
        chain := chain + [equal.value];
      }
      var past := DirectionExpr(schema.fields[order[i].path], order[i].direction, vals[i]);
      if past.Failure? {
        return Failure(Unsupported);
      }
      chain := chain + [past.value];
      assert chain == ChainExpr(schema, order, vals, i).args;
      conditions := conditions + [And(chain)];
    }
    assert conditions == FallbackExpr(schema, order, vals).args;
    return Success(Or(conditions));
  }

  method BuildKeysetCondition(schema: Schema, order: OrderBy, vals: seq<GoValue>)
    returns (r: Result<Option<Expr>, KeysetError>)
    requires AllOrderable(schema, order)
    ensures r == KeysetCondition(schema, order, vals)
  {
    if |vals| == 0 {
      return Success(None);
    }
    if |order| == 0 {
      return Failure(NoOrder);
    }
    if |order| != |vals| {
      return Failure(CursorMismatch);
    }
    var e: Result<Expr, KeysetError>;
    var uniform := IsUniformDirection(order);
    if uniform {
      e := BuildTupleComparison(schema, order, vals);
    } else {
      e := BuildLexicographicFallback(schema, order, vals);
    }
    return if e.Success? then Success(Some(e.value)) else Failure(e.error);
  }

  // -- What the conditions mean -----------------------------------------------------------------

  /** The chain for position i is TRUE of a row exactly when the row first departs from the cursor at
      position i, past it. */
  lemma ChainMeaning(db: Database, schema: Schema, order: OrderBy, vals: seq<GoValue>, i: nat, row: Row)
    requires AllOrderable(schema, order) && |order| == |vals| && i < |order|
    requires TupleSupported(vals) && NoNulls(Key(Clauses(schema, order), row))
    ensures Eval(db, ChainExpr(schema, order, vals, i), row)
         == FromBool(LessAt(db, Clauses(schema, order), SqlAll(vals), Key(Clauses(schema, order), row), i))
  {
    var clauses := Clauses(schema, order);
    var cursor, key := SqlAll(vals), Key(clauses, row);
    var es := ChainExpr(schema, order, vals, i).args;
    EvalAnd(db, es, row);
    forall j | 0 <= j <= i
      ensures Eval(db, es[j], row) ==
        FromBool(if j < i then cursor[j] == key[j] else ColumnLess(db, clauses[j].desc, cursor[j], key[j]))
    {
      assert key[j] == Get(row, clauses[j].column) && !cursor[j].Null?;
    }
    assert |es| == i + 1;
  }

  /** The OR of AND chains is TRUE of a row exactly when the row is strictly after the cursor in the
      ORDER BY order, for any number of fields and any mix of directions. */
  lemma FallbackMeaning(db: Database, schema: Schema, order: OrderBy, vals: seq<GoValue>, row: Row)
    requires AllOrderable(schema, order) && |order| == |vals|
    requires TotalOrder(db.collate)
    requires TupleSupported(vals) && NoNulls(Key(Clauses(schema, order), row))
    ensures Eval(db, FallbackExpr(schema, order, vals), row)
         == FromBool(KeyLess(db, Clauses(schema, order), SqlAll(vals), Key(Clauses(schema, order), row)))
  {
    var clauses := Clauses(schema, order);
    var cursor, key := SqlAll(vals), Key(clauses, row);
    var es := FallbackExpr(schema, order, vals).args;
    EvalOr(db, es, row);
    forall i | 0 <= i < |order| ensures Eval(db, es[i], row) == FromBool(LessAt(db, clauses, cursor, key, i)) {
      ChainMeaning(db, schema, order, vals, i, row);
    }
    KeyLessIffLessAt(db, clauses, cursor, key);
  }

  lemma {:induction false} RowCompareMeaning(db: Database, clauses: seq<Clause>, desc: bool,
                                             key: seq<Value>, cursor: seq<Value>)
    requires |key| == |cursor| == |clauses| && NoNulls(key) && NoNulls(cursor)
    requires forall i :: 0 <= i < |clauses| ==> clauses[i].desc == desc
    ensures RowCompare3(db, if desc then Lt else Gt, key, cursor) == FromBool(KeyLess(db, clauses, cursor, key))
  {
    if clauses != [] {
      RowCompareMeaning(db, clauses[1..], desc, key[1..], cursor[1..]);
    }
  }

  /** For a uniform order the row comparison is TRUE exactly of the rows strictly after the cursor. */
  lemma TupleMeaning(db: Database, schema: Schema, order: OrderBy, vals: seq<GoValue>, row: Row)
    requires AllOrderable(schema, order) && |order| == |vals| > 0 && Uniform(order)
    requires TupleSupported(vals) && NoNulls(Key(Clauses(schema, order), row))
    ensures Eval(db, TupleExpr(schema, order, vals), row)
         == FromBool(KeyLess(db, Clauses(schema, order), SqlAll(vals), Key(Clauses(schema, order), row)))
  {
    var clauses := Clauses(schema, order);
    var e := TupleExpr(schema, order, vals);
    assert TermValues(db, e.lefts, row) == Key(clauses, row);
    assert TermValues(db, e.rights, row) == SqlAll(vals);
    RowCompareMeaning(db, clauses, clauses[0].desc, Key(clauses, row), SqlAll(vals));
  }

  /** Choosing the row comparison over the OR chain never changes which rows a page is drawn from. */
  lemma FormsAgree(db: Database, schema: Schema, order: OrderBy, vals: seq<GoValue>, row: Row)
    requires AllOrderable(schema, order) && |order| == |vals| > 0 && Uniform(order)
    requires TotalOrder(db.collate)
    requires TupleSupported(vals) && NoNulls(Key(Clauses(schema, order), row))
    ensures Eval(db, TupleExpr(schema, order, vals), row) == Eval(db, FallbackExpr(schema, order, vals), row)
  {
    TupleMeaning(db, schema, order, vals, row);
    FallbackMeaning(db, schema, order, vals, row);
  }

  /** Whichever form is built, it selects exactly the rows strictly after the cursor. */
  lemma KeysetMeaning(db: Database, schema: Schema, order: OrderBy, vals: seq<GoValue>, row: Row)
    requires AllOrderable(schema, order) && TotalOrder(db.collate)
    requires KeysetCondition(schema, order, vals).Success? && KeysetCondition(schema, order, vals).value.Some?
    requires NoNulls(Key(Clauses(schema, order), row))
    ensures |order| == |vals|
    ensures Eval(db, KeysetCondition(schema, order, vals).value.value, row)
         == FromBool(KeyLess(db, Clauses(schema, order), SqlAll(vals), Key(Clauses(schema, order), row)))
  {
    if Uniform(order) {
      TupleMeaning(db, schema, order, vals, row);
    } else {
      FallbackMeaning(db, schema, order, vals, row);
    }
  }

  // -- Conjoining -------------------------------------------------------------------------------

  function Combine(conditions: seq<Option<Expr>>): Option<Expr> {
    var present := Present(conditions);
    if present == [] then None else Some(And(present))
  }

  function Present(conditions: seq<Option<Expr>>): seq<Expr> {
    if conditions == [] then []
    else
      var last := conditions[|conditions| - 1];
      Present(conditions[..|conditions| - 1]) + if last.Some? then [last.value] else []
  }

  method CombineConditions(conditions: seq<Option<Expr>>) returns (r: Option<Expr>)
    ensures r == Combine(conditions)
  {
    var combined: seq<Expr> := [];
    for i := 0 to |conditions|
      invariant combined == Present(conditions[..i])
    {
      assert conditions[..i + 1][..i] == conditions[..i];
      if conditions[i].Some? {
        combined := combined + [conditions[i].value];
      }
    }
    assert conditions[..|conditions|] == conditions;
    if |combined| == 0 {
      return None;
    }
    return Some(And(combined));
  }

  predicate Passes(db: Database, where: Option<Expr>, row: Row) {
    where.None? || Eval(db, where.value, row) == True
  }

  /** A row passes the combination exactly when it passes every condition. */
  lemma CombineMeaning(db: Database, first: Option<Expr>, second: Option<Expr>, row: Row)
    ensures Passes(db, Combine([first, second]), row) <==> Passes(db, first, row) && Passes(db, second, row)
  {
    var cs := [first, second];
    assert cs[..1] == [first] && [first][..0] == [];
    var es := Present(cs);
    assert Present([first]) == if first.Some? then [first.value] else [];
    assert es == (if first.Some? then [first.value] else []) + (if second.Some? then [second.value] else []);
    EvalAnd(db, es, row);
    assert first.Some? ==> es[0] == first.value;
    assert second.Some? ==> es[|es| - 1] == second.value;
  }
}
