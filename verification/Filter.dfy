/** AIP-160 filters compiled to SQL (pkg/aip/jet/filter.go): the compiler, the meaning of a filter on a row,
    and the proof that the compiled expression has that meaning in three-valued logic. */
module Filter {
  import opened Prelude
  import opened Sql
  import opened LikeEscape

  // -- Source language --------------------------------------------------------------------------

  datatype Function =
    | AndFn | OrFn | NotFn
    | EqualsFn | NotEqualsFn | LessThanFn | LessEqualsFn | GreaterThanFn | GreaterEqualsFn | HasFn
    | DurationFn | TimestampFn
    | OtherFn(name: string)

  datatype Constant =
    | NullConst
    | BoolConst(flag: bool)
    | Int64Const(number: int)
    | Uint64Const(natural: nat)
    | DoubleConst(measure: real)
    | StringConst(text: string)
    | OtherConst

  datatype FilterExpr =
    | Const(constant: Constant)
    | Ident(name: string)
    | Select(operand: FilterExpr, field: string)
    | Call(fn: Function, args: seq<FilterExpr>)
    | OtherShape

  /** The static type of the SQL expression a field is bound to. */
  datatype ExprType = StringType | BoolType | IntegerType | FloatType | TimestampType | StringArrayType | OtherType

  datatype Binding = Binding(term: Term, ty: ExprType)

  type FieldBindings = map<string, Binding>

  /** The database, and the Go functions whose results the compiler takes over. */
  datatype Env = Env(
    db: Database,
    toLower: string -> string,
    parseTime: string -> Option<int>,
    parseDuration: string -> Option<int>)

  datatype FilterError = Unsupported

  // -- Compiler ---------------------------------------------------------------------------------

  /** The dotted name of an identifier or member-access chain. */
  function FlattenIdent(e: FilterExpr): Result<string, FilterError> {
    match e
    case Ident(name) => Success(name)
    case Select(operand, field) =>
      var head :- FlattenIdent(operand);
      if field == "" then Failure(Unsupported) else Success(head + "." + field)
    case _ => Failure(Unsupported)
  }

  predicate IsNullLiteral(e: FilterExpr) {
    e == Const(NullConst) || e == Ident("null")
  }

  function StringLiteral(e: FilterExpr): Result<string, FilterError> {
    if e.Const? && e.constant.StringConst? then Success(e.constant.text) else Failure(Unsupported)
  }

  function BoolLiteral(e: FilterExpr): Result<bool, FilterError> {
    if e == Ident("true") then Success(true)
    else if e == Ident("false") then Success(false)
    else if e.Const? && e.constant.BoolConst? then Success(e.constant.flag)
    else Failure(Unsupported)
  }

  /** An int literal, or a duration call in nanoseconds. */
  function IntegerLiteral(env: Env, e: FilterExpr): Result<int, FilterError> {
    match e
    case Call(fn, args) =>
      if fn != DurationFn || |args| != 1 then Failure(Unsupported)
      else
        var s :- StringLiteral(args[0]);
        var d := env.parseDuration(s);
        if d.Some? then Success(d.value) else Failure(Unsupported)
    case Const(Int64Const(n)) => Success(n)
    case _ => Failure(Unsupported)
  }

  function TimestampLiteral(env: Env, e: FilterExpr): Result<int, FilterError> {
    if e.Call? && e.fn == TimestampFn && |e.args| == 1 then
      var s :- StringLiteral(e.args[0]);
      var t := env.parseTime(s);
      if t.Some? then Success(t.value) else Failure(Unsupported)
    else Failure(Unsupported)
  }

  function FloatLiteral(e: FilterExpr): Result<real, FilterError> {
    match e
    case Const(DoubleConst(x)) => Success(x)
    case Const(Int64Const(n)) => Success(n as real)
    case Const(Uint64Const(n)) => Success(n as real)
    case _ => Failure(Unsupported)
  }

  /** The six comparisons shared by the ordered column types. */
  function OrderedOp(fn: Function, column: Term, literal: Value): Result<Expr, FilterError> {
    match fn
    case EqualsFn => Success(Compare(Eq, column, Literal(literal)))
    case NotEqualsFn => Success(Compare(Ne, column, Literal(literal)))
    case LessThanFn => Success(Compare(Lt, column, Literal(literal)))
    case LessEqualsFn => Success(Compare(Le, column, Literal(literal)))
    case GreaterThanFn => Success(Compare(Gt, column, Literal(literal)))
    case GreaterEqualsFn => Success(Compare(Ge, column, Literal(literal)))
    case _ => Failure(Unsupported)
  }

  function StringArrayOp(fn: Function, column: Term, rhs: FilterExpr): Result<Expr, FilterError> {
    var s :- StringLiteral(rhs);
    match fn
    case EqualsFn => Success(EqAny(s, column))
    case HasFn => Success(EqAny(s, column))
    case NotEqualsFn => Success(Not(EqAny(s, column)))
    case _ => Failure(Unsupported)
  }

  function StringOp(env: Env, fn: Function, column: Term, rhs: FilterExpr): Result<Expr, FilterError> {
    var s :- StringLiteral(rhs);
    if fn == HasFn then Success(LikeExpr(Lower(column), "%" + EscapeInThree(env.toLower(s)) + "%"))
    else OrderedOp(fn, column, Text(s))
  }

  function BoolOp(fn: Function, column: Term, rhs: FilterExpr): Result<Expr, FilterError> {
    var b :- BoolLiteral(rhs);
    match fn
    case EqualsFn => Success(Compare(Eq, column, Literal(Bool(b))))
    case NotEqualsFn => Success(Compare(Ne, column, Literal(Bool(b))))
    case _ => Failure(Unsupported)
  }

  function IntegerOp(env: Env, fn: Function, column: Term, rhs: FilterExpr): Result<Expr, FilterError> {
    var n :- IntegerLiteral(env, rhs);
    OrderedOp(fn, column, Int(n))
  }

  function FloatOp(fn: Function, column: Term, rhs: FilterExpr): Result<Expr, FilterError> {
    var x :- FloatLiteral(rhs);
    OrderedOp(fn, column, Float(x))
  }

  function TimestampOp(env: Env, fn: Function, column: Term, rhs: FilterExpr): Result<Expr, FilterError> {
    var t :- TimestampLiteral(env, rhs);
    OrderedOp(fn, column, Instant(t))
  }

  function ApplyComparator(env: Env, fn: Function, b: Binding, rhs: FilterExpr): Result<Expr, FilterError> {
    if IsNullLiteral(rhs) then
      match fn
      case EqualsFn => Success(IsNull(b.term))
      case NotEqualsFn => Success(IsNotNull(b.term))
      case _ => Failure(Unsupported)
    else
      match b.ty
      case StringArrayType => StringArrayOp(fn, b.term, rhs)
      case StringType => StringOp(env, fn, b.term, rhs)
      case BoolType => BoolOp(fn, b.term, rhs)
      case IntegerType => IntegerOp(env, fn, b.term, rhs)
      case FloatType => FloatOp(fn, b.term, rhs)
      case TimestampType => TimestampOp(env, fn, b.term, rhs)
      case OtherType => Failure(Unsupported)
  }

  function Comparison(env: Env, fn: Function, args: seq<FilterExpr>, fields: FieldBindings): Result<Expr, FilterError> {
    if |args| != 2 then Failure(Unsupported)
    else
      var key :- FlattenIdent(args[0]);
      if key in fields then ApplyComparator(env, fn, fields[key], args[1]) else Failure(Unsupported)
  }

  predicate IsComparison(fn: Function) {
    fn in {EqualsFn, NotEqualsFn, LessThanFn, LessEqualsFn, GreaterThanFn, GreaterEqualsFn, HasFn}
  }

  function Translate(env: Env, e: FilterExpr, fields: FieldBindings): Result<Expr, FilterError>
    decreases e, 0
  {
    match e
    case Call(fn, args) =>
      if fn == AndFn || fn == OrFn then TranslateJunction(env, fn == AndFn, args, fields)
      else if fn == NotFn then
        if |args| != 1 then Failure(Unsupported)
        else
          var inner :- Translate(env, args[0], fields);
          Success(Not(inner))
      else if IsComparison(fn) then Comparison(env, fn, args, fields)
      else Failure(Unsupported)
    case _ => Failure(Unsupported)
  }

  function Join(conjunction: bool, acc: Expr, term: Expr): Expr {
    if acc == Nil then term else if conjunction then And([acc, term]) else Or([acc, term])
  }

  /** The terms folded linearly from the left; no terms give no expression. */
  function TranslateJunction(env: Env, conjunction: bool, args: seq<FilterExpr>, fields: FieldBindings)
    : Result<Expr, FilterError>
    decreases args, 0
  {
    if args == [] then Success(Nil)
    else
      var front := args[..|args| - 1];
      var acc :- TranslateJunction(env, conjunction, front, fields);
      var term :- Translate(env, args[|args| - 1], fields);
      Success(Join(conjunction, acc, term))
  }

  method AndOrOf(env: Env, conjunction: bool, args: seq<FilterExpr>, fields: FieldBindings)
    returns (r: Result<Expr, FilterError>)
    ensures r == TranslateJunction(env, conjunction, args, fields)
  {
    var acc := Nil;
    for i := 0 to |args|
      invariant TranslateJunction(env, conjunction, args[..i], fields) == Success(acc)
    {
      assert args[..i + 1][..i] == args[..i];
      var term := Translate(env, args[i], fields);
      if term.Failure? {
        JunctionFails(env, conjunction, args, fields, i);
        return Failure(Unsupported);
      }
      acc := Join(conjunction, acc, term.value);
    }
    assert args[..|args|] == args;
    return Success(acc);
  }

  lemma {:induction false} JunctionFails(env: Env, conjunction: bool, args: seq<FilterExpr>, fields: FieldBindings,
                                          i: nat)
    requires i < |args| && Translate(env, args[i], fields).Failure?
    ensures TranslateJunction(env, conjunction, args, fields) == Failure(Unsupported)
  {
    if i < |args| - 1 {
      JunctionFails(env, conjunction, args[..|args| - 1], fields, i);
    }
    match TranslateJunction(env, conjunction, args, fields).error {
      case Unsupported =>
    }
  }

  // -- Names and literals -----------------------------------------------------------------------

  /** A member-access chain of names. */
  function Chain(names: seq<string>): FilterExpr
    requires names != []
  {
    if |names| == 1 then Ident(names[0]) else Select(Chain(names[..|names| - 1]), names[|names| - 1])
  }

  function Dotted(names: seq<string>): string
    requires names != []
  {
    if |names| == 1 then names[0] else Dotted(names[..|names| - 1]) + "." + names[|names| - 1]
  }

  predicate IsChain(names: seq<string>, e: FilterExpr, key: string) {
    names != [] && e == Chain(names) && key == Dotted(names) && forall i :: 0 < i < |names| ==> names[i] != ""
  }

  /** The expression is a chain of names, none after the first empty, and the key is the names joined by dots. */
  ghost predicate NamesField(e: FilterExpr, key: string) { exists names :: IsChain(names, e, key) }

  lemma {:induction false} ChainFlattens(names: seq<string>, e: FilterExpr, key: string)
    requires IsChain(names, e, key)
    ensures FlattenIdent(e) == Success(key)
  {
    if |names| > 1 {
      var front := names[..|names| - 1];
      assert forall i :: 0 < i < |front| ==> front[i] == names[i];
      ChainFlattens(front, Chain(front), Dotted(front));
    }
  }

  lemma {:induction false} FlattensChain(e: FilterExpr) returns (names: seq<string>)
    requires FlattenIdent(e).Success?
    ensures IsChain(names, e, FlattenIdent(e).value)
  {
    if e.Ident? {
      names := [e.name];
    } else {
      var front := FlattensChain(e.operand);
      names := front + [e.field];
      assert names[..|names| - 1] == front;
    }
  }

  /** The compiler finds a field key in an expression exactly when the expression names it. */
  lemma FlattenIff(e: FilterExpr, key: string)
    ensures FlattenIdent(e) == Success(key) <==> NamesField(e, key)
  {
    if FlattenIdent(e) == Success(key) {
      var names := FlattensChain(e);
    }
    if names :| IsChain(names, e, key) {
      ChainFlattens(names, e, key);
    }
  }

  /** The key that an expression names, if it names one. */
  ghost function FieldOf(e: FilterExpr): Option<string> {
    if exists key :: NamesField(e, key) then
      var key :| NamesField(e, key);
      Some(key)
    else None
  }

  lemma FieldIsFlat(e: FilterExpr)
    ensures FieldOf(e) == match FlattenIdent(e) case Success(key) => Some(key) case Failure(_) => None
  {
    if FlattenIdent(e).Success? {
      FlattenIff(e, FlattenIdent(e).value);
      FlattenIff(e, FieldOf(e).value);
    } else if key :| NamesField(e, key) {
      FlattenIff(e, key);
    }
  }

  /** The null keyword, as a constant or as a name. */
  predicate SpellsNull(e: FilterExpr) {
    match e
    case Const(NullConst) => true
    case Ident(name) => name == "null"
    case _ => false
  }

  /** A call of a function on one string. */
  predicate CallsOn(e: FilterExpr, fn: Function, s: string) {
    e == Call(fn, [Const(StringConst(s))])
  }

  /** The expression stands for the value where a field of this type is compared with it. */
  ghost predicate Denotes(env: Env, ty: ExprType, e: FilterExpr, v: Value) {
    match ty
    case StringType => v.Text? && e == Const(StringConst(v.text))
    case StringArrayType => v.Text? && e == Const(StringConst(v.text))
    case BoolType =>
      v.Bool? && (e == Const(BoolConst(v.flag)) || e == Ident(if v.flag then "true" else "false"))
    case IntegerType =>
      v.Int? && (e == Const(Int64Const(v.number))
        || exists s :: CallsOn(e, DurationFn, s) && env.parseDuration(s) == Some(v.number))
    case FloatType =>
      v.Float? && (e == Const(DoubleConst(v.measure))
        || (exists n: int :: e == Const(Int64Const(n)) && v.measure == n as real)
        || (exists n: nat :: e == Const(Uint64Const(n)) && v.measure == n as real))
    case TimestampType =>
      v.Instant? && exists s :: CallsOn(e, TimestampFn, s) && env.parseTime(s) == Some(v.nanos)
    case OtherType => false
  }

  /** The value the expression stands for, if there is one. */
  ghost function ValueOf(env: Env, ty: ExprType, e: FilterExpr): Option<Value> {
    if exists v :: Denotes(env, ty, e, v) then
      var v :| Denotes(env, ty, e, v);
      Some(v)
    else None
  }

  /** What the compiler extracts for a field of the type. */
  function LiteralOf(env: Env, ty: ExprType, rhs: FilterExpr): Option<Value> {
    match ty
    case StringType => if StringLiteral(rhs).Success? then Some(Text(StringLiteral(rhs).value)) else None
    case StringArrayType => if StringLiteral(rhs).Success? then Some(Text(StringLiteral(rhs).value)) else None
    case BoolType => if BoolLiteral(rhs).Success? then Some(Bool(BoolLiteral(rhs).value)) else None
    case IntegerType => if IntegerLiteral(env, rhs).Success? then Some(Int(IntegerLiteral(env, rhs).value)) else None
    case FloatType => if FloatLiteral(rhs).Success? then Some(Float(FloatLiteral(rhs).value)) else None
    case TimestampType =>
      var t := TimestampLiteral(env, rhs);
      if t.Success? then Some(Instant(t.value)) else None
    case OtherType => None
  }

  lemma OneStringCall(e: FilterExpr, fn: Function)
    ensures (exists s :: CallsOn(e, fn, s)) <==>
      e.Call? && e.fn == fn && |e.args| == 1 && e.args[0].Const? && e.args[0].constant.StringConst?
    ensures forall s :: CallsOn(e, fn, s) ==> e.args[0].constant == StringConst(s)
  {
    if e.Call? && e.fn == fn && |e.args| == 1 && e.args[0].Const? && e.args[0].constant.StringConst? {
      assert e.args == [e.args[0]];
      assert CallsOn(e, fn, e.args[0].constant.text);
    }
  }

  /** The compiler extracts a value from a literal exactly when the literal stands for it. */
  lemma LiteralIff(env: Env, ty: ExprType, e: FilterExpr, v: Value)
    ensures LiteralOf(env, ty, e) == Some(v) <==> Denotes(env, ty, e, v)
  {
    match ty {
      case IntegerType => OneStringCall(e, DurationFn);
      case TimestampType => OneStringCall(e, TimestampFn);
      case _ =>
    }
  }

  lemma ValueIsLiteral(env: Env, ty: ExprType, e: FilterExpr)
    ensures ValueOf(env, ty, e) == LiteralOf(env, ty, e)
  {
    if LiteralOf(env, ty, e).Some? {
      LiteralIff(env, ty, e, LiteralOf(env, ty, e).value);
    }
    if ValueOf(env, ty, e).Some? {
      LiteralIff(env, ty, e, ValueOf(env, ty, e).value);
    }
  }

  // -- Meaning ----------------------------------------------------------------------------------

  predicate IsEquality(fn: Function) { fn == EqualsFn || fn == NotEqualsFn }

  predicate IsOrdering(fn: Function) {
    fn == LessThanFn || fn == LessEqualsFn || fn == GreaterThanFn || fn == GreaterEqualsFn
  }

  /** Which operators a field type has. */
  predicate Supports(ty: ExprType, fn: Function) {
    match ty
    case StringType => IsEquality(fn) || IsOrdering(fn) || fn == HasFn
    case StringArrayType => IsEquality(fn) || fn == HasFn
    case BoolType => IsEquality(fn)
    case IntegerType => IsEquality(fn) || IsOrdering(fn)
    case FloatType => IsEquality(fn) || IsOrdering(fn)
    case TimestampType => IsEquality(fn) || IsOrdering(fn)
    case OtherType => false
  }

  /** A field of the type can be compared so with the expression. */
  ghost predicate Comparable(env: Env, fn: Function, ty: ExprType, rhs: FilterExpr) {
    if SpellsNull(rhs) then IsEquality(fn) else Supports(ty, fn) && ValueOf(env, ty, rhs).Some?
  }

  /** A filter the compiler is meant to accept: comparisons of fields with fitting literals, under AND, OR and
      NOT. */
  ghost predicate WellTyped(env: Env, e: FilterExpr, fields: FieldBindings) {
    match e
    case Call(fn, args) =>
      if fn == AndFn || fn == OrFn then forall i :: 0 <= i < |args| ==> WellTyped(env, args[i], fields)
      else if fn == NotFn then |args| == 1 && WellTyped(env, args[0], fields)
      else
        && |args| == 2
        && FieldOf(args[0]).Some?
        && FieldOf(args[0]).value in fields
        && Comparable(env, fn, fields[FieldOf(args[0]).value].ty, args[1])
    case _ => false
  }

  /** The parser never produces an AND or OR without operands. */
  predicate NonEmptyJunctions(e: FilterExpr) {
    match e
    case Call(fn, args) =>
      && (fn == AndFn || fn == OrFn ==> args != [])
      && forall i :: 0 <= i < |args| ==> NonEmptyJunctions(args[i])
    case Select(operand, _) => NonEmptyJunctions(operand)
    case _ => true
  }

  /** A list has an element: unknown only when no element is the needle and some element is NULL. */
  ghost function Member(needle: string, elems: seq<Option<string>>): Tri {
    if Some(needle) in elems then True else if None in elems then Unknown else False
  }

  /** A comparison of a non-NULL scalar with a literal of its type. */
  ghost predicate Holds(env: Env, fn: Function, v: Value, literal: Value) {
    match fn
    case EqualsFn => v == literal
    case NotEqualsFn => v != literal
    case LessThanFn => Less(env.db, v, literal)
    case LessEqualsFn => v == literal || Less(env.db, v, literal)
    case GreaterThanFn => Less(env.db, literal, v)
    case GreaterEqualsFn => v == literal || Less(env.db, literal, v)
    case HasFn => v.Text? && literal.Text? && Contains(env.db.lower(v.text), env.toLower(literal.text))
    case _ => false
  }

  /** False for true, true for false; what is unknown stays unknown. */
  function Opposite(t: Tri): Tri {
    if t == True then False else if t == False then True else t
  }

  /** A column value compared with a literal. */
  ghost function Compared(env: Env, fn: Function, v: Value, literal: Value): Tri {
    if v.Null? then Unknown
    else if v.TextArray? && literal.Text? then
      var member := Member(literal.text, v.elems);
      if fn == NotEqualsFn then Opposite(member) else member
    else FromBool(Holds(env, fn, v, literal))
  }

  ghost function ComparisonMeaning(env: Env, fn: Function, b: Binding, rhs: FilterExpr, row: Row): Tri
    requires !SpellsNull(rhs) ==> ValueOf(env, b.ty, rhs).Some?
  {
    var v := TermValue(env.db, b.term, row);
    if SpellsNull(rhs) then FromBool(v.Null? <==> fn == EqualsFn)
    else Compared(env, fn, v, ValueOf(env, b.ty, rhs).value)
  }

  /** The value of a well-typed filter on a row: AND is false if any operand is, true if all are, unknown
      otherwise; OR dually. */
  ghost function Meaning(env: Env, e: FilterExpr, fields: FieldBindings, row: Row): Tri
    requires WellTyped(env, e, fields)
  {
    var args := e.args;
    if e.fn == AndFn then
      if exists i :: 0 <= i < |args| && Meaning(env, args[i], fields, row) == False then False
      else if forall i :: 0 <= i < |args| ==> Meaning(env, args[i], fields, row) == True then True
      else Unknown
    else if e.fn == OrFn then
      if exists i :: 0 <= i < |args| && Meaning(env, args[i], fields, row) == True then True
      else if forall i :: 0 <= i < |args| ==> Meaning(env, args[i], fields, row) == False then False
      else Unknown
    else if e.fn == NotFn then Opposite(Meaning(env, args[0], fields, row))
    else ComparisonMeaning(env, e.fn, fields[FieldOf(args[0]).value], args[1], row)
  }

  predicate OfType(ty: ExprType, v: Value) {
    match ty
    case StringType => v.Text?
    case BoolType => v.Bool?
    case IntegerType => v.Int?
    case FloatType => v.Float?
    case TimestampType => v.Instant?
    case StringArrayType => v.TextArray?
    case OtherType => true
  }

  /** Every bound expression yields NULL or a value of its type. */
  ghost predicate RowFits(db: Database, fields: FieldBindings, row: Row) {
    forall key :: key in fields ==>
      var v := TermValue(db, fields[key].term, row);
      v.Null? || OfType(fields[key].ty, v)
  }

  // -- Correctness ------------------------------------------------------------------------------

  lemma OrderedAccepts(fn: Function, column: Term, literal: Value)
    ensures OrderedOp(fn, column, literal).Success? <==> IsEquality(fn) || IsOrdering(fn)
    ensures OrderedOp(fn, column, literal).Success? ==> OrderedOp(fn, column, literal).value != Nil
  {
  }

  lemma ListAccepts(fn: Function, column: Term, rhs: FilterExpr)
    ensures StringArrayOp(fn, column, rhs).Success? <==> Supports(StringArrayType, fn) && StringLiteral(rhs).Success?
    ensures StringArrayOp(fn, column, rhs).Success? ==> StringArrayOp(fn, column, rhs).value != Nil
  {
  }

  lemma TextAccepts(env: Env, fn: Function, column: Term, rhs: FilterExpr)
    ensures StringOp(env, fn, column, rhs).Success? <==> Supports(StringType, fn) && StringLiteral(rhs).Success?
    ensures StringOp(env, fn, column, rhs).Success? ==> StringOp(env, fn, column, rhs).value != Nil
  {
    if StringLiteral(rhs).Success? {
      OrderedAccepts(fn, column, Text(StringLiteral(rhs).value));
    }
  }

  lemma BoolAccepts(fn: Function, column: Term, rhs: FilterExpr)
    ensures BoolOp(fn, column, rhs).Success? <==> Supports(BoolType, fn) && BoolLiteral(rhs).Success?
    ensures BoolOp(fn, column, rhs).Success? ==> BoolOp(fn, column, rhs).value != Nil
  {
  }

  lemma LiteralAccepts(env: Env, fn: Function, b: Binding, rhs: FilterExpr)
    requires !SpellsNull(rhs)
    ensures ApplyComparator(env, fn, b, rhs).Success? <==> Supports(b.ty, fn) && LiteralOf(env, b.ty, rhs).Some?
    ensures ApplyComparator(env, fn, b, rhs).Success? ==> ApplyComparator(env, fn, b, rhs).value != Nil
  {
    match b.ty {
      case StringArrayType => ListAccepts(fn, b.term, rhs);
      case StringType => TextAccepts(env, fn, b.term, rhs);
      case BoolType => BoolAccepts(fn, b.term, rhs);
      case OtherType =>
      case _ =>
        if LiteralOf(env, b.ty, rhs).Some? {
          OrderedAccepts(fn, b.term, LiteralOf(env, b.ty, rhs).value);
        }
    }
  }

  /** A comparison compiles exactly when the field's type has the operator and the expression stands for a value
      of the type; against null, exactly for the two equality operators. */
  lemma ComparatorAccepts(env: Env, fn: Function, b: Binding, rhs: FilterExpr)
    ensures ApplyComparator(env, fn, b, rhs).Success? <==> Comparable(env, fn, b.ty, rhs)
    ensures ApplyComparator(env, fn, b, rhs).Success? ==> ApplyComparator(env, fn, b, rhs).value != Nil
  {
    if !SpellsNull(rhs) {
      ValueIsLiteral(env, b.ty, rhs);
      LiteralAccepts(env, fn, b, rhs);
    }
  }

  lemma ComparableIsComparison(env: Env, fn: Function, ty: ExprType, rhs: FilterExpr)
    requires Comparable(env, fn, ty, rhs)
    ensures IsComparison(fn)
  {
  }

  lemma {:induction false} JunctionAccepts(env: Env, conjunction: bool, args: seq<FilterExpr>, fields: FieldBindings)
    requires forall i :: 0 <= i < |args| ==> NonEmptyJunctions(args[i])
    ensures TranslateJunction(env, conjunction, args, fields).Success? <==>
      forall i :: 0 <= i < |args| ==> WellTyped(env, args[i], fields)
    ensures TranslateJunction(env, conjunction, args, fields).Success? && args != [] ==>
      TranslateJunction(env, conjunction, args, fields).value != Nil
    decreases args, 0
  {
    if args != [] {
      JunctionAccepts(env, conjunction, args[..|args| - 1], fields);
      TranslateAccepts(env, args[|args| - 1], fields);
    }
  }

  /** The compiler accepts exactly the well-typed filters. */
  lemma {:induction false} TranslateAccepts(env: Env, e: FilterExpr, fields: FieldBindings)
    requires NonEmptyJunctions(e)
    ensures Translate(env, e, fields).Success? <==> WellTyped(env, e, fields)
    ensures Translate(env, e, fields).Success? ==> Translate(env, e, fields).value != Nil
    decreases e, 0
  {
    if e.Call? {
      if e.fn == AndFn || e.fn == OrFn {
        JunctionAccepts(env, e.fn == AndFn, e.args, fields);
      } else if e.fn == NotFn {
        if |e.args| == 1 {
          TranslateAccepts(env, e.args[0], fields);
        }
      } else if |e.args| == 2 {
        FieldIsFlat(e.args[0]);
        if FlattenIdent(e.args[0]).Success? && FlattenIdent(e.args[0]).value in fields {
          var b := fields[FlattenIdent(e.args[0]).value];
          ComparatorAccepts(env, e.fn, b, e.args[1]);
          if Comparable(env, e.fn, b.ty, e.args[1]) {
            ComparableIsComparison(env, e.fn, b.ty, e.args[1]);
          }
        }
      }
    }
  }

  /** needle = ANY(list) is membership, NULL elements included. */
  lemma AnyIsMember(needle: string, elems: seq<Option<string>>)
    ensures AnyEq(needle, elems) == Member(needle, elems)
  {
    var ts := seq(|elems|, i requires 0 <= i < |elems| =>
      match elems[i]
      case None => Unknown
      case Some(s) => FromBool(needle == s));
    assert AnyEq(needle, elems) == OrAll(ts);
    OrAllMeaning(ts);
    if Some(needle) in elems {
      var i :| 0 <= i < |elems| && elems[i] == Some(needle);
      assert ts[i] == True;
    } else {
      assert forall i :: 0 <= i < |elems| ==> ts[i] == if elems[i].None? then Unknown else False;
      if None in elems {
        var i :| 0 <= i < |elems| && elems[i] == None;
        assert ts[i] == Unknown;
      }
    }
  }

  lemma HasMeaning(env: Env, column: Term, needle: string, row: Row)
    ensures
      var v := TermValue(env.db, column, row);
      Eval(env.db, LikeExpr(Lower(column), "%" + EscapeInThree(env.toLower(needle)) + "%"), row) ==
        if v.Text? then FromBool(Contains(env.db.lower(v.text), env.toLower(needle))) else Unknown
  {
    var v := TermValue(env.db, column, row);
    ThreePassesAreOne(env.toLower(needle));
    if v.Text? {
      SubstringExact(env.toLower(needle), env.db.lower(v.text));
    }
  }

  lemma OrderedMeaning(env: Env, fn: Function, column: Term, literal: Value, row: Row)
    requires OrderedOp(fn, column, literal).Success? && !literal.Null?
    ensures
      var v := TermValue(env.db, column, row);
      Eval(env.db, OrderedOp(fn, column, literal).value, row) ==
        if v.Null? then Unknown else FromBool(Holds(env, fn, v, literal))
  {
  }

  lemma ListMeaning(env: Env, fn: Function, column: Term, rhs: FilterExpr, row: Row)
    requires StringArrayOp(fn, column, rhs).Success?
    ensures
      var v := TermValue(env.db, column, row);
      v.TextArray? ==>
        var member := Member(StringLiteral(rhs).value, v.elems);
        Eval(env.db, StringArrayOp(fn, column, rhs).value, row) == if fn == NotEqualsFn then Not3(member) else member
    ensures TermValue(env.db, column, row).Null? ==> Eval(env.db, StringArrayOp(fn, column, rhs).value, row) == Unknown
  {
    var v := TermValue(env.db, column, row);
    if v.TextArray? {
      AnyIsMember(StringLiteral(rhs).value, v.elems);
    }
  }

  lemma BoolMeaning(env: Env, fn: Function, column: Term, rhs: FilterExpr, row: Row)
    requires BoolOp(fn, column, rhs).Success?
    ensures
      var v := TermValue(env.db, column, row);
      Eval(env.db, BoolOp(fn, column, rhs).value, row) ==
        if v.Null? then Unknown else FromBool(Holds(env, fn, v, Bool(BoolLiteral(rhs).value)))
  {
  }

  lemma TextMeaning(env: Env, fn: Function, column: Term, rhs: FilterExpr, row: Row)
    requires StringOp(env, fn, column, rhs).Success?
    requires TermValue(env.db, column, row).Null? || TermValue(env.db, column, row).Text?
    ensures
      var v := TermValue(env.db, column, row);
      Eval(env.db, StringOp(env, fn, column, rhs).value, row) ==
        if v.Null? then Unknown else FromBool(Holds(env, fn, v, Text(StringLiteral(rhs).value)))
  {
    if fn == HasFn {
      HasMeaning(env, column, StringLiteral(rhs).value, row);
    } else {
      OrderedMeaning(env, fn, column, Text(StringLiteral(rhs).value), row);
    }
  }

  lemma LiteralMeaning(env: Env, fn: Function, b: Binding, rhs: FilterExpr, row: Row)
    requires !SpellsNull(rhs) && ApplyComparator(env, fn, b, rhs).Success? && LiteralOf(env, b.ty, rhs).Some?
    requires TermValue(env.db, b.term, row).Null? || OfType(b.ty, TermValue(env.db, b.term, row))
    ensures Eval(env.db, ApplyComparator(env, fn, b, rhs).value, row) ==
      Compared(env, fn, TermValue(env.db, b.term, row), LiteralOf(env, b.ty, rhs).value)
  {
    match b.ty {
      case StringArrayType => ListMeaning(env, fn, b.term, rhs, row);
      case StringType => TextMeaning(env, fn, b.term, rhs, row);
      case BoolType => BoolMeaning(env, fn, b.term, rhs, row);
      case IntegerType => OrderedMeaning(env, fn, b.term, Int(IntegerLiteral(env, rhs).value), row);
      case FloatType => OrderedMeaning(env, fn, b.term, Float(FloatLiteral(rhs).value), row);
      case TimestampType => OrderedMeaning(env, fn, b.term, Instant(TimestampLiteral(env, rhs).value), row);
    }
  }

  lemma ComparatorMeaning(env: Env, fn: Function, b: Binding, rhs: FilterExpr, row: Row)
    requires ApplyComparator(env, fn, b, rhs).Success?
    requires TermValue(env.db, b.term, row).Null? || OfType(b.ty, TermValue(env.db, b.term, row))
    requires !SpellsNull(rhs) ==> ValueOf(env, b.ty, rhs).Some?
    ensures Eval(env.db, ApplyComparator(env, fn, b, rhs).value, row) == ComparisonMeaning(env, fn, b, rhs, row)
  {
    if !SpellsNull(rhs) {
      ValueIsLiteral(env, b.ty, rhs);
      LiteralMeaning(env, fn, b, rhs, row);
    }
  }

  ghost function Meanings(env: Env, args: seq<FilterExpr>, fields: FieldBindings, row: Row): (ts: seq<Tri>)
    requires forall i :: 0 <= i < |args| ==> WellTyped(env, args[i], fields)
    ensures |ts| == |args| && forall i :: 0 <= i < |args| ==> ts[i] == Meaning(env, args[i], fields, row)
  {
    seq(|args|, i requires 0 <= i < |args| => Meaning(env, args[i], fields, row))
  }

  /** What AND and OR make of the values of their operands. */
  ghost function JunctionValue(env: Env, conjunction: bool, args: seq<FilterExpr>, fields: FieldBindings, row: Row): Tri
    requires forall i :: 0 <= i < |args| ==> WellTyped(env, args[i], fields)
  {
    var ts := Meanings(env, args, fields, row);
    if conjunction then AndAll(ts) else OrAll(ts)
  }

  lemma JoinMeaning(db: Database, conjunction: bool, acc: Expr, term: Expr, row: Row)
    requires acc != Nil
    ensures Eval(db, Join(conjunction, acc, term), row) ==
      if conjunction then And3(Eval(db, acc, row), Eval(db, term, row))
      else Or3(Eval(db, acc, row), Eval(db, term, row))
  {
    EvalPair(db, acc, term, row);
  }

  lemma AndOrSnoc(ts: seq<Tri>, t: Tri)
    ensures AndAll(ts + [t]) == And3(AndAll(ts), t)
    ensures OrAll(ts + [t]) == Or3(OrAll(ts), t)
  {
    var all := ts + [t];
    AndAllMeaning(ts);
    AndAllMeaning(all);
    OrAllMeaning(ts);
    OrAllMeaning(all);
    assert all[|ts|] == t && forall i :: 0 <= i < |ts| ==> all[i] == ts[i];
  }

  lemma JunctionOfOne(env: Env, conjunction: bool, args: seq<FilterExpr>, fields: FieldBindings, row: Row)
    requires |args| == 1 && WellTyped(env, args[0], fields)
    requires Translate(env, args[0], fields).Success?
    ensures TranslateJunction(env, conjunction, args, fields) == Translate(env, args[0], fields)
    ensures JunctionValue(env, conjunction, args, fields, row) == Meaning(env, args[0], fields, row)
  {
    assert args[..0] == [];
    assert TranslateJunction(env, conjunction, [], fields) == Success(Nil);
    var ts := Meanings(env, args, fields, row);
    AndAllMeaning(ts);
    OrAllMeaning(ts);
  }

  lemma JunctionSplit(env: Env, conjunction: bool, args: seq<FilterExpr>, fields: FieldBindings, row: Row)
    requires args != [] && forall i :: 0 <= i < |args| ==> WellTyped(env, args[i], fields)
    ensures
      var front, last := args[..|args| - 1], args[|args| - 1];
      JunctionValue(env, conjunction, args, fields, row) ==
        if conjunction then And3(JunctionValue(env, true, front, fields, row), Meaning(env, last, fields, row))
        else Or3(JunctionValue(env, false, front, fields, row), Meaning(env, last, fields, row))
  {
    var front, last := args[..|args| - 1], args[|args| - 1];
    assert Meanings(env, args, fields, row) == Meanings(env, front, fields, row) + [Meaning(env, last, fields, row)];
    AndOrSnoc(Meanings(env, front, fields, row), Meaning(env, last, fields, row));
  }

  lemma {:induction false} JunctionPreserves(env: Env, conjunction: bool, args: seq<FilterExpr>, fields: FieldBindings,
                                              row: Row)
    requires args != [] && forall i :: 0 <= i < |args| ==> NonEmptyJunctions(args[i])
    requires forall i :: 0 <= i < |args| ==> WellTyped(env, args[i], fields)
    requires RowFits(env.db, fields, row)
    ensures TranslateJunction(env, conjunction, args, fields).Success?
    ensures Eval(env.db, TranslateJunction(env, conjunction, args, fields).value, row)
         == JunctionValue(env, conjunction, args, fields, row)
    decreases args, 0
  {
    var front, last := args[..|args| - 1], args[|args| - 1];
    TranslatePreserves(env, last, fields, row);
    if |args| == 1 {
      JunctionOfOne(env, conjunction, args, fields, row);
    } else {
      JunctionAccepts(env, conjunction, front, fields);
      JunctionPreserves(env, conjunction, front, fields, row);
      JoinMeaning(env.db, conjunction, TranslateJunction(env, conjunction, front, fields).value,
                  Translate(env, last, fields).value, row);
      JunctionSplit(env, conjunction, args, fields, row);
    }
  }

  lemma JunctionValueIsMeaning(env: Env, e: FilterExpr, fields: FieldBindings, row: Row)
    requires WellTyped(env, e, fields) && (e.fn == AndFn || e.fn == OrFn)
    ensures Meaning(env, e, fields, row) == JunctionValue(env, e.fn == AndFn, e.args, fields, row)
  {
    var ts := Meanings(env, e.args, fields, row);
    if e.fn == AndFn {
      AndAllMeaning(ts);
    } else {
      OrAllMeaning(ts);
    }
  }

  /** Compiling preserves meaning: on every row, NULLs included, the SQL expression has the filter's value. */
  lemma {:induction false} TranslatePreserves(env: Env, e: FilterExpr, fields: FieldBindings, row: Row)
    requires NonEmptyJunctions(e) && WellTyped(env, e, fields) && RowFits(env.db, fields, row)
    ensures Translate(env, e, fields).Success?
    ensures Eval(env.db, Translate(env, e, fields).value, row) == Meaning(env, e, fields, row)
    decreases e, 0
  {
    TranslateAccepts(env, e, fields);
    if e.fn == AndFn || e.fn == OrFn {
      JunctionPreserves(env, e.fn == AndFn, e.args, fields, row);
      JunctionValueIsMeaning(env, e, fields, row);
    } else if e.fn == NotFn {
      TranslatePreserves(env, e.args[0], fields, row);
    } else {
      FieldIsFlat(e.args[0]);
      ComparableIsComparison(env, e.fn, fields[FieldOf(e.args[0]).value].ty, e.args[1]);
      ComparatorMeaning(env, e.fn, fields[FieldOf(e.args[0]).value], e.args[1], row);
    }
  }
}
