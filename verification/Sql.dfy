/** The fragment of PostgreSQL that the repository compiles to: values, three-valued logic,
    scalar and row comparison, LIKE, and boolean expressions evaluated on one row. */
module Sql {
  import opened Prelude

  datatype Tri = True | False | Unknown

  function FromBool(b: bool): Tri { if b then True else False }

  function And3(a: Tri, b: Tri): Tri {
    if a.False? || b.False? then False else if a.True? && b.True? then True else Unknown
  }

  function Or3(a: Tri, b: Tri): Tri {
    if a.True? || b.True? then True else if a.False? && b.False? then False else Unknown
  }

  function Not3(a: Tri): Tri {
    match a
    case True => False
    case False => True
    case Unknown => Unknown
  }

  function AndAll(ts: seq<Tri>): Tri {
    if ts == [] then True else And3(ts[0], AndAll(ts[1..]))
  }

  function OrAll(ts: seq<Tri>): Tri {
    if ts == [] then False else Or3(ts[0], OrAll(ts[1..]))
  }

  lemma {:induction false} AndAllMeaning(ts: seq<Tri>)
    ensures AndAll(ts) == True <==> forall i :: 0 <= i < |ts| ==> ts[i] == True
    ensures AndAll(ts) == False <==> exists i :: 0 <= i < |ts| && ts[i] == False
  {
    if ts != [] {
      var rest := ts[1..];
      AndAllMeaning(rest);
      assert forall i :: 0 <= i < |rest| ==> rest[i] == ts[i + 1];
      assert forall i :: 0 < i < |ts| ==> ts[i] == rest[i - 1];
    }
  }

  lemma {:induction false} OrAllMeaning(ts: seq<Tri>)
    ensures OrAll(ts) == True <==> exists i :: 0 <= i < |ts| && ts[i] == True
    ensures OrAll(ts) == False <==> forall i :: 0 <= i < |ts| ==> ts[i] == False
  {
    if ts != [] {
      var rest := ts[1..];
      OrAllMeaning(rest);
      assert forall i :: 0 <= i < |rest| ==> rest[i] == ts[i + 1];
      assert forall i :: 0 < i < |ts| ==> ts[i] == rest[i - 1];
    }
  }

  /** Column values. An array element may itself be NULL. */
  datatype Value =
    | Null
    | Text(text: string)
    | Bool(flag: bool)
    | Int(number: int)
    | Float(measure: real)
    | Instant(nanos: int)
    | TextArray(elems: seq<Option<string>>)

  /** A row, keyed by the SQL text of the column (or JSONB accessor) that yields each value. */
  type Row = map<string, Value>

  function Get(row: Row, column: string): Value {
    if column in row then row[column] else Null
  }

  /** What differs between database installations: the collation and the LOWER function. */
  datatype Database = Database(collate: (string, string) -> bool, lower: string -> string)

  ghost predicate TotalOrder(less: (string, string) -> bool) {
    && (forall a :: !less(a, a))
    && (forall a, b, c :: less(a, b) && less(b, c) ==> less(a, c))
    && (forall a, b :: a == b || less(a, b) || less(b, a))
  }

  /** Strict order on two non-NULL values of one type. */
  predicate Less(db: Database, a: Value, b: Value) {
    match (a, b)
    case (Text(s), Text(t)) => db.collate(s, t)
    case (Bool(p), Bool(q)) => !p && q
    case (Int(i), Int(j)) => i < j
    case (Float(x), Float(y)) => x < y
    case (Instant(x), Instant(y)) => x < y
    case _ => false
  }

  datatype Op = Eq | Ne | Lt | Le | Gt | Ge

  function Compare3(db: Database, op: Op, a: Value, b: Value): Tri {
    if a.Null? || b.Null? then Unknown
    else
      FromBool(
        match op
        case Eq => a == b
        case Ne => a != b
        case Lt => Less(db, a, b)
        case Le => Less(db, a, b) || a == b
        case Gt => Less(db, b, a)
        case Ge => Less(db, b, a) || a == b)
  }

  /** ROW(ls) op ROW(rs) for a strict op: the first pair that is unequal or has a NULL decides. */
  function RowCompare3(db: Database, op: Op, ls: seq<Value>, rs: seq<Value>): Tri {
    if ls == [] || rs == [] then False
    else if ls[0] == rs[0] && !ls[0].Null? then RowCompare3(db, op, ls[1..], rs[1..])
    else Compare3(db, op, ls[0], rs[0])
  }

  /** LIKE with backslash as escape character. A pattern that ends in a lone backslash is an error in
      PostgreSQL; LikePatternOk rules it out. */
  predicate Like(pattern: string, text: string)
    decreases |pattern|, |text|
  {
    if pattern == [] then text == []
    else if pattern[0] == '%' then Like(pattern[1..], text) || (text != [] && Like(pattern, text[1..]))
    else if text == [] then false
    else if pattern[0] == '_' then Like(pattern[1..], text[1..])
    else if pattern[0] == '\\' && |pattern| > 1 then pattern[1] == text[0] && Like(pattern[2..], text[1..])
    else pattern[0] == text[0] && Like(pattern[1..], text[1..])
  }

  predicate LikePatternOk(pattern: string) {
    if pattern == [] then true
    else if pattern[0] == '\\' then |pattern| > 1 && LikePatternOk(pattern[2..])
    else LikePatternOk(pattern[1..])
  }

  /** scalar = ANY(array) */
  function AnyEq(needle: string, elems: seq<Option<string>>): Tri {
    OrAll(seq(|elems|, i requires 0 <= i < |elems| =>
      match elems[i]
      case None => Unknown
      case Some(s) => FromBool(needle == s)))
  }

  datatype Term =
    | Column(name: string)
    | Literal(value: Value)
    | Lower(arg: Term)

  /** Boolean SQL expressions. Nil is Go's nil interface: no expression at all. */
  datatype Expr =
    | Nil
    | Compare(op: Op, left: Term, right: Term)
    | RowCompare(rowOp: Op, lefts: seq<Term>, rights: seq<Term>)
    | IsNull(arg: Term)
    | IsNotNull(arg: Term)
    | LikeExpr(subject: Term, pattern: string)
    | EqAny(needle: string, array: Term)
    | Not(inner: Expr)
    | And(args: seq<Expr>)
    | Or(args: seq<Expr>)

  function TermValue(db: Database, t: Term, row: Row): Value {
    match t
    case Column(name) => Get(row, name)
    case Literal(v) => v
    case Lower(arg) =>
      var v := TermValue(db, arg, row);
      if v.Text? then Text(db.lower(v.text)) else Null
  }

  function TermValues(db: Database, ts: seq<Term>, row: Row): seq<Value> {
    seq(|ts|, i requires 0 <= i < |ts| => TermValue(db, ts[i], row))
  }

  function Eval(db: Database, e: Expr, row: Row): Tri {
    match e
    case Nil => Unknown
    case Compare(op, l, r) => Compare3(db, op, TermValue(db, l, row), TermValue(db, r, row))
    case RowCompare(op, ls, rs) => RowCompare3(db, op, TermValues(db, ls, row), TermValues(db, rs, row))
    case IsNull(t) => FromBool(TermValue(db, t, row).Null?)
    case IsNotNull(t) => FromBool(!TermValue(db, t, row).Null?)
    case LikeExpr(t, p) =>
      var v := TermValue(db, t, row);
      if v.Text? then FromBool(Like(p, v.text)) else Unknown
    case EqAny(s, t) =>
      var v := TermValue(db, t, row);
      if v.TextArray? then AnyEq(s, v.elems) else Unknown
    case Not(a) => Not3(Eval(db, a, row))
    case And(es) => AndAll(seq(|es|, i requires 0 <= i < |es| => Eval(db, es[i], row)))
    case Or(es) => OrAll(seq(|es|, i requires 0 <= i < |es| => Eval(db, es[i], row)))
  }

  function Evals(db: Database, es: seq<Expr>, row: Row): (ts: seq<Tri>)
  {
    seq(|es|, i requires 0 <= i < |es| => Eval(db, es[i], row))
  }

  lemma EvalUnfold(db: Database, es: seq<Expr>, row: Row)
    ensures Eval(db, And(es), row) == AndAll(Evals(db, es, row))
    ensures Eval(db, Or(es), row) == OrAll(Evals(db, es, row))
  {
  }

  lemma EvalPair(db: Database, a: Expr, b: Expr, row: Row)
    ensures Eval(db, And([a, b]), row) == And3(Eval(db, a, row), Eval(db, b, row))
    ensures Eval(db, Or([a, b]), row) == Or3(Eval(db, a, row), Eval(db, b, row))
  {
    var ts := Evals(db, [a, b], row);
    EvalUnfold(db, [a, b], row);
    AndAllMeaning(ts);
    OrAllMeaning(ts);
    assert ts[0] == Eval(db, a, row) && ts[1] == Eval(db, b, row);
  }

  /** An AND is TRUE exactly when every operand is, FALSE exactly when some operand is. */
  lemma EvalAnd(db: Database, es: seq<Expr>, row: Row)
    ensures Eval(db, And(es), row) == True <==> forall i :: 0 <= i < |es| ==> Eval(db, es[i], row) == True
    ensures Eval(db, And(es), row) == False <==> exists i :: 0 <= i < |es| && Eval(db, es[i], row) == False
  {
    var ts := Evals(db, es, row);
    assert Eval(db, And(es), row) == AndAll(ts);
    AndAllMeaning(ts);
    assert forall i :: 0 <= i < |es| ==> ts[i] == Eval(db, es[i], row);
  }

  /** An OR is TRUE exactly when some operand is, FALSE exactly when every operand is. */
  lemma EvalOr(db: Database, es: seq<Expr>, row: Row)
    ensures Eval(db, Or(es), row) == True <==> exists i :: 0 <= i < |es| && Eval(db, es[i], row) == True
    ensures Eval(db, Or(es), row) == False <==> forall i :: 0 <= i < |es| ==> Eval(db, es[i], row) == False
  {
    var ts := Evals(db, es, row);
    assert Eval(db, Or(es), row) == OrAll(ts);
    OrAllMeaning(ts);
    assert forall i :: 0 <= i < |es| ==> ts[i] == Eval(db, es[i], row);
  }
}
