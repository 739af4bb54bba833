/** The cross-plan foreign-key pass (cmd/protoc-gen-go-jet/resolve_fk.go): it completes every annotation in
    place and adds the unique constraints that tenant-composite keys need to their target plans. */
module ForeignKeys {
  import opened Prelude
  import opened Plans

  datatype FkError = UnknownMessage | UnknownField | AsymmetricTenancy | NotEligible | NameTooLong

  /** What the pass decides for one foreign key; demand is the unique constraint its target must gain. */
  datatype Completion = Completion(
    target: ResourcePlan,
    targetColumn: string,
    backingIndex: bool,
    demand: Option<Unique>)

  // -- Names ------------------------------------------------------------------------------------

  function LastDot(s: string): (i: int)
    ensures -1 <= i < |s|
  {
    if s == [] then -1 else if s[|s| - 1] == '.' then |s| - 1 else LastDot(s[..|s| - 1])
  }

  /** The message and field a target names; a simple message name is taken from the referring package. */
  function SplitTarget(raw: string, selfFqn: string): (string, string)
    requires LastDot(raw) >= 0
  {
    var message, field := raw[..LastDot(raw)], raw[LastDot(raw) + 1..];
    if message != [] && message[0] == '.' then (message[1..], field)
    else if LastDot(selfFqn) > 0 then (selfFqn[..LastDot(selfFqn)] + "." + message, field)
    else (message, field)
  }

  function ConstraintName(p: ResourcePlan, c: Column): string { p.tableName + "_" + c.dbName + "_fkey" }

  function BackingIndexName(p: ResourcePlan, c: Column): string { "idx_" + p.tableName + "_" + c.dbName + "_fk" }

  function SupplementalName(table: string, tenant: string, column: string): string {
    "uq_" + table + "_" + tenant + "_" + column
  }

  predicate NameFits(name: string) { |name| <= 63 }

  // -- Pure parts -------------------------------------------------------------------------------

  function FindColumn(columns: seq<Column>, protoField: string): Option<Column> {
    if columns == [] then None
    else if !columns[0].synthesized && columns[0].protoField == protoField then Some(columns[0])
    else FindColumn(columns[1..], protoField)
  }

  lemma {:induction false} FoundColumn(columns: seq<Column>, protoField: string)
    requires FindColumn(columns, protoField).Some?
    ensures exists i ::
      0 <= i < |columns| && columns[i] == FindColumn(columns, protoField).value && !columns[i].synthesized
  {
    if columns[0].synthesized || columns[0].protoField != protoField {
      FoundColumn(columns[1..], protoField);
      var found := FindColumn(columns, protoField).value;
      var i :| 0 <= i < |columns[1..]| && columns[1..][i] == found && !columns[1..][i].synthesized;
      assert columns[i + 1] == columns[1..][i];
    }
  }

  predicate Eligible(p: ResourcePlan, c: Column) {
    p.primaryKey == [c.dbName] || c.unique
  }

  /** The primary key is the pair of tenant column and target column, in either order. */
  predicate PkCoversPair(target: ResourcePlan, column: string) {
    && target.tenancy.Some?
    && (|| target.primaryKey == [target.tenancy.value.column, column]
        || target.primaryKey == [column, target.tenancy.value.column])
    && column != target.tenancy.value.column
  }

  method TargetPkCoversTenantComposite(target: ResourcePlan, column: string) returns (covers: bool)
    ensures covers <==> PkCoversPair(target, column)
  {
    if target.tenancy.None? || |target.primaryKey| != 2 {
      return false;
    }
    var want := {target.tenancy.value.column, column};
    ghost var all := want;
    for k := 0 to |target.primaryKey|
      invariant want == all - Members(target.primaryKey[..k])
      invariant forall a, b :: 0 <= a < b < k ==> target.primaryKey[a] != target.primaryKey[b]
      invariant forall a :: 0 <= a < k ==> target.primaryKey[a] in all
    {
      if target.primaryKey[k] !in want {
        if k == 1 && target.primaryKey[0] == target.primaryKey[1] {
          assert target.primaryKey[..1] == [target.primaryKey[0]];
        }
        return false;
      }
      assert target.primaryKey[..k + 1] == target.primaryKey[..k] + [target.primaryKey[k]];
      want := want - {target.primaryKey[k]};
    }
    assert target.primaryKey == [target.primaryKey[0], target.primaryKey[1]];
    return want == {};
  }

  /** Some index already has the column as its leading key. */
  predicate Covered(p: ResourcePlan, column: string) {
    || (p.primaryKey != [] && p.primaryKey[0] == column)
    || (exists i :: 0 <= i < |p.indexes| && p.indexes[i].columns != [] && p.indexes[i].columns[0] == column)
    || (exists i :: 0 <= i < |p.columns| && p.columns[i].dbName == column && p.columns[i].unique && p.tenancy.None?)
  }

  method ColumnAlreadyCovered(p: ResourcePlan, column: string) returns (covered: bool)
    ensures covered <==> Covered(p, column)
  {
    if |p.primaryKey| > 0 && p.primaryKey[0] == column {
      return true;
    }
    for i := 0 to |p.indexes|
      invariant forall k :: 0 <= k < i ==> p.indexes[k].columns == [] || p.indexes[k].columns[0] != column
    {
      if |p.indexes[i].columns| > 0 && p.indexes[i].columns[0] == column {
        return true;
      }
    }
    for i := 0 to |p.columns|
      invariant forall k :: 0 <= k < i ==> !(p.columns[k].dbName == column && p.columns[k].unique && p.tenancy.None?)
    {
      if p.columns[i].dbName == column && p.columns[i].unique && p.tenancy.None? {
        return true;
      }
    }
    return false;
  }

  /** The pair constraint a tenant-composite key needs when neither primary key nor unique column gives it. */
  function Demand(target: ResourcePlan, c: Column): Option<Unique> {
    match target.tenancy
    case None => None
    case Some(t) =>
      if PkCoversPair(target, c.dbName) || c.unique then None
      else Some(Unique(SupplementalName(target.tableName, t.column, c.dbName), [t.column, c.dbName]))
  }

  predicate HasForeignKey(p: ResourcePlan, i: nat) {
    i < |p.columns| && p.columns[i].foreignKey != null && LastDot(p.columns[i].foreignKey.rawTarget) >= 0
  }

  /** The decision for the foreign key of column i of p; it reads nothing that the pass writes. */
  function Complete(p: ResourcePlan, i: nat, byFqn: map<string, ResourcePlan>): Result<Completion, FkError>
    requires HasForeignKey(p, i)
  {
    var c := p.columns[i];
    var (fqn, field) := SplitTarget(c.foreignKey.rawTarget, p.fqn);
    if fqn !in byFqn then Failure(UnknownMessage)
    else
      var target := byFqn[fqn];
      var found := FindColumn(target.columns, field);
      if found.None? then Failure(UnknownField)
      else if p.tenancy.Some? != target.tenancy.Some? then Failure(AsymmetricTenancy)
      else if p.tenancy.None? && !Eligible(target, found.value) then Failure(NotEligible)
      else
        var backing := c.foreignKey.annotatedIndex && !Covered(p, c.dbName);
        if backing && !NameFits(BackingIndexName(p, c)) then Failure(NameTooLong)
        else if !NameFits(ConstraintName(p, c)) then Failure(NameTooLong)
        else Success(Completion(target, found.value.dbName, backing, Demand(target, found.value)))
  }

  // -- The pass ---------------------------------------------------------------------------------

  predicate AsParsed(fk: ForeignKey)
    reads fk
  {
    && fk.backingIndex == fk.annotatedIndex
    && fk.indexName == "" && !fk.tenantComposite && fk.localTenantColumn == "" && fk.targetTenantColumn == ""
  }

  function TenantColumn(p: ResourcePlan): string { if p.tenancy.Some? then p.tenancy.value.column else "" }

  /** The fields of a foreign key that has been completed. */
  predicate Filled(fk: ForeignKey, p: ResourcePlan, c: Column, done: Completion)
    reads fk
  {
    && fk.targetTable == done.target.tableName
    && fk.targetColumn == done.targetColumn
    && fk.constraintName == ConstraintName(p, c)
    && fk.backingIndex == done.backingIndex
    && fk.indexName == (if done.backingIndex then BackingIndexName(p, c) else "")
    && fk.tenantComposite == p.tenancy.Some?
    && fk.localTenantColumn == TenantColumn(p)
    && fk.targetTenantColumn == TenantColumn(done.target)
  }

  predicate HasName(uniques: seq<Unique>, name: string) {
    exists k :: 0 <= k < |uniques| && uniques[k].name == name
  }

  function AddUnique(uniques: seq<Unique>, demand: Option<Unique>): seq<Unique> {
    if demand.None? || HasName(uniques, demand.value.name) then uniques else uniques + [demand.value]
  }

  method AddSupplementalUnique(p: ResourcePlan, uq: Unique)
    modifies p`supplementalUniques
    ensures p.supplementalUniques == AddUnique(old(p.supplementalUniques), Some(uq))
  {
    for k := 0 to |p.supplementalUniques|
      invariant forall j :: 0 <= j < k ==> p.supplementalUniques[j].name != uq.name
    {
      if p.supplementalUniques[k].name == uq.name {
        return;
      }
    }
    p.supplementalUniques := p.supplementalUniques + [uq];
  }

  /** Keep the backing index unless some index already leads with the column. */
  method ChooseBackingIndex(p: ResourcePlan, c: Column, fk: ForeignKey) returns (r: Result<(), FkError>)
    requires fk.indexName == ""
    modifies fk`backingIndex, fk`indexName
    ensures
      var backing := old(fk.backingIndex) && !Covered(p, c.dbName);
      && fk.backingIndex == backing
      && fk.indexName == (if backing then BackingIndexName(p, c) else "")
      && r == if backing && !NameFits(BackingIndexName(p, c)) then Failure(NameTooLong) else Success(())
  {
    if fk.backingIndex {
      var covered := ColumnAlreadyCovered(p, c.dbName);
      if covered {
        fk.backingIndex := false;
      } else {
        fk.indexName := BackingIndexName(p, c);
        if !NameFits(fk.indexName) {
          return Failure(NameTooLong);
        }
      }
    }
    return Success(());
  }

  /** Give the target the pair constraint unless its primary key or a unique column already covers the pair. */
  method InjectUnique(target: ResourcePlan, c: Column)
    requires target.tenancy.Some?
    modifies target`supplementalUniques
    ensures target.supplementalUniques == AddUnique(old(target.supplementalUniques), Demand(target, c))
  {
    var covers := TargetPkCoversTenantComposite(target, c.dbName);
    if !covers && !c.unique {
      var tenant := target.tenancy.value.column;
      AddSupplementalUnique(target, Unique(SupplementalName(target.tableName, tenant, c.dbName), [tenant, c.dbName]));
    }
  }

  /** The plan a foreign key refers to, if it is registered. */
  function Targets(p: ResourcePlan, i: nat, byFqn: map<string, ResourcePlan>): set<ResourcePlan>
    requires HasForeignKey(p, i)
  {
    var (fqn, _) := SplitTarget(p.columns[i].foreignKey.rawTarget, p.fqn);
    if fqn in byFqn then {byFqn[fqn]} else {}
  }

  /** What a completion demands of a plan. */
  function DemandOn(done: Completion, t: ResourcePlan): Option<Unique> {
    if t == done.target then done.demand else None
  }

  /** Write what the annotation references, and under which name. */
  method FillReference(p: ResourcePlan, c: Column, fk: ForeignKey, target: ResourcePlan, column: string)
    requires p.tenancy.Some? == target.tenancy.Some? && AsParsed(fk)
    modifies fk
    ensures fk.targetTable == target.tableName && fk.targetColumn == column && fk.constraintName == ConstraintName(p, c)
    ensures fk.tenantComposite == p.tenancy.Some?
    ensures fk.localTenantColumn == TenantColumn(p) && fk.targetTenantColumn == TenantColumn(target)
    ensures fk.backingIndex == old(fk.backingIndex) && fk.indexName == ""
  {
    fk.targetTable := target.tableName;
    fk.targetColumn := column;
    fk.constraintName := ConstraintName(p, c);
    if p.tenancy.Some? {
      fk.tenantComposite := true;
      fk.localTenantColumn := p.tenancy.value.column;
      fk.targetTenantColumn := target.tenancy.value.column;
    }
  }

  method CompleteFk(p: ResourcePlan, i: nat, byFqn: map<string, ResourcePlan>) returns (r: Result<(), FkError>)
    requires HasForeignKey(p, i) && AsParsed(p.columns[i].foreignKey)
    modifies p.columns[i].foreignKey, Targets(p, i, byFqn)
    ensures r.Success? <==> Complete(p, i, byFqn).Success?
    ensures r.Failure? ==> r.error == Complete(p, i, byFqn).error
    ensures r.Success? ==> Filled(p.columns[i].foreignKey, p, p.columns[i], Complete(p, i, byFqn).value)
    ensures r.Success? ==>
      var done := Complete(p, i, byFqn).value;
      done.target.supplementalUniques == AddUnique(old(done.target.supplementalUniques), done.demand)
  {
    var c := p.columns[i];
    var fk := c.foreignKey;
    var (fqn, field) := SplitTarget(fk.rawTarget, p.fqn);
    if fqn !in byFqn {
      return Failure(UnknownMessage);
    }
    var target := byFqn[fqn];
    var found := FindColumn(target.columns, field);
    if found.None? {
      return Failure(UnknownField);
    }
    if p.tenancy.Some? != target.tenancy.Some? {
      return Failure(AsymmetricTenancy);
    }
    if p.tenancy.None? && !Eligible(target, found.value) {
      return Failure(NotEligible);
    }
    FillReference(p, c, fk, target, found.value.dbName);
    if p.tenancy.Some? {
      InjectUnique(target, found.value);
    }
    r := ChooseBackingIndex(p, c, fk);
    if r.Failure? {
      return;
    }
    if !NameFits(fk.constraintName) {
      return Failure(NameTooLong);
    }
    return Success(());
  }

  // -- All plans --------------------------------------------------------------------------------

  /** The last plan with a name is the one registered. */
  function Registry(plans: seq<ResourcePlan>): map<string, ResourcePlan> {
    if plans == [] then map[]
    else
      var last := plans[|plans| - 1];
      Registry(plans[..|plans| - 1])[last.fqn := last]
  }

  lemma {:induction false} RegistryMembers(plans: seq<ResourcePlan>)
    ensures forall f :: f in Registry(plans) ==> Registry(plans)[f] in plans && Registry(plans)[f].fqn == f
    ensures forall p :: p in plans ==> p.fqn in Registry(plans)
  {
    if plans != [] {
      RegistryMembers(plans[..|plans| - 1]);
      assert plans == plans[..|plans| - 1] + [plans[|plans| - 1]];
    }
  }

  ghost function KeyObjects(plans: seq<ResourcePlan>): set<object> {
    set p, i | p in plans && 0 <= i < |p.columns| && p.columns[i].foreignKey != null :: p.columns[i].foreignKey
  }

  /** Plans are distinct, and each annotation belongs to one column and has a well-formed target. */
  ghost predicate Annotated(plans: seq<ResourcePlan>) {
    && (forall a, b :: 0 <= a < b < |plans| ==> plans[a] != plans[b])
    && (forall a, i :: 0 <= a < |plans| && 0 <= i < |plans[a].columns| && plans[a].columns[i].foreignKey != null ==>
         LastDot(plans[a].columns[i].foreignKey.rawTarget) >= 0)
    && forall a: nat, i: nat, b: nat, j: nat ::
         Site(plans, a, i) && Site(plans, b, j) && plans[a].columns[i].foreignKey == plans[b].columns[j].foreignKey ==>
           a == b && i == j
  }

  /** A column that carries an annotation. */
  ghost predicate Site(plans: seq<ResourcePlan>, a: nat, i: nat) {
    a < |plans| && HasForeignKey(plans[a], i)
  }

  /** Comes before position (n, m) in the order of the pass. */
  predicate Visited(a: nat, i: nat, n: nat, m: nat) { a < n || (a == n && i < m) }

  ghost function CompletionAt(plans: seq<ResourcePlan>, a: nat, i: nat): Result<Completion, FkError>
    requires Site(plans, a, i)
  {
    Complete(plans[a], i, Registry(plans))
  }

  /** The annotation at (a, i) needs this constraint on t. */
  ghost predicate Demands(plans: seq<ResourcePlan>, a: nat, i: nat, t: ResourcePlan, uq: Unique) {
    && Site(plans, a, i)
    && CompletionAt(plans, a, i).Success?
    && CompletionAt(plans, a, i).value.target == t
    && CompletionAt(plans, a, i).value.demand == Some(uq)
  }

  ghost predicate Demanded(plans: seq<ResourcePlan>, n: nat, m: nat, t: ResourcePlan, uq: Unique) {
    exists a: nat, i: nat :: Demands(plans, a, i, t, uq) && Visited(a, i, n, m)
  }

  ghost predicate DistinctNames(uniques: seq<Unique>) {
    forall j, k :: 0 <= j < k < |uniques| ==> uniques[j].name != uniques[k].name
  }

  ghost predicate FilledAt(plans: seq<ResourcePlan>, a: nat, i: nat)
    requires Site(plans, a, i)
    reads plans[a].columns[i].foreignKey
  {
    && CompletionAt(plans, a, i).Success?
    && Filled(plans[a].columns[i].foreignKey, plans[a], plans[a].columns[i], CompletionAt(plans, a, i).value)
  }

  /** Annotations not yet visited are as parsed. */
  ghost predicate Pending(plans: seq<ResourcePlan>, n: nat, m: nat)
    reads KeyObjects(plans)
  {
    forall a: nat, i: nat :: Site(plans, a, i) && !Visited(a, i, n, m) ==> AsParsed(plans[a].columns[i].foreignKey)
  }

  /** Visited annotations are filled in. */
  ghost predicate FilledBefore(plans: seq<ResourcePlan>, n: nat, m: nat)
    reads KeyObjects(plans)
  {
    forall a: nat, i: nat :: Site(plans, a, i) && Visited(a, i, n, m) ==> FilledAt(plans, a, i)
  }

  type Uniques = map<ResourcePlan, seq<Unique>>

  ghost function UniquesNow(plans: seq<ResourcePlan>): Uniques
    reads plans
  {
    map t | t in plans :: t.supplementalUniques
  }

  /** Each plan has exactly the constraints demanded of it so far, each once. */
  ghost predicate UniquesMatch(plans: seq<ResourcePlan>, uniques: Uniques, n: nat, m: nat) {
    forall t :: t in plans ==>
      t in uniques && DistinctNames(uniques[t]) && SameAsDemanded(plans, n, m, t, uniques[t])
  }

  ghost predicate SameAsDemanded(plans: seq<ResourcePlan>, n: nat, m: nat, t: ResourcePlan, uniques: seq<Unique>) {
    forall uq :: uq in uniques <==> Demanded(plans, n, m, t, uq)
  }

  /** Visited annotations are filled in, and each plan has exactly the constraints they demand of it. */
  ghost predicate Resolved(plans: seq<ResourcePlan>, n: nat, m: nat)
    reads KeyObjects(plans), plans
  {
    FilledBefore(plans, n, m) && UniquesMatch(plans, UniquesNow(plans), n, m)
  }

  lemma SameNameSameColumn(table: string, tenant: string, a: string, b: string)
    requires SupplementalName(table, tenant, a) == SupplementalName(table, tenant, b)
    ensures a == b
  {
    var prefix := "uq_" + table + "_" + tenant + "_";
    assert SupplementalName(table, tenant, a) == prefix + a && SupplementalName(table, tenant, b) == prefix + b;
    assert (prefix + a)[|prefix|..] == a && (prefix + b)[|prefix|..] == b;
  }

  /** On one table a constraint's name determines the constraint. */
  lemma NameDetermines(plans: seq<ResourcePlan>, a: nat, i: nat, b: nat, j: nat, t: ResourcePlan, u: Unique, v: Unique)
    requires Demands(plans, a, i, t, u) && Demands(plans, b, j, t, v) && u.name == v.name
    ensures u == v
  {
    SameNameSameColumn(t.tableName, t.tenancy.value.column, u.columns[1], v.columns[1]);
  }

  lemma DemandedStep(plans: seq<ResourcePlan>, n: nat, m: nat, t: ResourcePlan, uq: Unique)
    ensures Demanded(plans, n, m + 1, t, uq) <==> Demanded(plans, n, m, t, uq) || Demands(plans, n, m, t, uq)
  {
    if a: nat, i: nat :| Demands(plans, a, i, t, uq) && Visited(a, i, n, m + 1) {
      assert Visited(a, i, n, m) || (a == n && i == m);
    }
    assert Visited(n, m, n, m + 1);
  }

  lemma DemandedRow(plans: seq<ResourcePlan>, n: nat, t: ResourcePlan, uq: Unique)
    requires n < |plans|
    ensures Demanded(plans, n + 1, 0, t, uq) <==> Demanded(plans, n, |plans[n].columns|, t, uq)
  {
    if a: nat, i: nat :| Demands(plans, a, i, t, uq) && Visited(a, i, n + 1, 0) {
      assert Visited(a, i, n, |plans[n].columns|);
    }
    if a: nat, i: nat :| Demands(plans, a, i, t, uq) && Visited(a, i, n, |plans[n].columns|) {
      assert Visited(a, i, n + 1, 0);
    }
  }

  /** Adding one demand to the constraints demanded so far. */
  lemma UniquesStep(plans: seq<ResourcePlan>, n: nat, m: nat, t: ResourcePlan, before: seq<Unique>)
    requires t in plans && Site(plans, n, m) && CompletionAt(plans, n, m).Success?
    requires DistinctNames(before) && SameAsDemanded(plans, n, m, t, before)
    ensures
      var after := AddUnique(before, DemandOn(CompletionAt(plans, n, m).value, t));
      DistinctNames(after) && SameAsDemanded(plans, n, m + 1, t, after)
  {
    var done := CompletionAt(plans, n, m).value;
    var demand := DemandOn(done, t);
    forall uq ensures Demanded(plans, n, m + 1, t, uq) <==> uq in before || demand == Some(uq) {
      DemandedStep(plans, n, m, t, uq);
    }
    if demand.Some? && HasName(before, demand.value.name) {
      var k :| 0 <= k < |before| && before[k].name == demand.value.name;
      assert before[k] in before;
      var a: nat, i: nat :| Demands(plans, a, i, t, before[k]) && Visited(a, i, n, m);
      NameDetermines(plans, a, i, n, m, t, before[k], demand.value);
    }
  }

  ghost predicate UniquesAdvance(plans: seq<ResourcePlan>, n: nat, m: nat, before: Uniques, after: Uniques)
    requires Site(plans, n, m) && CompletionAt(plans, n, m).Success?
  {
    forall t :: t in plans ==>
      t in before && t in after && after[t] == AddUnique(before[t], DemandOn(CompletionAt(plans, n, m).value, t))
  }

  lemma UniquesNext(plans: seq<ResourcePlan>, n: nat, m: nat, before: Uniques, after: Uniques)
    requires Site(plans, n, m) && CompletionAt(plans, n, m).Success?
    requires UniquesMatch(plans, before, n, m) && UniquesAdvance(plans, n, m, before, after)
    ensures UniquesMatch(plans, after, n, m + 1)
  {
    forall t | t in plans ensures DistinctNames(after[t]) && SameAsDemanded(plans, n, m + 1, t, after[t]) {
      UniquesStep(plans, n, m, t, before[t]);
    }
  }

  ghost predicate AllComplete(plans: seq<ResourcePlan>, n: nat, m: nat) {
    forall a: nat, i: nat :: Site(plans, a, i) && Visited(a, i, n, m) ==> CompletionAt(plans, a, i).Success?
  }

  /** Position (n, m) holds no annotation, or is the end of a row. */
  lemma SkipColumn(plans: seq<ResourcePlan>, n: nat, m: nat)
    requires n < |plans| && !Site(plans, n, m)
    ensures Resolved(plans, n, m) ==> Resolved(plans, n, m + 1)
    ensures Pending(plans, n, m) ==> Pending(plans, n, m + 1)
    ensures AllComplete(plans, n, m) <==> AllComplete(plans, n, m + 1)
  {
    forall t, uq ensures Demanded(plans, n, m + 1, t, uq) <==> Demanded(plans, n, m, t, uq) {
      DemandedStep(plans, n, m, t, uq);
    }
    forall a: nat, i: nat | Site(plans, a, i) ensures Visited(a, i, n, m) <==> Visited(a, i, n, m + 1) {}
  }

  lemma NextRow(plans: seq<ResourcePlan>, n: nat)
    requires n < |plans|
    ensures Resolved(plans, n, |plans[n].columns|) ==> Resolved(plans, n + 1, 0)
    ensures Pending(plans, n, |plans[n].columns|) ==> Pending(plans, n + 1, 0)
    ensures AllComplete(plans, n, |plans[n].columns|) <==> AllComplete(plans, n + 1, 0)
  {
    forall t, uq ensures Demanded(plans, n + 1, 0, t, uq) <==> Demanded(plans, n, |plans[n].columns|, t, uq) {
      DemandedRow(plans, n, t, uq);
    }
    forall a: nat, i: nat | Site(plans, a, i)
      ensures Visited(a, i, n, |plans[n].columns|) <==> Visited(a, i, n + 1, 0)
    {}
  }

  /** Where the pass stands: later annotations are untouched, and unless one before has failed, everything
      before is resolved. */
  ghost predicate PassState(plans: seq<ResourcePlan>, n: nat, m: nat, ok: bool)
    reads KeyObjects(plans), plans
  {
    Pending(plans, n, m) && (ok <==> AllComplete(plans, n, m)) && (ok ==> Resolved(plans, n, m))
  }

  lemma OwnAnnotation(plans: seq<ResourcePlan>, n: nat, m: nat, a: nat, i: nat)
    requires Annotated(plans) && Site(plans, n, m) && Site(plans, a, i) && (a != n || i != m)
    ensures plans[a].columns[i].foreignKey != plans[n].columns[m].foreignKey
  {
  }

  /** Complete the annotation at (n, m); the annotations of other columns stay as they are. */
  method ResolveSite(plans: seq<ResourcePlan>, byFqn: map<string, ResourcePlan>, n: nat, m: nat)
    returns (r: Result<(), FkError>)
    requires Annotated(plans) && byFqn == Registry(plans) && Site(plans, n, m)
    requires AsParsed(plans[n].columns[m].foreignKey)
    modifies KeyObjects(plans), plans
    ensures forall a: nat, i: nat :: Site(plans, a, i) && (a != n || i != m) ==>
      unchanged(plans[a].columns[i].foreignKey)
    ensures r.Success? <==> CompletionAt(plans, n, m).Success?
    ensures r.Success? ==> FilledAt(plans, n, m)
    ensures r.Success? ==> forall t :: t in plans ==>
      t.supplementalUniques == AddUnique(old(t.supplementalUniques), DemandOn(CompletionAt(plans, n, m).value, t))
  {
    RegistryMembers(plans);
    var (fqn, _) := SplitTarget(plans[n].columns[m].foreignKey.rawTarget, plans[n].fqn);
    assert Targets(plans[n], m, byFqn) == if fqn in byFqn then {byFqn[fqn]} else {};
    r := CompleteFk(plans[n], m, byFqn);
    forall a: nat, i: nat | Site(plans, a, i) && (a != n || i != m) ensures unchanged(plans[a].columns[i].foreignKey) {
      OwnAnnotation(plans, n, m, a, i);
    }
  }

  method ResolveColumn(plans: seq<ResourcePlan>, byFqn: map<string, ResourcePlan>, n: nat, m: nat, before: bool)
    returns (ok: bool)
    requires Annotated(plans) && byFqn == Registry(plans) && n < |plans| && m < |plans[n].columns|
    requires PassState(plans, n, m, before)
    modifies KeyObjects(plans), plans
    ensures PassState(plans, n, m + 1, ok)
  {
    ok := before;
    if plans[n].columns[m].foreignKey == null {
      SkipColumn(plans, n, m);
    } else {
      ghost var uniques := UniquesNow(plans);
      assert Site(plans, n, m) && !Visited(n, m, n, m);
      var r := ResolveSite(plans, byFqn, n, m);
      forall a: nat, i: nat | Site(plans, a, i) && !Visited(a, i, n, m + 1)
        ensures AsParsed(plans[a].columns[i].foreignKey)
      {
        assert old(AsParsed(plans[a].columns[i].foreignKey));
      }
      ok := before && r.Success?;
      AllCompleteStep(plans, n, m);
      if ok {
        UniquesNext(plans, n, m, uniques, UniquesNow(plans));
        forall a: nat, i: nat | Site(plans, a, i) && Visited(a, i, n, m) ensures FilledAt(plans, a, i) {
          assert old(FilledAt(plans, a, i));
        }
        FilledNext(plans, n, m);
      }
    }
  }

  lemma FilledNext(plans: seq<ResourcePlan>, n: nat, m: nat)
    requires Site(plans, n, m) && FilledBefore(plans, n, m) && FilledAt(plans, n, m)
    ensures FilledBefore(plans, n, m + 1)
  {
    forall a: nat, i: nat ensures Visited(a, i, n, m + 1) <==> Visited(a, i, n, m) || (a == n && i == m) {}
  }

  lemma AllCompleteStep(plans: seq<ResourcePlan>, n: nat, m: nat)
    requires Site(plans, n, m)
    ensures AllComplete(plans, n, m + 1) <==> AllComplete(plans, n, m) && CompletionAt(plans, n, m).Success?
  {
    assert Visited(n, m, n, m + 1);
    forall a: nat, i: nat ensures Visited(a, i, n, m + 1) <==> Visited(a, i, n, m) || (a == n && i == m) {}
  }

  method BuildRegistry(plans: seq<ResourcePlan>) returns (byFqn: map<string, ResourcePlan>)
    ensures byFqn == Registry(plans)
  {
    byFqn := map[];
    for a := 0 to |plans|
      invariant byFqn == Registry(plans[..a])
    {
      assert plans[..a + 1][..a] == plans[..a];
      byFqn := byFqn[plans[a].fqn := plans[a]];
    }
    assert plans[..|plans|] == plans;
  }

  lemma StartState(plans: seq<ResourcePlan>)
    requires Pending(plans, 0, 0) && forall t :: t in plans ==> t.supplementalUniques == []
    ensures PassState(plans, 0, 0, true)
  {
  }

  method ResolvePlan(plans: seq<ResourcePlan>, byFqn: map<string, ResourcePlan>, n: nat, before: bool)
    returns (ok: bool)
    requires Annotated(plans) && byFqn == Registry(plans) && n < |plans| && PassState(plans, n, 0, before)
    modifies KeyObjects(plans), plans
    ensures PassState(plans, n + 1, 0, ok)
  {
    ok := before;
    for m := 0 to |plans[n].columns|
      invariant PassState(plans, n, m, ok)
    {
      ok := ResolveColumn(plans, byFqn, n, m, ok);
    }
    NextRow(plans, n);
  }

  /** The pass succeeds exactly when every annotation can be completed; then every annotation is filled in
      accordingly, and every plan has exactly the constraints demanded of it, each once. */
  method ResolveForeignKeys(plans: seq<ResourcePlan>) returns (ok: bool)
    requires Annotated(plans) && Pending(plans, 0, 0)
    requires forall t :: t in plans ==> t.supplementalUniques == []
    modifies KeyObjects(plans), plans
    ensures ok <==> AllComplete(plans, |plans|, 0)
    ensures ok ==> Resolved(plans, |plans|, 0)
  {
    var byFqn := BuildRegistry(plans);
    StartState(plans);
    ok := true;
    for n := 0 to |plans|
      invariant PassState(plans, n, 0, ok)
    {
      ok := ResolvePlan(plans, byFqn, n, ok);
    }
  }
}
