/** What the foreign-key pass guarantees: which references hit a unique key of their target, that the order of
    the plans does not matter, and that no unique key sees across tenants. */
module ForeignKeyFacts {
  import opened Prelude
  import opened Plans
  import opened ForeignKeys

  /** Checked plans whose tenancy columns are the synthesised ones. */
  ghost predicate WellFormedPlan(p: ResourcePlan) { Validated(p) && TenancySynthesised(p) }

  predicate UserScoped(t: ResourcePlan) { t.tenancy.Some? && t.tenancy.value.userScoped }

  /** The columns a foreign key to this column references. */
  function ReferencedKey(t: ResourcePlan, c: Column): set<string> {
    (if t.tenancy.Some? then {t.tenancy.value.column} else {}) + {c.dbName}
  }

  ghost predicate ProtoColumn(t: ResourcePlan, c: Column) {
    exists k :: 0 <= k < |t.columns| && t.columns[k] == c && !c.synthesized
  }

  /** The supplemental constraints are demands for proto columns of the table. */
  ghost predicate DemandsOnly(t: ResourcePlan, supplemental: seq<Unique>) {
    forall uq :: uq in supplemental ==>
      exists k :: 0 <= k < |t.columns| && !t.columns[k].synthesized && Demand(t, t.columns[k]) == Some(uq)
  }

  lemma ProtoNamesDiffer(t: ResourcePlan, c: Column, d: Column)
    requires WellFormedPlan(t) && ProtoColumn(t, c) && ProtoColumn(t, d) && c.dbName == d.dbName
    ensures c == d
  {
    var i :| 0 <= i < |t.columns| && t.columns[i] == c;
    var j :| 0 <= j < |t.columns| && t.columns[j] == d;
    assert i == j;
  }

  lemma ProtoNotScope(t: ResourcePlan, c: Column)
    requires WellFormedPlan(t) && ProtoColumn(t, c) && t.tenancy.Some?
    ensures c.dbName != t.tenancy.value.column
    ensures UserScoped(t) ==>
      c.dbName != t.tenancy.value.userColumn && t.tenancy.value.userColumn != t.tenancy.value.column
  {
    var i :| 0 <= i < |t.columns| && t.columns[i] == c;
    ProtoColumnIsOwn(t, i);
    var scope := ScopeColumns(t.tenancy);
    assert scope[0] == t.tenancy.value.column;
    if UserScoped(t) {
      assert scope[1] == t.tenancy.value.userColumn;
      assert t.columns[0].dbName == scope[0] && t.columns[1].dbName == scope[1];
    }
  }

  /** On a user-scoped table every unscoped unique key names the user column, supplemental ones aside. */
  lemma UserColumnInKeys(t: ResourcePlan, key: set<string>)
    requires WellFormedPlan(t) && UserScoped(t) && EmittedKey(t, [], key)
    ensures t.tenancy.value.userColumn in key && t.tenancy.value.column in key
  {
    var scope := ScopeColumns(t.tenancy);
    assert scope[0] == t.tenancy.value.column && scope[1] == t.tenancy.value.userColumn;
    assert scope[0] in Members(scope) && scope[1] in Members(scope);
  }

  lemma DemandedPair(t: ResourcePlan, supplemental: seq<Unique>, uq: Unique) returns (c: Column)
    requires DemandsOnly(t, supplemental) && uq in supplemental
    ensures ProtoColumn(t, c) && t.tenancy.Some? && !c.unique
    ensures Members(uq.columns) == {t.tenancy.value.column, c.dbName}
  {
    var k :| 0 <= k < |t.columns| && !t.columns[k].synthesized && Demand(t, t.columns[k]) == Some(uq);
    c := t.columns[k];
    var tenant := t.tenancy.value.column;
    assert uq.columns == [tenant, c.dbName];
    assert Members([tenant, c.dbName]) == {tenant, c.dbName};
  }

  /** A unique column of a user-scoped table: no emitted key consists of the tenant column and that column. */
  lemma NotEmitted(t: ResourcePlan, supplemental: seq<Unique>, c: Column)
    requires WellFormedPlan(t) && ProtoColumn(t, c) && UserScoped(t) && c.unique && DemandsOnly(t, supplemental)
    ensures !EmittedKey(t, supplemental, ReferencedKey(t, c))
  {
    var key := ReferencedKey(t, c);
    ProtoNotScope(t, c);
    assert t.tenancy.value.userColumn !in key;
    if EmittedKey(t, [], key) {
      UserColumnInKeys(t, key);
    }
    forall i | 0 <= i < |supplemental| ensures key != Members(supplemental[i].columns) {
      var d := DemandedPair(t, supplemental, supplemental[i]);
      ProtoNotScope(t, d);
      if key == Members(supplemental[i].columns) {
        assert d.dbName in key;
        ProtoNamesDiffer(t, c, d);
      }
    }
  }

  lemma Emitted(t: ResourcePlan, supplemental: seq<Unique>, c: Column)
    requires WellFormedPlan(t) && ProtoColumn(t, c) && !(UserScoped(t) && c.unique)
    requires Demand(t, c).Some? ==> Demand(t, c).value in supplemental
    requires t.tenancy.None? ==> Eligible(t, c)
    ensures EmittedKey(t, supplemental, ReferencedKey(t, c))
  {
    var key := ReferencedKey(t, c);
    var k :| 0 <= k < |t.columns| && t.columns[k] == c;
    if c.unique {
      assert Members(ScopeColumns(t.tenancy)) == if t.tenancy.None? then {} else {t.tenancy.value.column};
      assert key == UniqueColumnKey(t, t.columns[k]);
    } else if t.tenancy.None? {
      assert Members([c.dbName]) == {c.dbName};
    } else {
      var tenant := t.tenancy.value.column;
      assert Members([tenant, c.dbName]) == {tenant, c.dbName} == Members([c.dbName, tenant]);
      if !PkCoversPair(t, c.dbName) {
        var i :| 0 <= i < |supplemental| && supplemental[i] == Demand(t, c).value;
        assert supplemental[i].columns == [tenant, c.dbName];
      }
    }
  }

  /** The key that a foreign key to this column references is emitted exactly when the column is not both unique
      and on a user-scoped table; there it leaves the user column out in either case. */
  lemma EmittedIff(t: ResourcePlan, supplemental: seq<Unique>, c: Column)
    requires WellFormedPlan(t) && ProtoColumn(t, c) && DemandsOnly(t, supplemental)
    requires Demand(t, c).Some? ==> Demand(t, c).value in supplemental
    requires t.tenancy.None? ==> Eligible(t, c)
    ensures !(UserScoped(t) && c.unique) <==> EmittedKey(t, supplemental, ReferencedKey(t, c))
    ensures UserScoped(t) ==> t.tenancy.value.userColumn !in ReferencedKey(t, c)
  {
    if t.tenancy.Some? {
      ProtoNotScope(t, c);
    }
    if UserScoped(t) && c.unique {
      NotEmitted(t, supplemental, c);
    } else {
      Emitted(t, supplemental, c);
    }
  }

  // -- After a successful pass ------------------------------------------------------------------

  ghost predicate AllWellFormed(plans: seq<ResourcePlan>) {
    forall a :: 0 <= a < |plans| ==> WellFormedPlan(plans[a])
  }

  /** The annotation of column i of plan a names column c of plan t. */
  ghost predicate NamesColumn(plans: seq<ResourcePlan>, a: nat, i: nat, t: ResourcePlan, c: Column) {
    && Site(plans, a, i)
    && var (fqn, field) := SplitTarget(plans[a].columns[i].foreignKey.rawTarget, plans[a].fqn);
       fqn in Registry(plans) && Registry(plans)[fqn] == t && FindColumn(t.columns, field) == Some(c)
  }

  lemma TargetFacts(plans: seq<ResourcePlan>, a: nat, i: nat) returns (c: Column)
    requires AllWellFormed(plans) && Site(plans, a, i) && CompletionAt(plans, a, i).Success?
    ensures
      var done := CompletionAt(plans, a, i).value;
      && done.target in plans && WellFormedPlan(done.target)
      && NamesColumn(plans, a, i, done.target, c)
      && ProtoColumn(done.target, c) && c.dbName == done.targetColumn && done.demand == Demand(done.target, c)
      && plans[a].tenancy.Some? == done.target.tenancy.Some?
      && (done.target.tenancy.None? ==> Eligible(done.target, c))
  {
    RegistryMembers(plans);
    var (fqn, field) := SplitTarget(plans[a].columns[i].foreignKey.rawTarget, plans[a].fqn);
    var target := Registry(plans)[fqn];
    FoundColumn(target.columns, field);
    c := FindColumn(target.columns, field).value;
  }

  lemma SupplementalsAreDemands(plans: seq<ResourcePlan>, t: ResourcePlan)
    requires AllWellFormed(plans) && Resolved(plans, |plans|, 0) && t in plans
    ensures DemandsOnly(t, t.supplementalUniques)
  {
    forall uq | uq in t.supplementalUniques
      ensures exists k :: 0 <= k < |t.columns| && !t.columns[k].synthesized && Demand(t, t.columns[k]) == Some(uq)
    {
      var a: nat, i: nat :| Demands(plans, a, i, t, uq) && Visited(a, i, |plans|, 0);
      var c := TargetFacts(plans, a, i);
      var k :| 0 <= k < |t.columns| && t.columns[k] == c;
    }
  }

  /** The columns a completed foreign key references in the DDL. */
  function EmittedReference(fk: ForeignKey): set<string>
    reads fk
  {
    (if fk.tenantComposite then {fk.targetTenantColumn} else {}) + {fk.targetColumn}
  }

  /** After a successful pass, a foreign key references a unique key that its target's DDL declares exactly
      when the target column is not both unique and on a user-scoped table. What it references on a
      user-scoped table leaves the user column out in either case. */
  lemma ReferenceIsUniqueKey(plans: seq<ResourcePlan>, a: nat, i: nat) returns (c: Column)
    requires AllWellFormed(plans) && Resolved(plans, |plans|, 0) && Site(plans, a, i)
    ensures CompletionAt(plans, a, i).Success?
    ensures
      var t := CompletionAt(plans, a, i).value.target;
      && NamesColumn(plans, a, i, t, c)
      && ProtoColumn(t, c) && c.dbName == plans[a].columns[i].foreignKey.targetColumn
      && EmittedReference(plans[a].columns[i].foreignKey) == ReferencedKey(t, c)
      && (!(UserScoped(t) && c.unique) <==>
           EmittedKey(t, t.supplementalUniques, EmittedReference(plans[a].columns[i].foreignKey)))
      && (UserScoped(t) ==> t.tenancy.value.userColumn !in EmittedReference(plans[a].columns[i].foreignKey))
  {
    assert Visited(a, i, |plans|, 0) && FilledAt(plans, a, i);
    c := TargetFacts(plans, a, i);
    var done := CompletionAt(plans, a, i).value;
    var t := done.target;
    assert EmittedReference(plans[a].columns[i].foreignKey) == ReferencedKey(t, c);
    SupplementalsAreDemands(plans, t);
    if done.demand.Some? {
      assert Demands(plans, a, i, t, done.demand.value);
      assert Demanded(plans, |plans|, 0, t, done.demand.value);
    }
    EmittedIff(t, t.supplementalUniques, c);
  }

  type TableRow = map<string, string>

  /** Two rows agree on every column of a key. */
  ghost predicate Conflict(key: set<string>, r: TableRow, s: TableRow) {
    forall n :: n in key ==> n in r && n in s && r[n] == s[n]
  }

  /** A key declared with the table names the tenant column, and on a user-scoped table the user column. */
  lemma DeclaredKey(t: ResourcePlan, key: set<string>)
    requires WellFormedPlan(t) && t.tenancy.Some? && EmittedKey(t, [], key)
    ensures t.tenancy.value.column in key
    ensures UserScoped(t) ==> t.tenancy.value.userColumn in key
  {
    var scope := ScopeColumns(t.tenancy);
    assert scope[0] == t.tenancy.value.column && scope[0] in Members(scope);
    if UserScoped(t) {
      UserColumnInKeys(t, key);
    }
  }

  /** A supplemental key names the tenant column and leaves the user column out. */
  lemma SupplementalKey(t: ResourcePlan, supplemental: seq<Unique>, uq: Unique)
    requires WellFormedPlan(t) && DemandsOnly(t, supplemental) && uq in supplemental
    ensures t.tenancy.Some? && t.tenancy.value.column in Members(uq.columns)
    ensures UserScoped(t) ==> t.tenancy.value.userColumn !in Members(uq.columns)
  {
    var c := DemandedPair(t, supplemental, uq);
    ProtoNotScope(t, c);
  }

  lemma KeyIsDeclaredOrSupplemental(t: ResourcePlan, supplemental: seq<Unique>, key: set<string>)
    requires EmittedKey(t, supplemental, key)
    ensures EmittedKey(t, [], key) || exists uq :: uq in supplemental && key == Members(uq.columns)
  {
    if i :| 0 <= i < |supplemental| && key == Members(supplemental[i].columns) {
      assert supplemental[i] in supplemental;
    }
  }

  /** Both rows have the column, with the same value. */
  predicate Same(column: string, r: TableRow, s: TableRow) {
    column in r && column in s && r[column] == s[column]
  }

  /** After a successful pass, rows of different tenants never conflict on a unique key of a tenant-scoped
      table. */
  lemma TenantsApart(plans: seq<ResourcePlan>, t: ResourcePlan, key: set<string>, r: TableRow, s: TableRow)
    requires AllWellFormed(plans) && Resolved(plans, |plans|, 0) && t in plans && t.tenancy.Some?
    requires EmittedKey(t, t.supplementalUniques, key) && Conflict(key, r, s)
    ensures Same(t.tenancy.value.column, r, s)
  {
    SupplementalsAreDemands(plans, t);
    KeyIsDeclaredOrSupplemental(t, t.supplementalUniques, key);
    if EmittedKey(t, [], key) {
      DeclaredKey(t, key);
    } else {
      var uq :| uq in t.supplementalUniques && key == Members(uq.columns);
      SupplementalKey(t, t.supplementalUniques, uq);
    }
  }

  /** Rows of different users never conflict on a unique key of the table. */
  ghost predicate UsersApart(t: ResourcePlan, supplemental: seq<Unique>)
    requires UserScoped(t)
  {
    forall key, r, s ::
      EmittedKey(t, supplemental, key) && Conflict(key, r, s) ==> Same(t.tenancy.value.userColumn, r, s)
  }

  /** The row that agrees with every other such row on all columns but the user. */
  function RowOf(key: set<string>, userColumn: string, user: string): TableRow {
    map n | n in key + {userColumn} :: if n == userColumn then user else ""
  }

  lemma UsersApartIffNoneAdded(t: ResourcePlan, supplemental: seq<Unique>)
    requires WellFormedPlan(t) && UserScoped(t) && DemandsOnly(t, supplemental)
    ensures UsersApart(t, supplemental) <==> supplemental == []
  {
    var user := t.tenancy.value.userColumn;
    if supplemental == [] {
      forall key, r, s | EmittedKey(t, supplemental, key) && Conflict(key, r, s) ensures Same(user, r, s) {
        DeclaredKey(t, key);
      }
    } else {
      var uq := supplemental[0];
      var key := Members(uq.columns);
      SupplementalKey(t, supplemental, uq);
      assert EmittedKey(t, supplemental, key);
      assert Conflict(key, RowOf(key, user, "alice"), RowOf(key, user, "bob"));
      assert !Same(user, RowOf(key, user, "alice"), RowOf(key, user, "bob"));
    }
  }

  lemma UserScopedDemand(t: ResourcePlan, c: Column)
    requires WellFormedPlan(t) && UserScoped(t) && ProtoColumn(t, c) && !c.unique
    ensures Demand(t, c).Some?
  {
    ProtoNotScope(t, c);
    assert t.tenancy.value.userColumn in t.primaryKey;
  }

  /** A constraint is demanded of a user-scoped table for each column an annotation names that is not unique. */
  lemma DemandedForUserScoped(plans: seq<ResourcePlan>, a: nat, i: nat, t: ResourcePlan, c: Column)
    requires AllWellFormed(plans) && Resolved(plans, |plans|, 0) && t in plans && UserScoped(t)
    requires NamesColumn(plans, a, i, t, c) && !c.unique
    ensures t.supplementalUniques != []
  {
    assert Visited(a, i, |plans|, 0) && FilledAt(plans, a, i);
    FoundColumn(t.columns, SplitTarget(plans[a].columns[i].foreignKey.rawTarget, plans[a].fqn).1);
    UserScopedDemand(t, c);
    var uq := Demand(t, c).value;
    assert Demands(plans, a, i, t, uq);
    assert Demanded(plans, |plans|, 0, t, uq) && uq in t.supplementalUniques;
  }

  lemma NamedIfAdded(plans: seq<ResourcePlan>, t: ResourcePlan) returns (a: nat, i: nat, c: Column)
    requires Resolved(plans, |plans|, 0) && t in plans && t.supplementalUniques != []
    ensures NamesColumn(plans, a, i, t, c) && !c.unique
  {
    var uq := t.supplementalUniques[0];
    assert uq in t.supplementalUniques && t in UniquesNow(plans);
    assert Demanded(plans, |plans|, 0, t, uq);
    a, i :| Demands(plans, a, i, t, uq);
    c := FindColumn(t.columns, SplitTarget(plans[a].columns[i].foreignKey.rawTarget, plans[a].fqn).1).value;
  }

  /** After a successful pass over a user-scoped table, rows of different users are kept apart by every unique
      key exactly when no annotation names a column of the table that is not unique. */
  lemma UsersApartIff(plans: seq<ResourcePlan>, t: ResourcePlan)
    requires AllWellFormed(plans) && Resolved(plans, |plans|, 0) && t in plans && UserScoped(t)
    ensures UsersApart(t, t.supplementalUniques) <==>
      !exists a: nat, i: nat, c :: NamesColumn(plans, a, i, t, c) && !c.unique
  {
    SupplementalsAreDemands(plans, t);
    UsersApartIffNoneAdded(t, t.supplementalUniques);
    if a: nat, i: nat, c :| NamesColumn(plans, a, i, t, c) && !c.unique {
      DemandedForUserScoped(plans, a, i, t, c);
    }
    if t.supplementalUniques != [] {
      var a, i, c := NamedIfAdded(plans, t);
    }
  }

  // -- Order of the plans -----------------------------------------------------------------------

  ghost predicate DistinctFqns(plans: seq<ResourcePlan>) {
    forall a, b :: 0 <= a < b < |plans| ==> plans[a].fqn != plans[b].fqn
  }

  ghost predicate SamePlans(plans: seq<ResourcePlan>, other: seq<ResourcePlan>) {
    multiset(plans) == multiset(other)
  }

  lemma SameMembers(plans: seq<ResourcePlan>, other: seq<ResourcePlan>)
    requires SamePlans(plans, other)
    ensures forall p :: p in plans <==> p in other
  {
    forall p ensures p in plans <==> p in other {
      assert p in plans <==> p in multiset(plans);
      assert p in other <==> p in multiset(other);
    }
  }

  lemma {:induction false} RegistryExact(plans: seq<ResourcePlan>, p: ResourcePlan)
    requires DistinctFqns(plans) && p in plans
    ensures p.fqn in Registry(plans) && Registry(plans)[p.fqn] == p
  {
    var front, last := plans[..|plans| - 1], plans[|plans| - 1];
    if p != last {
      assert plans == front + [last] && p in front;
      RegistryExact(front, p);
      var k :| 0 <= k < |front| && front[k] == p;
      assert plans[k].fqn != last.fqn;
    }
  }

  lemma SameRegistry(plans: seq<ResourcePlan>, other: seq<ResourcePlan>)
    requires DistinctFqns(plans) && DistinctFqns(other) && SamePlans(plans, other)
    ensures Registry(plans) == Registry(other)
  {
    SameMembers(plans, other);
    RegistryMembers(plans);
    RegistryMembers(other);
    forall f | f in Registry(plans) ensures f in Registry(other) && Registry(other)[f] == Registry(plans)[f] {
      RegistryExact(other, Registry(plans)[f]);
    }
    forall f | f in Registry(other) ensures f in Registry(plans) {
      RegistryExact(plans, Registry(other)[f]);
    }
  }

  /** The pass does not depend on the order of the plans: whatever permutation it is given, it makes the same
      decision for every annotation, so it succeeds or fails alike, and demands the same constraints of every
      plan. */
  lemma OrderDoesNotMatter(plans: seq<ResourcePlan>, other: seq<ResourcePlan>)
    requires DistinctFqns(plans) && DistinctFqns(other) && SamePlans(plans, other)
    ensures forall a: nat, b: nat, i: nat :: Site(plans, a, i) && b < |other| && other[b] == plans[a] ==>
      Site(other, b, i) && CompletionAt(other, b, i) == CompletionAt(plans, a, i)
    ensures AllComplete(plans, |plans|, 0) <==> AllComplete(other, |other|, 0)
    ensures forall t, uq :: Demanded(plans, |plans|, 0, t, uq) <==> Demanded(other, |other|, 0, t, uq)
  {
    SameRegistry(plans, other);
    CompleteTransfers(plans, other);
    CompleteTransfers(other, plans);
    forall t, uq ensures Demanded(plans, |plans|, 0, t, uq) <==> Demanded(other, |other|, 0, t, uq) {
      DemandTransfers(plans, other, t, uq);
      DemandTransfers(other, plans, t, uq);
    }
  }

  /** The fields the pass fills in. */
  twostate predicate SameFields(fk: ForeignKey)
    reads fk
  {
    && fk.targetTable == old(fk.targetTable) && fk.targetColumn == old(fk.targetColumn)
    && fk.constraintName == old(fk.constraintName)
    && fk.backingIndex == old(fk.backingIndex) && fk.indexName == old(fk.indexName)
    && fk.tenantComposite == old(fk.tenantComposite)
    && fk.localTenantColumn == old(fk.localTenantColumn) && fk.targetTenantColumn == old(fk.targetTenantColumn)
  }

  /** Two successful passes, one over the plans and one over a permutation of them, leave the same fields in
      every annotation and the same constraints, each once, on every plan. */
  twostate lemma SameOutcome(plans: seq<ResourcePlan>, other: seq<ResourcePlan>)
    requires DistinctFqns(plans) && DistinctFqns(other) && SamePlans(plans, other)
    requires old(Resolved(plans, |plans|, 0)) && Resolved(other, |other|, 0)
    ensures forall a: nat, i: nat :: Site(plans, a, i) ==> SameFields(plans[a].columns[i].foreignKey)
    ensures forall t, uq :: t in plans ==> (uq in t.supplementalUniques <==> uq in old(t.supplementalUniques))
    ensures forall t :: t in plans ==>
      DistinctNames(t.supplementalUniques) && DistinctNames(old(t.supplementalUniques))
  {
    OrderDoesNotMatter(plans, other);
    SameMembers(plans, other);
    forall a: nat, i: nat | Site(plans, a, i) ensures SameFields(plans[a].columns[i].foreignKey) {
      assert Visited(a, i, |plans|, 0) && old(FilledAt(plans, a, i));
      assert plans[a] in other;
      var b :| 0 <= b < |other| && other[b] == plans[a];
      assert Site(other, b, i) && Visited(b, i, |other|, 0) && FilledAt(other, b, i);
    }
    forall t | t in plans
      ensures DistinctNames(t.supplementalUniques) && DistinctNames(old(t.supplementalUniques))
      ensures forall uq :: uq in t.supplementalUniques <==> uq in old(t.supplementalUniques)
    {
      assert t in UniquesNow(other) && t in old(UniquesNow(plans));
    }
  }

  lemma CompleteTransfers(plans: seq<ResourcePlan>, other: seq<ResourcePlan>)
    requires Registry(plans) == Registry(other) && SamePlans(plans, other)
    ensures AllComplete(plans, |plans|, 0) ==> AllComplete(other, |other|, 0)
  {
    SameMembers(plans, other);
    if AllComplete(plans, |plans|, 0) {
      forall b: nat, i: nat | Site(other, b, i) && Visited(b, i, |other|, 0)
        ensures CompletionAt(other, b, i).Success?
      {
        assert other[b] in plans;
        var a :| 0 <= a < |plans| && plans[a] == other[b];
        assert Site(plans, a, i) && Visited(a, i, |plans|, 0);
      }
    }
  }

  lemma DemandTransfers(plans: seq<ResourcePlan>, other: seq<ResourcePlan>, t: ResourcePlan, uq: Unique)
    requires Registry(plans) == Registry(other) && SamePlans(plans, other)
    ensures Demanded(plans, |plans|, 0, t, uq) ==> Demanded(other, |other|, 0, t, uq)
  {
    SameMembers(plans, other);
    if a: nat, i: nat :| Demands(plans, a, i, t, uq) && Visited(a, i, |plans|, 0) {
      assert plans[a] in other;
      var b :| 0 <= b < |other| && other[b] == plans[a];
      assert Demands(other, b, i, t, uq) && Visited(b, i, |other|, 0);
    }
  }
}
