/** Applying the DDL files of resolved plans in dependency order: which foreign keys find the key they reference
    in place. A file's CREATE TABLE statement carries its primary key and its foreign keys; its unique indexes
    are created after it (cmd/protoc-gen-go-jet/emit_sql.go). */
module DdlOrder {
  import opened Prelude
  import opened Precedence
  import opened TopoSort
  import opened Plans
  import opened ForeignKeys
  import opened ForeignKeyFacts

  /** The file creates the plan's table and references the tables its annotations target. */
  ghost predicate FileOf(f: File, p: ResourcePlan)
    reads set i | 0 <= i < |p.columns| && p.columns[i].foreignKey != null :: p.columns[i].foreignKey
  {
    && f.creates == [p.tableName]
    && forall table :: table in f.references <==> exists i :: 0 <= i < |p.columns| && TargetsTable(p.columns[i], table)
  }

  predicate TargetsTable(c: Column, table: string)
    reads if c.foreignKey != null then {c.foreignKey} else {}
  {
    c.foreignKey != null && c.foreignKey.targetTable == table
  }

  ghost predicate Rendered(plans: seq<ResourcePlan>, files: seq<File>)
    reads KeyObjects(plans)
  {
    |files| == |plans| && forall a :: 0 <= a < |plans| ==> FileOf(files[a], plans[a])
  }

  ghost predicate DistinctTables(plans: seq<ResourcePlan>) {
    forall a, b :: 0 <= a < b < |plans| ==> plans[a].tableName != plans[b].tableName
  }

  ghost predicate Places(plans: seq<ResourcePlan>, order: seq<nat>) {
    NoDup(order) && forall j :: 0 <= j < |order| ==> order[j] < |plans|
  }

  /** The key is in place when the CREATE TABLE statement of the file at position k runs: every key of an earlier
      file is, and of its own only the primary key. */
  ghost predicate InPlace(plans: seq<ResourcePlan>, order: seq<nat>, k: nat, table: string, key: set<string>)
    requires Places(plans, order) && k < |order|
    reads plans
  {
    exists j :: 0 <= j <= k && Provides(plans[order[j]], j < k, table, key)
  }

  ghost predicate Provides(p: ResourcePlan, applied: bool, table: string, key: set<string>)
    reads p
  {
    p.tableName == table && if applied then EmittedKey(p, p.supplementalUniques, key) else key == Members(p.primaryKey)
  }

  lemma OnlyTable(plans: seq<ResourcePlan>, order: seq<nat>, j: nat, k: nat)
    requires DistinctTables(plans) && Places(plans, order) && j < |order| && k < |order|
    requires plans[order[j]].tableName == plans[order[k]].tableName
    ensures j == k
  {
    assert order[j] == order[k];
  }

  /** The table of one plan is provided by its own file alone. */
  lemma InPlaceIff(plans: seq<ResourcePlan>, order: seq<nat>, k: nat, j: nat, key: set<string>)
    requires DistinctTables(plans) && Places(plans, order) && j <= k < |order|
    ensures InPlace(plans, order, k, plans[order[j]].tableName, key) <==>
      Provides(plans[order[j]], j < k, plans[order[j]].tableName, key)
  {
    var table := plans[order[j]].tableName;
    if i :| 0 <= i <= k && Provides(plans[order[i]], i < k, table, key) {
      OnlyTable(plans, order, i, j);
    }
  }

  lemma OwnedTable(plans: seq<ResourcePlan>, files: seq<File>, o: nat)
    requires Rendered(plans, files) && DistinctTables(plans) && o < |plans|
    ensures Owns(files, plans[o].tableName, o)
  {
    assert FileOf(files[o], plans[o]);
    forall j | o < j < |files| ensures plans[o].tableName !in files[j].creates {
      assert FileOf(files[j], plans[j]);
    }
  }

  /** Where the target of an annotation is applied: before its file, or in it. */
  lemma TargetPosition(plans: seq<ResourcePlan>, files: seq<File>, order: seq<nat>, k: nat, i: nat, o: nat)
    returns (j: nat)
    requires Rendered(plans, files) && DistinctTables(plans) && Topological(Dependencies(files), order)
    requires Places(plans, order) && k < |order| && o < |plans| && i < |plans[order[k]].columns|
    requires TargetsTable(plans[order[k]].columns[i], plans[o].tableName)
    ensures j <= k && order[j] == o && (j == k <==> o == order[k])
  {
    if o == order[k] {
      j := k;
    } else {
      OwnedTable(plans, files, o);
      assert FileOf(files[order[k]], plans[order[k]]);
      FollowsOwners(files, order, k, plans[o].tableName, o);
      j :| 0 <= j < k && order[j] == o;
    }
  }

  /** The primary key of a user-scoped table is not a key that leaves the user column out. */
  lemma PrimaryNamesUser(t: ResourcePlan, key: set<string>)
    requires WellFormedPlan(t) && UserScoped(t) && t.tenancy.value.userColumn !in key
    ensures key != Members(t.primaryKey)
  {
    assert t.tenancy.value.userColumn in t.primaryKey;
  }

  /** What decides, before the pass, whether the key that the annotation of column i of plan a needs can be in
      place in time: its target t is another table, or its own table by its primary key, and the column c it
      names is not both unique and on a user-scoped table. */
  ghost predicate CanBeInPlace(plans: seq<ResourcePlan>, a: nat, t: ResourcePlan, c: Column)
    requires a < |plans|
  {
    && (t != plans[a] || ReferencedKey(t, c) == Members(t.primaryKey))
    && !(UserScoped(t) && c.unique)
  }

  /** The DDL of resolved plans, and an order to apply its files in. */
  ghost predicate Applied(plans: seq<ResourcePlan>, files: seq<File>, order: seq<nat>)
    reads KeyObjects(plans), plans
  {
    && AllWellFormed(plans) && Resolved(plans, |plans|, 0) && Rendered(plans, files) && DistinctTables(plans)
    && Topological(Dependencies(files), order) && Places(plans, order)
  }

  /** The files of resolved plans applied in a topological order: a foreign key finds the key it references in
      place exactly when that can be. */
  lemma ReferenceInPlaceIff(plans: seq<ResourcePlan>, files: seq<File>, order: seq<nat>, k: nat, i: nat,
                            t: ResourcePlan, c: Column)
    requires Applied(plans, files, order) && k < |order| && NamesColumn(plans, order[k], i, t, c)
    ensures
      var fk := plans[order[k]].columns[i].foreignKey;
      InPlace(plans, order, k, fk.targetTable, EmittedReference(fk)) <==> CanBeInPlace(plans, order[k], t, c)
  {
    assert Visited(order[k], i, |plans|, 0) && FilledAt(plans, order[k], i);
    var named := ReferenceIsUniqueKey(plans, order[k], i);
    assert named == c && CompletionAt(plans, order[k], i).value.target == t;
    var fk := plans[order[k]].columns[i].foreignKey;
    RegistryMembers(plans);
    var o :| 0 <= o < |plans| && plans[o] == t;
    var j := TargetPosition(plans, files, order, k, i, o);
    InPlaceIff(plans, order, k, j, EmittedReference(fk));
    if j == k && UserScoped(t) {
      PrimaryNamesUser(t, EmittedReference(fk));
    }
    assert t == plans[order[k]] ==> plans[o].tableName == plans[order[k]].tableName;
  }

  /** Every annotation finds its key in place exactly when that can be. */
  ghost predicate AsForeseen(plans: seq<ResourcePlan>, order: seq<nat>)
    requires Places(plans, order)
    reads KeyObjects(plans), plans
  {
    forall k: nat, i: nat, t, c ::
      t in plans && c in t.columns && k < |order| && NamesColumn(plans, order[k], i, t, c) ==>
      var fk := plans[order[k]].columns[i].foreignKey;
      InPlace(plans, order, k, fk.targetTable, EmittedReference(fk)) <==> CanBeInPlace(plans, order[k], t, c)
  }

  lemma AllForeseen(plans: seq<ResourcePlan>, files: seq<File>, order: seq<nat>)
    requires Applied(plans, files, order)
    ensures AsForeseen(plans, order)
  {
    forall k: nat, i: nat, t, c
      | t in plans && c in t.columns && k < |order| && NamesColumn(plans, order[k], i, t, c)
      ensures
        var fk := plans[order[k]].columns[i].foreignKey;
        InPlace(plans, order, k, fk.targetTable, EmittedReference(fk)) <==> CanBeInPlace(plans, order[k], t, c)
    {
      ReferenceInPlaceIff(plans, files, order, k, i, t, c);
    }
  }

  lemma OrderPlaces(plans: seq<ResourcePlan>, files: seq<File>, order: seq<nat>)
    requires |files| == |plans| && Topological(Dependencies(files), order)
    ensures Places(plans, order) && |order| == |plans|
  {
  }

  /** The sorted files of resolved plans: they are the files permuted by an order of the plans in which every
      foreign key that can find its key in place does. It fails exactly when the files' references have a cycle. */
  method SortPlans(plans: seq<ResourcePlan>, files: seq<File>) returns (r: Result<seq<File>, seq<string>>)
    requires AllWellFormed(plans) && Resolved(plans, |plans|, 0) && Rendered(plans, files) && DistinctTables(plans)
    ensures r.Success? <==> !Cyclic(Dependencies(files))
    ensures r.Success? ==> exists order ::
      IsPick(files, order, r.value) && Places(plans, order) && |order| == |plans| && AsForeseen(plans, order)
  {
    r := TopoSortDdl(files);
    if r.Success? {
      ghost var order :| IsPick(files, order, r.value) && LeastTopological(Dependencies(files), order);
      OrderPlaces(plans, files, order);
      AllForeseen(plans, files, order);
    }
  }
}
