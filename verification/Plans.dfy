/** Resolved table plans (cmd/protoc-gen-go-jet/plan.go, resolve.go) and the unique keys their DDL declares
    (emit_sql.go). */
module Plans {
  import opened Prelude

  /** A foreign-key annotation; the fields declared var are filled in by the cross-plan pass. */
  class ForeignKey {
    const rawTarget: string
    const annotatedIndex: bool
    var backingIndex: bool
    var targetTable: string
    var targetColumn: string
    var constraintName: string
    var indexName: string
    var tenantComposite: bool
    var localTenantColumn: string
    var targetTenantColumn: string

    constructor (rawTarget: string, index: Option<bool>)
      ensures this.rawTarget == rawTarget && annotatedIndex == backingIndex == (index.None? || index.value)
      ensures targetTable == targetColumn == constraintName == indexName == ""
      ensures !tenantComposite && localTenantColumn == targetTenantColumn == ""
    {
      this.rawTarget := rawTarget;
      annotatedIndex := index.None? || index.value;
      backingIndex := index.None? || index.value;
      targetTable, targetColumn, constraintName, indexName := "", "", "", "";
      tenantComposite, localTenantColumn, targetTenantColumn := false, "", "";
    }
  }

  datatype Column = Column(dbName: string, protoField: string, synthesized: bool, unique: bool, foreignKey: ForeignKey?)

  datatype Index = Index(name: string, columns: seq<string>, unique: bool, where: string)

  datatype Tenancy = Tenancy(column: string, userScoped: bool, userColumn: string)

  datatype Unique = Unique(name: string, columns: seq<string>)

  class ResourcePlan {
    const fqn: string
    const tableName: string
    const primaryKey: seq<string>
    const indexes: seq<Index>
    const tenancy: Option<Tenancy>
    const columns: seq<Column>
    var supplementalUniques: seq<Unique>

    constructor (fqn: string, tableName: string, primaryKey: seq<string>, indexes: seq<Index>,
                 tenancy: Option<Tenancy>, columns: seq<Column>)
      ensures this.fqn == fqn && this.tableName == tableName && this.primaryKey == primaryKey
      ensures this.indexes == indexes && this.tenancy == tenancy && this.columns == columns
      ensures supplementalUniques == []
    {
      this.fqn, this.tableName, this.primaryKey := fqn, tableName, primaryKey;
      this.indexes, this.tenancy, this.columns := indexes, tenancy, columns;
      supplementalUniques := [];
    }
  }

  function Members(names: seq<string>): set<string> { set n | n in names }

  // -- Validation -------------------------------------------------------------------------------

  predicate DistinctColumns(columns: seq<Column>) {
    forall i, j :: 0 <= i < j < |columns| ==> columns[i].dbName != columns[j].dbName
  }

  /** A key of a tenant-scoped table names the tenant column, and the user column if rows are per user. */
  predicate Scoped(tenancy: Option<Tenancy>, key: seq<string>) {
    tenancy.Some? ==>
      tenancy.value.column in key && (tenancy.value.userScoped ==> tenancy.value.userColumn in key)
  }

  /** The checks of validatePlan on column names, the primary key and the unique indexes. */
  predicate Validated(p: ResourcePlan) {
    && DistinctColumns(p.columns)
    && p.primaryKey != []
    && Scoped(p.tenancy, p.primaryKey)
    && forall i :: 0 <= i < |p.indexes| && p.indexes[i].unique && p.indexes[i].where == "" ==>
      Scoped(p.tenancy, p.indexes[i].columns)
  }

  /** The columns of the row-level-security boundary. */
  function ScopeColumns(tenancy: Option<Tenancy>): seq<string> {
    match tenancy
    case None => []
    case Some(t) => [t.column] + if t.userScoped then [t.userColumn] else []
  }

  /** Rows of different tenants, or of different users where rows are per user, can agree on the key. */
  ghost predicate LeavesScopeOut(tenancy: Option<Tenancy>, key: seq<string>) {
    exists column :: column in ScopeColumns(tenancy) && column !in key
  }

  /** A plan is refused exactly for two columns of one name, an empty primary key, or a primary key or non-partial
      unique index that leaves out a column of the row-level-security boundary. */
  lemma RefusedIff(p: ResourcePlan)
    ensures !Validated(p) <==>
      || (exists i, j :: 0 <= i < j < |p.columns| && p.columns[i].dbName == p.columns[j].dbName)
      || p.primaryKey == []
      || LeavesScopeOut(p.tenancy, p.primaryKey)
      || exists i :: 0 <= i < |p.indexes| && p.indexes[i].unique && p.indexes[i].where == ""
           && LeavesScopeOut(p.tenancy, p.indexes[i].columns)
  {
    ScopedIff(p.tenancy, p.primaryKey);
    forall i | 0 <= i < |p.indexes|
      ensures Scoped(p.tenancy, p.indexes[i].columns) <==> !LeavesScopeOut(p.tenancy, p.indexes[i].columns)
    {
      ScopedIff(p.tenancy, p.indexes[i].columns);
    }
  }

  lemma ScopedIff(tenancy: Option<Tenancy>, key: seq<string>)
    ensures Scoped(tenancy, key) <==> !LeavesScopeOut(tenancy, key)
  {
    if tenancy.Some? {
      var scope := ScopeColumns(tenancy);
      assert scope[0] == tenancy.value.column && scope[0] in scope;
      if tenancy.value.userScoped {
        assert scope[1] == tenancy.value.userColumn && scope[1] in scope;
      }
    }
  }

  method RequireColumn(key: seq<string>, column: string) returns (found: bool)
    ensures found <==> column in key
  {
    for i := 0 to |key|
      invariant column !in key[..i]
    {
      if key[i] == column {
        return true;
      }
    }
    assert key[..|key|] == key;
    return false;
  }

  method RequireScope(tenancy: Option<Tenancy>, key: seq<string>) returns (ok: bool)
    ensures ok <==> Scoped(tenancy, key)
  {
    if tenancy.None? {
      return true;
    }
    ok := RequireColumn(key, tenancy.value.column);
    if ok && tenancy.value.userScoped {
      ok := RequireColumn(key, tenancy.value.userColumn);
    }
  }

  method ValidatePlan(p: ResourcePlan) returns (ok: bool)
    ensures ok <==> Validated(p)
  {
    var known: set<string> := {};
    for i := 0 to |p.columns|
      invariant DistinctColumns(p.columns[..i])
      invariant forall n :: n in known <==> exists k :: 0 <= k < i && p.columns[k].dbName == n
    {
      if p.columns[i].dbName in known {
        return false;
      }
      known := known + {p.columns[i].dbName};
    }
    assert p.columns[..|p.columns|] == p.columns;
    if |p.primaryKey| == 0 {
      return false;
    }
    ok := RequireScope(p.tenancy, p.primaryKey);
    if !ok {
      return;
    }
    for i := 0 to |p.indexes|
      invariant forall k :: 0 <= k < i && p.indexes[k].unique && p.indexes[k].where == "" ==>
        Scoped(p.tenancy, p.indexes[k].columns)
    {
      if p.indexes[i].unique && p.indexes[i].where == "" {
        ok := RequireScope(p.tenancy, p.indexes[i].columns);
        if !ok {
          return;
        }
      }
    }
    return true;
  }

  /** The tenancy columns come first and are synthesised; no other column is. */
  predicate TenancySynthesised(p: ResourcePlan) {
    var scope := ScopeColumns(p.tenancy);
    && |scope| <= |p.columns|
    && (forall i :: 0 <= i < |scope| ==>
         && p.columns[i].synthesized && p.columns[i].dbName == scope[i]
         && !p.columns[i].unique && p.columns[i].foreignKey == null)
    && forall i :: |scope| <= i < |p.columns| ==> !p.columns[i].synthesized
  }

  /** A proto column of a validated plan is not a tenancy column. */
  lemma ProtoColumnIsOwn(p: ResourcePlan, i: nat)
    requires Validated(p) && TenancySynthesised(p) && i < |p.columns| && !p.columns[i].synthesized
    ensures p.columns[i].dbName !in ScopeColumns(p.tenancy)
  {
    var scope := ScopeColumns(p.tenancy);
    forall k | 0 <= k < |scope| ensures scope[k] != p.columns[i].dbName {
      assert p.columns[k].dbName == scope[k];
    }
  }

  // -- Unique keys in the DDL -------------------------------------------------------------------

  /** The columns of the index emitted for a unique column, as a set. */
  function UniqueColumnKey(p: ResourcePlan, c: Column): set<string> {
    Members(ScopeColumns(p.tenancy)) + {c.dbName}
  }

  method ScopedColumns(scope: seq<string>, name: string) returns (cols: seq<string>)
    ensures Members(cols) == Members(scope) + {name}
    ensures name !in cols[..|cols| - 1] && cols[|cols| - 1] == name
    ensures name !in scope ==> cols == scope + [name]
  {
    cols := [];
    for s := 0 to |scope|
      invariant Members(cols) == Members(scope[..s]) - {name}
      invariant name !in scope ==> cols == scope[..s]
    {
      assert Members(scope[..s + 1]) == Members(scope[..s]) + {scope[s]};
      if scope[s] != name {
        assert Members(cols + [scope[s]]) == Members(cols) + {scope[s]};
        cols := cols + [scope[s]];
      }
    }
    assert scope[..|scope|] == scope;
    assert name !in Members(cols);
    assert Members(cols + [name]) == Members(cols) + {name};
    cols := cols + [name];
  }

  function UniqueColumns(columns: seq<Column>): seq<Column> {
    if columns == [] then []
    else
      var last := columns[|columns| - 1];
      UniqueColumns(columns[..|columns| - 1]) + if last.unique then [last] else []
  }

  /** The key is that of the index emitted for some unique column. */
  ghost predicate UniqueColumnDeclares(p: ResourcePlan, key: set<string>) {
    exists i :: 0 <= i < |p.columns| && p.columns[i].unique && key == UniqueColumnKey(p, p.columns[i])
  }

  lemma {:induction false} UniqueColumnsAre(columns: seq<Column>)
    ensures forall k :: 0 <= k < |UniqueColumns(columns)| ==>
      UniqueColumns(columns)[k] in columns && UniqueColumns(columns)[k].unique
    ensures forall i :: 0 <= i < |columns| && columns[i].unique ==> columns[i] in UniqueColumns(columns)
  {
    if columns != [] {
      UniqueColumnsAre(columns[..|columns| - 1]);
      assert columns == columns[..|columns| - 1] + [columns[|columns| - 1]];
    }
  }

  /** One column list per unique column, in declaration order: the scope, then the column. Their sets of columns
      are exactly the keys that unique columns declare. */
  method RenderUniqueColumnIndexes(p: ResourcePlan) returns (keys: seq<seq<string>>)
    ensures |keys| == |UniqueColumns(p.columns)|
    ensures forall k :: 0 <= k < |keys| ==> Members(keys[k]) == UniqueColumnKey(p, UniqueColumns(p.columns)[k])
    ensures forall key :: (exists k :: 0 <= k < |keys| && Members(keys[k]) == key) <==> UniqueColumnDeclares(p, key)
  {
    keys := [];
    for i := 0 to |p.columns|
      invariant |keys| == |UniqueColumns(p.columns[..i])|
      invariant forall k :: 0 <= k < |keys| ==> Members(keys[k]) == UniqueColumnKey(p, UniqueColumns(p.columns[..i])[k])
    {
      assert p.columns[..i + 1][..i] == p.columns[..i];
      if p.columns[i].unique {
        var cols := ScopedColumns(ScopeColumns(p.tenancy), p.columns[i].dbName);
        keys := keys + [cols];
      }
    }
    assert p.columns[..|p.columns|] == p.columns;
    RenderedAreDeclared(p, keys);
  }

  lemma RenderedAreDeclared(p: ResourcePlan, keys: seq<seq<string>>)
    requires |keys| == |UniqueColumns(p.columns)|
    requires forall k :: 0 <= k < |keys| ==> Members(keys[k]) == UniqueColumnKey(p, UniqueColumns(p.columns)[k])
    ensures forall key :: (exists k :: 0 <= k < |keys| && Members(keys[k]) == key) <==> UniqueColumnDeclares(p, key)
  {
    var unique := UniqueColumns(p.columns);
    UniqueColumnsAre(p.columns);
    forall key ensures (exists k :: 0 <= k < |keys| && Members(keys[k]) == key) <==> UniqueColumnDeclares(p, key) {
      if k :| 0 <= k < |keys| && Members(keys[k]) == key {
        assert unique[k] in p.columns;
        var i :| 0 <= i < |p.columns| && p.columns[i] == unique[k];
      }
      if i :| 0 <= i < |p.columns| && p.columns[i].unique && key == UniqueColumnKey(p, p.columns[i]) {
        assert p.columns[i] in unique;
        var k :| 0 <= k < |unique| && unique[k] == p.columns[i];
        assert Members(keys[k]) == key;
      }
    }
  }

  /** Every unique key the DDL of a table declares without a predicate: the primary key, the unique-column
      indexes, the explicit unique indexes and the supplemental ones. */
  ghost predicate EmittedKey(p: ResourcePlan, supplemental: seq<Unique>, key: set<string>) {
    || key == Members(p.primaryKey)
    || UniqueColumnDeclares(p, key)
    || (exists i :: 0 <= i < |p.indexes| && p.indexes[i].unique && p.indexes[i].where == ""
         && key == Members(p.indexes[i].columns))
    || (exists i :: 0 <= i < |supplemental| && key == Members(supplemental[i].columns))
  }
}
