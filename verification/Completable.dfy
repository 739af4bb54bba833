/** Which annotations the foreign-key pass can complete, said without reference to the pass: what a target names,
    which keys a table declares, which indexes lead with a column, and how long names get. */
module Completable {
  import opened Prelude
  import opened Precedence
  import opened Plans
  import opened ForeignKeys
  import opened ForeignKeyFacts

  // -- Targets ----------------------------------------------------------------------------------

  predicate DotFree(s: string) { forall i :: 0 <= i < |s| ==> s[i] != '.' }

  predicate Absolute(raw: string, message: string, field: string) {
    DotFree(field) && raw == "." + message + "." + field
  }

  predicate Simple(raw: string, message: string, field: string) {
    DotFree(field) && raw == message + "." + field && (message == "" || message[0] != '.')
  }

  predicate InPackage(fqn: string, package: string, name: string) {
    package != "" && DotFree(name) && fqn == package + "." + name
  }

  /** A target with a leading dot names its message in full; another names a message of the referring package, or
      a message without package if the referring message has none. */
  ghost predicate TargetNames(raw: string, self: string, message: string, field: string) {
    || Absolute(raw, message, field)
    || (exists package, name, simple ::
         Simple(raw, simple, field) && InPackage(self, package, name) && message == package + "." + simple)
    || (Simple(raw, message, field) && !exists package, name :: InPackage(self, package, name))
  }

  lemma {:induction false} LastDotBefore(a: string, b: string)
    requires DotFree(b)
    ensures LastDot(a + "." + b) == |a|
  {
    var s := a + "." + b;
    if b == "" {
      assert s[|s| - 1] == '.';
    } else {
      assert s[|s| - 1] == b[|b| - 1] && s[..|s| - 1] == a + "." + b[..|b| - 1];
      LastDotBefore(a, b[..|b| - 1]);
    }
  }

  lemma {:induction false} AfterLastDot(s: string)
    ensures LastDot(s) >= 0 ==> s[LastDot(s)] == '.'
    ensures DotFree(s[LastDot(s) + 1..])
  {
    if s != [] && s[|s| - 1] != '.' {
      AfterLastDot(s[..|s| - 1]);
      var tail := s[..|s| - 1][LastDot(s) + 1..];
      assert s[LastDot(s) + 1..] == tail + [s[|s| - 1]];
    }
  }

  lemma CutAtLastDot(s: string)
    requires LastDot(s) >= 0
    ensures s == s[..LastDot(s)] + "." + s[LastDot(s) + 1..] && DotFree(s[LastDot(s) + 1..])
  {
    AfterLastDot(s);
  }

  lemma CutIs(a: string, b: string)
    requires DotFree(b)
    ensures
      var s := a + "." + b;
      LastDot(s) == |a| && s[..LastDot(s)] == a && s[LastDot(s) + 1..] == b
  {
    LastDotBefore(a, b);
  }

  /** The package of a message name, if it has one. */
  lemma PackageIs(self: string)
    ensures LastDot(self) > 0 ==> InPackage(self, self[..LastDot(self)], self[LastDot(self) + 1..])
    ensures forall package, name :: InPackage(self, package, name) ==>
      LastDot(self) > 0 && package == self[..LastDot(self)]
  {
    if LastDot(self) > 0 {
      CutAtLastDot(self);
    }
    forall package, name | InPackage(self, package, name)
      ensures LastDot(self) > 0 && package == self[..LastDot(self)]
    {
      CutIs(package, name);
    }
  }

  lemma SplitsAbsolute(raw: string, self: string, message: string, field: string)
    requires Absolute(raw, message, field)
    ensures LastDot(raw) >= 0 && SplitTarget(raw, self) == (message, field)
  {
    CutIs("." + message, field);
    assert ("." + message)[1..] == message;
  }

  lemma SplitsSimple(raw: string, self: string, message: string, field: string)
    requires Simple(raw, message, field)
    ensures LastDot(raw) >= 0
    ensures SplitTarget(raw, self) ==
      (if LastDot(self) > 0 then self[..LastDot(self)] + "." + message else message, field)
  {
    CutIs(message, field);
  }

  /** The pass takes a target apart into the message and the field it names. */
  lemma SplitTargetIff(raw: string, self: string, message: string, field: string)
    requires LastDot(raw) >= 0
    ensures SplitTarget(raw, self) == (message, field) <==> TargetNames(raw, self, message, field)
  {
    CutAtLastDot(raw);
    PackageIs(self);
    var head, tail := raw[..LastDot(raw)], raw[LastDot(raw) + 1..];
    if head != "" && head[0] == '.' {
      assert head == "." + head[1..];
      assert Absolute(raw, head[1..], tail);
      SplitsAbsolute(raw, self, head[1..], tail);
    } else {
      assert Simple(raw, head, tail);
      SplitsSimple(raw, self, head, tail);
      if LastDot(self) > 0 {
        assert InPackage(self, self[..LastDot(self)], self[LastDot(self) + 1..]);
      }
    }
    if TargetNames(raw, self, message, field) {
      OneReading(raw, self, message, field);
    }
  }

  lemma OneReading(raw: string, self: string, message: string, field: string)
    requires LastDot(raw) >= 0 && TargetNames(raw, self, message, field)
    ensures SplitTarget(raw, self) == (message, field)
  {
    PackageIs(self);
    if Absolute(raw, message, field) {
      SplitsAbsolute(raw, self, message, field);
    } else if package, name, simple :|
        Simple(raw, simple, field) && InPackage(self, package, name) && message == package + "." + simple {
      SplitsSimple(raw, self, simple, field);
    } else {
      SplitsSimple(raw, self, message, field);
    }
  }

  // -- Registered messages and their columns ----------------------------------------------------

  /** The plan is the last one of the message. */
  ghost predicate Registered(plans: seq<ResourcePlan>, message: string, t: ResourcePlan) {
    exists b :: 0 <= b < |plans| && plans[b] == t && t.fqn == message
      && forall later :: b < later < |plans| ==> plans[later].fqn != message
  }

  lemma {:induction false} RegisteredIff(plans: seq<ResourcePlan>, message: string, t: ResourcePlan)
    ensures message in Registry(plans) && Registry(plans)[message] == t <==> Registered(plans, message, t)
  {
    if plans != [] {
      var front, last := plans[..|plans| - 1], plans[|plans| - 1];
      RegisteredIff(front, message, t);
      assert plans == front + [last];
      if last.fqn == message {
        assert Registered(plans, message, last) by {
          assert plans[|plans| - 1] == last;
        }
        assert Registered(plans, message, t) ==> t == last;
      } else {
        if Registered(front, message, t) {
          var b :| 0 <= b < |front| && front[b] == t && t.fqn == message
            && forall later :: b < later < |front| ==> front[later].fqn != message;
          assert plans[b] == t && forall later :: b < later < |plans| ==> plans[later].fqn != message;
        }
        if Registered(plans, message, t) {
          var b :| 0 <= b < |plans| && plans[b] == t && t.fqn == message
            && forall later :: b < later < |plans| ==> plans[later].fqn != message;
          assert front[b] == t && forall later :: b < later < |front| ==> front[later].fqn != message;
        }
      }
    }
  }

  predicate IsField(c: Column, field: string) { !c.synthesized && c.protoField == field }

  /** The column is the first one of the field. */
  ghost predicate FirstOfField(columns: seq<Column>, field: string, c: Column) {
    exists k :: 0 <= k < |columns| && columns[k] == c && IsField(c, field)
      && forall j :: 0 <= j < k ==> !IsField(columns[j], field)
  }

  lemma {:induction false} FoundIff(columns: seq<Column>, field: string, c: Column)
    ensures FindColumn(columns, field) == Some(c) <==> FirstOfField(columns, field, c)
  {
    if columns != [] {
      var rest := columns[1..];
      FoundIff(rest, field, c);
      if IsField(columns[0], field) {
        assert FirstOfField(columns, field, c) ==> c == columns[0];
      } else {
        if FirstOfField(rest, field, c) {
          var k :| 0 <= k < |rest| && rest[k] == c && IsField(c, field)
            && forall j :: 0 <= j < k ==> !IsField(rest[j], field);
          assert columns[k + 1] == c && forall j :: 0 <= j < k + 1 ==> !IsField(columns[j], field);
        }
        if FirstOfField(columns, field, c) {
          var k :| 0 <= k < |columns| && columns[k] == c && IsField(c, field)
            && forall j :: 0 <= j < k ==> !IsField(columns[j], field);
          assert k > 0 && rest[k - 1] == c;
          assert forall j :: 0 <= j < k - 1 ==> rest[j] == columns[j + 1];
        }
      }
    }
  }

  // -- Declared keys ----------------------------------------------------------------------------

  /** No column stands twice in the primary key. */
  ghost predicate PlainPrimaryKey(t: ResourcePlan) {
    forall i, j :: 0 <= i < j < |t.primaryKey| ==> t.primaryKey[i] != t.primaryKey[j]
  }

  /** No unique key comes from an index that is spelled out. */
  ghost predicate NoUniqueIndex(t: ResourcePlan) {
    forall i :: 0 <= i < |t.indexes| ==> !(t.indexes[i].unique && t.indexes[i].where == "")
  }

  /** The column alone is the primary key or a key that a unique column declares. */
  ghost predicate DeclaredAlone(t: ResourcePlan, column: string) {
    Members(t.primaryKey) == {column} || UniqueColumnDeclares(t, {column})
  }

  lemma NotSingle(key: seq<string>, column: string)
    requires |key| >= 2 && key[0] != key[1]
    ensures Members(key) != {column}
  {
    assert key[0] in Members(key) && key[1] in Members(key);
  }

  lemma OnlyMember(key: seq<string>, column: string)
    requires forall i, j :: 0 <= i < j < |key| ==> key[i] != key[j]
    ensures Members(key) == {column} <==> key == [column]
  {
    if |key| >= 2 {
      NotSingle(key, column);
    } else if |key| == 1 {
      assert key == [key[0]] && Members(key) == {key[0]};
      assert Members(key) == {column} ==> key[0] in {column};
    } else {
      assert column !in Members(key) && column in {column};
    }
  }

  /** In a table without tenancy a column is eligible exactly when it alone is a declared key; where no unique index
      is spelled out, exactly when the DDL has a unique key of just this column. */
  lemma EligibleIff(t: ResourcePlan, c: Column)
    requires WellFormedPlan(t) && t.tenancy.None? && ProtoColumn(t, c) && PlainPrimaryKey(t)
    ensures Eligible(t, c) <==> DeclaredAlone(t, c.dbName)
    ensures NoUniqueIndex(t) ==> (Eligible(t, c) <==> EmittedKey(t, [], {c.dbName}))
  {
    OnlyMember(t.primaryKey, c.dbName);
    var k :| 0 <= k < |t.columns| && t.columns[k] == c;
    if i :| 0 <= i < |t.columns| && t.columns[i].unique && {c.dbName} == UniqueColumnKey(t, t.columns[i]) {
      assert t.columns[i].dbName in {c.dbName};
      assert i == k;
    }
    if c.unique {
      assert UniqueColumnKey(t, t.columns[k]) == {c.dbName};
    }
  }

  lemma OnlyMembers(key: seq<string>, a: string, b: string)
    requires a != b && forall i, j :: 0 <= i < j < |key| ==> key[i] != key[j]
    ensures Members(key) == {a, b} <==> key == [a, b] || key == [b, a]
  {
    if Members(key) == {a, b} {
      NoDupSize(key);
      assert (set n | n in key) == Members(key) && |key| == 2;
      assert key[0] in Members(key) && key[1] in Members(key);
      assert key == [key[0], key[1]];
    }
    assert Members([a, b]) == {a, b} == Members([b, a]);
  }

  /** A tenant-composite key needs a constraint of its own exactly when the target column is not unique and the
      primary key is not the pair of the tenant column and the target column. */
  lemma DemandIff(t: ResourcePlan, c: Column)
    requires WellFormedPlan(t) && ProtoColumn(t, c) && PlainPrimaryKey(t)
    ensures Demand(t, c).Some? <==>
      t.tenancy.Some? && !c.unique && Members(t.primaryKey) != {t.tenancy.value.column, c.dbName}
    ensures Demand(t, c).Some? ==> Demand(t, c).value.columns == [t.tenancy.value.column, c.dbName]
  {
    if t.tenancy.Some? {
      ProtoNotScope(t, c);
      OnlyMembers(t.primaryKey, t.tenancy.value.column, c.dbName);
    }
  }

  // -- Leading indexes --------------------------------------------------------------------------

  /** The column list of some index of the table: the primary key, an index spelled out, or that of a unique column,
      which the row-level-security boundary precedes. */
  ghost predicate IndexList(p: ResourcePlan, list: seq<string>) {
    || list == p.primaryKey
    || (exists i :: 0 <= i < |p.indexes| && list == p.indexes[i].columns)
    || (exists i ::
         0 <= i < |p.columns| && p.columns[i].unique && list == ScopeColumns(p.tenancy) + [p.columns[i].dbName])
  }

  ghost predicate LeadsIndex(p: ResourcePlan, column: string) {
    exists list :: IndexList(p, list) && list != [] && list[0] == column
  }

  lemma UniqueListLeads(tenancy: Option<Tenancy>, column: string)
    ensures (ScopeColumns(tenancy) + [column])[0] == if tenancy.Some? then tenancy.value.column else column
  {
  }

  /** A column needs no index of its own exactly when some index of the table leads with it. */
  lemma CoveredIff(p: ResourcePlan, c: Column)
    requires WellFormedPlan(p) && ProtoColumn(p, c)
    ensures Covered(p, c.dbName) <==> LeadsIndex(p, c.dbName)
  {
    if p.tenancy.Some? {
      ProtoNotScope(p, c);
      assert ScopeColumns(p.tenancy)[0] != c.dbName;
    }
    if list :| IndexList(p, list) && list != [] && list[0] == c.dbName {
      if i :| 0 <= i < |p.columns| && p.columns[i].unique && list == ScopeColumns(p.tenancy) + [p.columns[i].dbName] {
        UniqueListLeads(p.tenancy, p.columns[i].dbName);
      }
    }
    if Covered(p, c.dbName) {
      LeadingList(p, c.dbName);
    }
  }

  lemma LeadingList(p: ResourcePlan, column: string)
    requires Covered(p, column)
    ensures LeadsIndex(p, column)
  {
    if p.primaryKey != [] && p.primaryKey[0] == column {
      assert IndexList(p, p.primaryKey);
    } else if i :| 0 <= i < |p.indexes| && p.indexes[i].columns != [] && p.indexes[i].columns[0] == column {
      assert IndexList(p, p.indexes[i].columns);
    } else {
      assert ScopeColumns(p.tenancy) + [column] == [column];
      assert IndexList(p, [column]);
    }
  }

  // -- Success ----------------------------------------------------------------------------------

  /** The message and field that an annotation names are those of a column of a registered plan. */
  ghost predicate Names(plans: seq<ResourcePlan>, a: nat, i: nat, t: ResourcePlan, c: Column)
    requires Site(plans, a, i)
  {
    exists message, field ::
      && TargetNames(plans[a].columns[i].foreignKey.rawTarget, plans[a].fqn, message, field)
      && Registered(plans, message, t) && FirstOfField(t.columns, field, c)
  }

  lemma NamesIff(plans: seq<ResourcePlan>, a: nat, i: nat, t: ResourcePlan, c: Column)
    requires Site(plans, a, i)
    ensures NamesColumn(plans, a, i, t, c) <==> Names(plans, a, i, t, c)
  {
    var raw, self := plans[a].columns[i].foreignKey.rawTarget, plans[a].fqn;
    var (message, field) := SplitTarget(raw, self);
    SplitTargetIff(raw, self, message, field);
    RegisteredIff(plans, message, t);
    FoundIff(t.columns, field, c);
    forall m, f | TargetNames(raw, self, m, f) ensures m == message && f == field {
      SplitTargetIff(raw, self, m, f);
    }
  }

  /** A backing index is asked for and no index of the table leads with the column. */
  ghost predicate NeedsIndex(p: ResourcePlan, c: Column)
    requires c.foreignKey != null
  {
    c.foreignKey.annotatedIndex && !LeadsIndex(p, c.dbName)
  }

  /** The names "<table>_<column>_fkey" and "idx_<table>_<column>_fk" keep to 63 characters. */
  ghost predicate NamesShort(p: ResourcePlan, c: Column)
    requires c.foreignKey != null
  {
    && |p.tableName| + |c.dbName| + 6 <= 63
    && (NeedsIndex(p, c) ==> |p.tableName| + |c.dbName| + 8 <= 63)
  }

  /** The annotation of column i of plan a can be completed with column c of plan t. */
  ghost predicate CompletableWith(plans: seq<ResourcePlan>, a: nat, i: nat, t: ResourcePlan, c: Column)
    requires Site(plans, a, i)
  {
    && Names(plans, a, i, t, c)
    && plans[a].tenancy.Some? == t.tenancy.Some?
    && (t.tenancy.None? ==> DeclaredAlone(t, c.dbName))
    && NamesShort(plans[a], plans[a].columns[i])
  }

  lemma NameLengths(p: ResourcePlan, c: Column)
    ensures |ConstraintName(p, c)| == |p.tableName| + |c.dbName| + 6
    ensures |BackingIndexName(p, c)| == |p.tableName| + |c.dbName| + 8
  {
  }

  ghost predicate PlainPlans(plans: seq<ResourcePlan>) {
    AllWellFormed(plans) && forall b :: 0 <= b < |plans| ==> PlainPrimaryKey(plans[b])
  }

  lemma SiteIsProto(plans: seq<ResourcePlan>, a: nat, i: nat)
    requires AllWellFormed(plans) && Site(plans, a, i)
    ensures ProtoColumn(plans[a], plans[a].columns[i])
  {
    var p := plans[a];
    var scope := ScopeColumns(p.tenancy);
    assert i >= |scope|;
    assert p.columns[i] == p.columns[i] && !p.columns[i].synthesized;
  }

  lemma TargetIsProto(plans: seq<ResourcePlan>, a: nat, i: nat, t: ResourcePlan, c: Column)
    requires NamesColumn(plans, a, i, t, c)
    ensures t in plans && ProtoColumn(t, c)
  {
    RegistryMembers(plans);
    FoundColumn(t.columns, SplitTarget(plans[a].columns[i].foreignKey.rawTarget, plans[a].fqn).1);
  }

  /** With a named column at hand, the pass completes the annotation exactly when it can be completed with it. */
  lemma CompletesWith(plans: seq<ResourcePlan>, a: nat, i: nat, t: ResourcePlan, c: Column)
    requires PlainPlans(plans) && Site(plans, a, i) && NamesColumn(plans, a, i, t, c)
    ensures CompletionAt(plans, a, i).Success? <==> CompletableWith(plans, a, i, t, c)
    ensures CompletionAt(plans, a, i).Success? ==>
      CompletionAt(plans, a, i).value ==
        Completion(t, c.dbName, NeedsIndex(plans[a], plans[a].columns[i]), Demand(t, c))
  {
    NamesIff(plans, a, i, t, c);
    SiteIsProto(plans, a, i);
    CoveredIff(plans[a], plans[a].columns[i]);
    NameLengths(plans[a], plans[a].columns[i]);
    TargetIsProto(plans, a, i, t, c);
    if t.tenancy.None? {
      EligibleIff(t, c);
    }
  }

  ghost predicate Completable(plans: seq<ResourcePlan>, a: nat, i: nat)
    requires Site(plans, a, i)
  {
    exists t, c :: t in plans && c in t.columns && CompletableWith(plans, a, i, t, c)
  }

  /** The pass completes an annotation exactly when some column can complete it: one that the target names, of a
      registered plan of like tenancy, which without tenancy alone is a declared key, and with names short enough. */
  lemma CompletesIff(plans: seq<ResourcePlan>, a: nat, i: nat)
    requires PlainPlans(plans) && Site(plans, a, i)
    ensures CompletionAt(plans, a, i).Success? <==> Completable(plans, a, i)
  {
    if CompletionAt(plans, a, i).Success? {
      var c := TargetFacts(plans, a, i);
      var t := CompletionAt(plans, a, i).value.target;
      TargetIsProto(plans, a, i, t, c);
      CompletesWith(plans, a, i, t, c);
    }
    if t, c :| t in plans && c in t.columns && CompletableWith(plans, a, i, t, c) {
      NamesIff(plans, a, i, t, c);
      CompletesWith(plans, a, i, t, c);
    }
  }

  ghost predicate AllCompletable(plans: seq<ResourcePlan>) {
    forall a: nat, i: nat :: Site(plans, a, i) ==> Completable(plans, a, i)
  }

  /** The pass succeeds exactly when every annotation can be completed. */
  lemma PassSucceedsIff(plans: seq<ResourcePlan>)
    requires PlainPlans(plans)
    ensures AllComplete(plans, |plans|, 0) <==> AllCompletable(plans)
  {
    forall a: nat, i: nat | Site(plans, a, i)
      ensures Visited(a, i, |plans|, 0) && (CompletionAt(plans, a, i).Success? <==> Completable(plans, a, i))
    {
      CompletesIff(plans, a, i);
    }
  }
}
