/** A plan whose foreign key references another column of its own table: the key exists in the end, but not yet
    when the table is created. */
module TreeNodes {
  import opened Prelude
  import opened Plans
  import opened ForeignKeys
  import opened ForeignKeyFacts
  import opened DdlOrder

  /** A table of nodes with a unique code, and a parent that refers to it. */
  ghost predicate Tree(plans: seq<ResourcePlan>) {
    && |plans| == 1 && plans[0].fqn == "Node" && plans[0].tableName == "nodes" && plans[0].primaryKey == ["id"]
    && plans[0].indexes == [] && plans[0].tenancy == None
    && |plans[0].columns| == 3 && plans[0].columns[2].foreignKey != null
    && plans[0].columns == TreeColumns(plans[0].columns[2].foreignKey)
    && plans[0].columns[2].foreignKey.rawTarget == ".Node.code"
    && plans[0].columns[2].foreignKey.annotatedIndex
  }

  function TreeColumns(fk: ForeignKey?): seq<Column> {
    [Column("id", "id", false, false, null), Column("code", "code", false, true, null),
     Column("parent", "parent", false, false, fk)]
  }

  lemma NodeTarget()
    ensures LastDot(".Node.code") == 5 && SplitTarget(".Node.code", "Node") == ("Node", "code")
  {
    var raw := ".Node.code";
    assert ".Node.c"[..6] == ".Node." && LastDot(".Node.c") == 5;
    assert ".Node.co"[..7] == ".Node.c" && LastDot(".Node.co") == 5;
    assert ".Node.cod"[..8] == ".Node.co" && LastDot(".Node.cod") == 5;
    assert raw[..9] == ".Node.cod" && LastDot(raw) == 5;
    assert raw[..5] == ".Node" && raw[6..] == "code" && ".Node"[1..] == "Node";
  }

  lemma TreeAccepted(plans: seq<ResourcePlan>)
    requires Tree(plans)
    ensures AllWellFormed(plans)
  {
    assert "id"[0] != "code"[0] && "id"[0] != "parent"[0] && "code"[0] != "parent"[0];
  }

  lemma TreeComplete(plans: seq<ResourcePlan>)
    requires Tree(plans)
    ensures forall a: nat, i: nat :: Site(plans, a, i) <==> a == 0 && i == 2
    ensures Annotated(plans) && AllComplete(plans, |plans|, 0)
    ensures NamesColumn(plans, 0, 2, plans[0], plans[0].columns[1])
  {
    NodeTarget();
    var p := plans[0];
    assert "id"[0] != "code"[0] && p.columns[1..][0] == p.columns[1];
    assert FindColumn(p.columns, "code") == Some(p.columns[1]);
    RegistryExact(plans, p);
    assert |BackingIndexName(p, p.columns[2])| == 4 + 5 + 1 + 6 + 3;
    assert |ConstraintName(p, p.columns[2])| == 5 + 1 + 6 + 5;
  }

  method BuildTree() returns (plans: seq<ResourcePlan>)
    ensures Tree(plans) && Pending(plans, 0, 0) && fresh(plans) && fresh(KeyObjects(plans))
    ensures forall t :: t in plans ==> t.supplementalUniques == []
  {
    var fk := new ForeignKey(".Node.code", None);
    var nodes := new ResourcePlan("Node", "nodes", ["id"], [], None, TreeColumns(fk));
    plans := [nodes];
  }

  lemma CodeComesLater(plans: seq<ResourcePlan>)
    requires Tree(plans) && AllWellFormed(plans) && Resolved(plans, |plans|, 0)
    ensures Places(plans, [0]) && EmittedReference(plans[0].columns[2].foreignKey) == {"code"}
    ensures EmittedKey(plans[0], plans[0].supplementalUniques, {"code"})
    ensures !InPlace(plans, [0], 0, "nodes", {"code"})
  {
    TreeComplete(plans);
    var c := ReferenceIsUniqueKey(plans, 0, 2);
    assert "code" in {"code"} && "id"[0] != "code"[0];
    assert "code" !in Members(plans[0].primaryKey);
  }

  lemma ParentNotCovered(plans: seq<ResourcePlan>)
    requires Tree(plans)
    ensures !Covered(plans[0], "parent")
  {
    assert "id"[0] != "parent"[0] && "code"[0] != "parent"[0];
  }

  lemma ParentNames(p: ResourcePlan, c: Column)
    requires p.tableName == "nodes" && c.dbName == "parent"
    ensures ConstraintName(p, c) == "nodes_parent_fkey" && BackingIndexName(p, c) == "idx_nodes_parent_fk"
  {
  }

  lemma TreeFilled(plans: seq<ResourcePlan>)
    requires Tree(plans) && Resolved(plans, |plans|, 0)
    ensures Site(plans, 0, 2) && CompletionAt(plans, 0, 2) == Success(Completion(plans[0], "code", true, None))
    ensures Filled(plans[0].columns[2].foreignKey, plans[0], plans[0].columns[2], CompletionAt(plans, 0, 2).value)
  {
    TreeComplete(plans);
    ParentNotCovered(plans);
    assert Visited(0, 2, |plans|, 0) && FilledAt(plans, 0, 2);
  }

  lemma TreeNames(plans: seq<ResourcePlan>)
    requires Tree(plans) && Resolved(plans, |plans|, 0)
    ensures
      var fk := plans[0].columns[2].foreignKey;
      && fk.targetTable == "nodes" && fk.targetColumn == "code" && fk.constraintName == "nodes_parent_fkey"
      && fk.backingIndex && fk.indexName == "idx_nodes_parent_fk"
  {
    TreeFilled(plans);
    ParentNames(plans[0], plans[0].columns[2]);
  }

  /** The plan is accepted and the pass succeeds; the foreign key references a unique key of the table, which is
      not in place when the table is created. */
  method ParentsByCode() returns (plans: seq<ResourcePlan>, ok: bool)
    ensures Tree(plans) && AllWellFormed(plans) && Places(plans, [0])
    ensures ok && Resolved(plans, |plans|, 0)
    ensures
      var key := EmittedReference(plans[0].columns[2].foreignKey);
      EmittedKey(plans[0], plans[0].supplementalUniques, key) && !InPlace(plans, [0], 0, "nodes", key)
    ensures
      var fk := plans[0].columns[2].foreignKey;
      && fk.targetTable == "nodes" && fk.targetColumn == "code" && fk.constraintName == "nodes_parent_fkey"
      && fk.backingIndex && fk.indexName == "idx_nodes_parent_fk"
  {
    plans := BuildTree();
    TreeAccepted(plans);
    TreeComplete(plans);
    ok := ResolveForeignKeys(plans);
    CodeComesLater(plans);
    TreeNames(plans);
  }
}
