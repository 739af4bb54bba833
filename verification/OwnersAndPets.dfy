/** Two plans of users' rows that pass every check. If the column referred to is unique, the foreign key references
    no unique key of its target; if it is not, the constraint added for it mixes the users of a tenant. */
module OwnersAndPets {
  import opened Prelude
  import opened Plans
  import opened ForeignKeys
  import opened ForeignKeyFacts

  function ScopeColumn(name: string): Column { Column(name, "", true, false, null) }

  function ProtoColumnOf(name: string, unique: bool, fk: ForeignKey?): Column { Column(name, name, false, unique, fk) }

  function PerUser(): Option<Tenancy> { Some(Tenancy("tenant_id", true, "user_id")) }

  function PerUserColumns(id: Column, last: Column): seq<Column> {
    [ScopeColumn("tenant_id"), ScopeColumn("user_id"), id, last]
  }

  /** A table of users' rows with one more column. */
  ghost predicate PerUserPlan(p: ResourcePlan, fqn: string, table: string, last: Column) {
    && p.fqn == fqn && p.tableName == table && p.tenancy == PerUser() && p.indexes == []
    && p.primaryKey == ["tenant_id", "user_id", "id"]
    && p.columns == PerUserColumns(ProtoColumnOf("id", false, null), last)
  }

  lemma PerUserIsWellFormed(p: ResourcePlan, fqn: string, table: string, last: Column)
    requires PerUserPlan(p, fqn, table, last) && last.dbName == "name" && !last.synthesized
    ensures WellFormedPlan(p)
  {
    assert "tenant_id"[0] != "user_id"[0] && "id"[0] != "name"[0] && "tenant_id"[0] != "name"[0];
    assert "id"[0] != "tenant_id"[0] && "id"[0] != "user_id"[0] && "name"[0] != "user_id"[0];
    assert ScopeColumns(p.tenancy) == ["tenant_id", "user_id"];
  }

  lemma OwnerTarget()
    ensures LastDot(".Owner.name") == 6 && SplitTarget(".Owner.name", "Pet") == ("Owner", "name")
  {
    var raw := ".Owner.name";
    assert ".Owner.n"[..7] == ".Owner." && LastDot(".Owner.n") == 6;
    assert ".Owner.na"[..8] == ".Owner.n" && LastDot(".Owner.na") == 6;
    assert ".Owner.nam"[..9] == ".Owner.na" && LastDot(".Owner.nam") == 6;
    assert raw[..10] == ".Owner.nam" && LastDot(raw) == 6;
    assert raw[..6] == ".Owner" && raw[7..] == "name" && ".Owner"[1..] == "Owner";
  }

  /** A name, unique or not, on a table of users' owners, and a table of users' pets that refers to it. */
  ghost predicate OwnersAndPets(plans: seq<ResourcePlan>, unique: bool) {
    && |plans| == 2 && plans[0] != plans[1]
    && PerUserPlan(plans[0], "Owner", "owners", ProtoColumnOf("name", unique, null))
    && |plans[1].columns| == 4 && plans[1].columns[3].foreignKey != null
    && PerUserPlan(plans[1], "Pet", "pets", ProtoColumnOf("name", false, plans[1].columns[3].foreignKey))
    && plans[1].columns[3].foreignKey.rawTarget == ".Owner.name"
  }

  lemma OwnersRegistered(plans: seq<ResourcePlan>, unique: bool)
    requires OwnersAndPets(plans, unique)
    ensures "Owner" in Registry(plans) && Registry(plans)["Owner"] == plans[0]
  {
    assert plans[..1] == [plans[0]];
    RegistryExact([plans[0]], plans[0]);
    assert "Owner"[0] != "Pet"[0];
  }

  lemma OwnerNameFound(p: ResourcePlan, unique: bool)
    requires PerUserPlan(p, "Owner", "owners", ProtoColumnOf("name", unique, null))
    ensures FindColumn(p.columns, "name") == Some(ProtoColumnOf("name", unique, null))
  {
    var columns := p.columns;
    assert "id"[0] != "name"[0];
    assert columns[3..][0] == columns[3] && FindColumn(columns[3..], "name") == Some(columns[3]);
    assert columns[2..][1..] == columns[3..] && FindColumn(columns[2..], "name") == Some(columns[3]);
    assert columns[1..][1..] == columns[2..] && FindColumn(columns[1..], "name") == Some(columns[3]);
  }

  lemma PetsComplete(plans: seq<ResourcePlan>, unique: bool)
    requires OwnersAndPets(plans, unique)
    ensures forall a: nat, i: nat :: Site(plans, a, i) <==> a == 1 && i == 3
    ensures CompletionAt(plans, 1, 3).Success? && CompletionAt(plans, 1, 3).value.target == plans[0]
    ensures NamesColumn(plans, 1, 3, plans[0], plans[0].columns[3])
  {
    OwnerTarget();
    OwnersRegistered(plans, unique);
    OwnerNameFound(plans[0], unique);
    var c := plans[1].columns[3];
    assert |BackingIndexName(plans[1], c)| == 4 + 4 + 1 + 4 + 3;
    assert |ConstraintName(plans[1], c)| == 4 + 1 + 4 + 5;
  }

  method BuildPets(unique: bool) returns (plans: seq<ResourcePlan>)
    ensures OwnersAndPets(plans, unique) && Pending(plans, 0, 0) && fresh(plans) && fresh(KeyObjects(plans))
    ensures forall t :: t in plans ==> t.supplementalUniques == []
  {
    var fk := new ForeignKey(".Owner.name", None);
    var name, refers := ProtoColumnOf("name", unique, null), ProtoColumnOf("name", false, fk);
    var key, id := ["tenant_id", "user_id", "id"], ProtoColumnOf("id", false, null);
    var owners := new ResourcePlan("Owner", "owners", key, [], PerUser(), PerUserColumns(id, name));
    var pets := new ResourcePlan("Pet", "pets", key, [], PerUser(), PerUserColumns(id, refers));
    plans := [owners, pets];
  }

  lemma PetsWellFormed(plans: seq<ResourcePlan>, unique: bool)
    requires OwnersAndPets(plans, unique)
    ensures AllWellFormed(plans)
  {
    PerUserIsWellFormed(plans[0], "Owner", "owners", plans[0].columns[3]);
    PerUserIsWellFormed(plans[1], "Pet", "pets", plans[1].columns[3]);
  }

  lemma PetsAnnotated(plans: seq<ResourcePlan>, unique: bool)
    requires OwnersAndPets(plans, unique)
    ensures Annotated(plans) && AllComplete(plans, |plans|, 0)
  {
    PetsComplete(plans, unique);
    OwnerTarget();
  }

  /** Both plans are accepted, and the pass over them succeeds. */
  method ResolvePets(unique: bool) returns (plans: seq<ResourcePlan>, ok: bool)
    ensures OwnersAndPets(plans, unique) && AllWellFormed(plans)
    ensures ok && Resolved(plans, |plans|, 0)
  {
    plans := BuildPets(unique);
    PetsWellFormed(plans, unique);
    PetsAnnotated(plans, unique);
    ok := ResolveForeignKeys(plans);
  }

  lemma PetsDangle(plans: seq<ResourcePlan>)
    requires OwnersAndPets(plans, true) && AllWellFormed(plans) && Resolved(plans, |plans|, 0)
    ensures plans[1].columns[3].foreignKey.targetTable == plans[0].tableName
    ensures !EmittedKey(plans[0], plans[0].supplementalUniques, EmittedReference(plans[1].columns[3].foreignKey))
  {
    PetsComplete(plans, true);
    assert Site(plans, 1, 3) && Visited(1, 3, |plans|, 0) && FilledAt(plans, 1, 3);
    var c := ReferenceIsUniqueKey(plans, 1, 3);
  }

  /** With a unique name the pass succeeds, but the reference names no unique key of the owners. */
  method PetsOfOwners() returns (plans: seq<ResourcePlan>, ok: bool)
    ensures OwnersAndPets(plans, true) && AllWellFormed(plans)
    ensures ok && Resolved(plans, |plans|, 0)
    ensures plans[1].columns[3].foreignKey.targetTable == plans[0].tableName
    ensures !EmittedKey(plans[0], plans[0].supplementalUniques, EmittedReference(plans[1].columns[3].foreignKey))
  {
    plans, ok := ResolvePets(true);
    PetsDangle(plans);
  }

  lemma PairDemanded(p: ResourcePlan)
    requires PerUserPlan(p, "Owner", "owners", ProtoColumnOf("name", false, null))
    ensures Demand(p, p.columns[3]) == Some(Unique("uq_owners_tenant_id_name", ["tenant_id", "name"]))
  {
    assert SupplementalName("owners", "tenant_id", "name") == "uq_owners_tenant_id_name";
    assert |p.primaryKey| == 3 && !PkCoversPair(p, "name");
  }

  lemma PairAdded(plans: seq<ResourcePlan>)
    requires OwnersAndPets(plans, false) && Resolved(plans, |plans|, 0)
    ensures Unique("uq_owners_tenant_id_name", ["tenant_id", "name"]) in plans[0].supplementalUniques
  {
    PetsComplete(plans, false);
    var uq := Unique("uq_owners_tenant_id_name", ["tenant_id", "name"]);
    PairDemanded(plans[0]);
    assert Demands(plans, 1, 3, plans[0], uq) && Visited(1, 3, |plans|, 0);
    assert plans[0] in UniquesNow(plans);
  }

  /** With a name that is not unique the pass succeeds, and lets the owners of two users of a tenant conflict. */
  method OwnersOfTwoUsers() returns (plans: seq<ResourcePlan>, ok: bool)
    ensures OwnersAndPets(plans, false) && AllWellFormed(plans)
    ensures ok && Resolved(plans, |plans|, 0)
    ensures UserScoped(plans[0]) && !UsersApart(plans[0], plans[0].supplementalUniques)
    ensures Unique("uq_owners_tenant_id_name", ["tenant_id", "name"]) in plans[0].supplementalUniques
  {
    plans, ok := ResolvePets(false);
    PetsComplete(plans, false);
    UsersApartIff(plans, plans[0]);
    PairAdded(plans);
  }
}
