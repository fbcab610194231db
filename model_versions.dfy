/** The version registry of the "Manage Versions" page: a list of model
    versions of which one is marked active. Both row actions replace the list
    wholesale: activation by a `map`, deletion by a `filter`. */
module ModelVersions {
  import opened Optional
  import opened JsArray

  datatype Performance = Performance(precision: real, recall: real, f1Score: real)

  datatype ModelVersion = ModelVersion(
    id: string,
    name: string,
    createdAt: string,
    accuracy: real,
    isActive: bool,
    performance: Performance)

  /** The list the page starts with: three versions, `v2.0.0` active. */
  const InitialVersions: seq<ModelVersion> := [
    ModelVersion("1", "v1.0.0", "2023-06-01", 0.85, false, Performance(0.83, 0.87, 0.85)),
    ModelVersion("2", "v1.1.0", "2023-06-15", 0.87, false, Performance(0.86, 0.88, 0.87)),
    ModelVersion("3", "v2.0.0", "2023-07-01", 0.92, true, Performance(0.91, 0.93, 0.92))
  ]

  /** No two versions share an id. */
  predicate UniqueIds(vs: seq<ModelVersion>) {
    forall i, j :: 0 <= i < j < |vs| ==> vs[i].id != vs[j].id
  }

  /** The number of versions marked active. */
  function CountActive(vs: seq<ModelVersion>): nat {
    if vs == [] then 0 else (if vs[0].isActive then 1 else 0) + CountActive(vs[1..])
  }

  /** The number of versions with the given id. */
  function CountId(vs: seq<ModelVersion>, id: string): nat {
    if vs == [] then 0 else (if vs[0].id == id then 1 else 0) + CountId(vs[1..], id)
  }

  /** `handleActivateVersion(id)`: every version is kept in place, and its
      active flag becomes whether its id is `id`. */
  function Activate(vs: seq<ModelVersion>, id: string): (r: seq<ModelVersion>)
    ensures |r| == |vs|
    ensures forall i :: 0 <= i < |vs| ==> (r[i].isActive <==> vs[i].id == id)
    ensures forall i :: 0 <= i < |vs| ==> r[i] == vs[i].(isActive := r[i].isActive)
  {
    Map(vs, (v: ModelVersion) => v.(isActive := v.id == id))
  }

  /** `handleDeleteVersion(id)`: the versions whose id differs from `id`. */
  function Delete(vs: seq<ModelVersion>, id: string): (r: seq<ModelVersion>)
    ensures forall i :: 0 <= i < |r| ==> r[i] in vs && r[i].id != id
    ensures forall i :: 0 <= i < |vs| && vs[i].id != id ==> vs[i] in r
  {
    Filter(vs, (v: ModelVersion) => v.id != id)
  }

  /** `versions.find(v => v.isActive)`: the version shown in the
      "Active Version" card, when there is one. */
  function ActiveVersion(vs: seq<ModelVersion>): (r: Option<ModelVersion>)
    ensures r.None? <==> forall i :: 0 <= i < |vs| ==> !vs[i].isActive
    ensures r.Some? ==> exists i :: 0 <= i < |vs| && vs[i] == r.value && vs[i].isActive &&
                                    forall j :: 0 <= j < i ==> !vs[j].isActive
  {
    Find(vs, (v: ModelVersion) => v.isActive)
  }

  /** Both row buttons are disabled on the active version. */
  predicate CanActivate(v: ModelVersion) { !v.isActive }
  predicate CanDelete(v: ModelVersion) { !v.isActive }

  /** A click on the "Activate" button of row `i`. */
  function ClickActivate(vs: seq<ModelVersion>, i: nat): (r: seq<ModelVersion>)
    requires i < |vs|
    ensures |r| == |vs| && r[i].isActive
    ensures forall j :: 0 <= j < |vs| ==> r[j].id == vs[j].id
    ensures vs[i].isActive ==> r == vs
    ensures !vs[i].isActive ==> forall j :: 0 <= j < |vs| ==> (r[j].isActive <==> vs[j].id == vs[i].id)
  {
    if CanActivate(vs[i]) then Activate(vs, vs[i].id) else vs
  }

  /** A click on the "Delete" button of row `i`. */
  function ClickDelete(vs: seq<ModelVersion>, i: nat): (r: seq<ModelVersion>)
    requires i < |vs|
    ensures vs[i].isActive ==> r == vs
    ensures !vs[i].isActive ==> forall j :: 0 <= j < |r| ==> r[j] in vs && r[j].id != vs[i].id
    ensures forall j :: 0 <= j < |vs| && vs[j].id != vs[i].id ==> vs[j] in r
  {
    if CanDelete(vs[i]) then Delete(vs, vs[i].id) else vs
  }

  /** What the page keeps true: ids are unique and exactly one version is active. */
  predicate RegistryInvariant(vs: seq<ModelVersion>) {
    UniqueIds(vs) && CountActive(vs) == 1
  }

  // ---------------------------------------------------------------------
  // Activation

  /** Activating an id makes active exactly as many versions as carry it. */
  lemma {:induction false} CountActiveAfterActivate(vs: seq<ModelVersion>, id: string)
    ensures CountActive(Activate(vs, id)) == CountId(vs, id)
  {
    if vs != [] {
      var r := Activate(vs, id);
      assert r[1..] == Activate(vs[1..], id);
      CountActiveAfterActivate(vs[1..], id);
    }
  }

  /** An id that occurs in a list of unique ids occurs exactly once. */
  lemma {:induction false} UniqueIdCountsOnce(vs: seq<ModelVersion>, k: nat)
    requires UniqueIds(vs) && k < |vs|
    ensures CountId(vs, vs[k].id) == 1
  {
    if k == 0 {
      AbsentIdCountsZero(vs[1..], vs[0].id);
    } else {
      UniqueIdCountsOnce(vs[1..], k - 1);
    }
  }

  lemma {:induction false} AbsentIdCountsZero(vs: seq<ModelVersion>, id: string)
    requires forall i :: 0 <= i < |vs| ==> vs[i].id != id
    ensures CountId(vs, id) == 0
  {
    if vs != [] {
      AbsentIdCountsZero(vs[1..], id);
    }
  }

  /** With unique ids, activating an id that is present leaves exactly one
      version active. */
  lemma ActivateLeavesExactlyOne(vs: seq<ModelVersion>, k: nat)
    requires UniqueIds(vs) && k < |vs|
    ensures CountActive(Activate(vs, vs[k].id)) == 1
  {
    CountActiveAfterActivate(vs, vs[k].id);
    UniqueIdCountsOnce(vs, k);
  }

  /** Activating the same id twice is the same as activating it once. */
  lemma ActivateIdempotent(vs: seq<ModelVersion>, id: string)
    ensures Activate(Activate(vs, id), id) == Activate(vs, id)
  {
  }

  // ---------------------------------------------------------------------
  // Deletion

  /** Deletion distributes over concatenation and, on one version, drops it
      exactly when its id matches: the survivors keep their order. */
  lemma DeleteKeepsOrder(a: seq<ModelVersion>, b: seq<ModelVersion>, id: string)
    ensures Delete(a + b, id) == Delete(a, id) + Delete(b, id)
    ensures forall v :: Delete([v], id) == (if v.id == id then [] else [v])
  {
    FilterAppend(a, b, (v: ModelVersion) => v.id != id);
  }

  /** Deleting an id nobody has leaves the list as it was. */
  lemma DeleteAbsentIsIdentity(vs: seq<ModelVersion>, id: string)
    requires forall i :: 0 <= i < |vs| ==> vs[i].id != id
    ensures Delete(vs, id) == vs
  {
    FilterKeepsAll(vs, (v: ModelVersion) => v.id != id);
  }

  /** Deleting an id that only inactive versions carry keeps the number of
      active versions. */
  lemma {:induction false} DeleteInactiveKeepsActiveCount(vs: seq<ModelVersion>, id: string)
    requires forall i :: 0 <= i < |vs| && vs[i].id == id ==> !vs[i].isActive
    ensures CountActive(Delete(vs, id)) == CountActive(vs)
  {
    if vs != [] {
      DeleteInactiveKeepsActiveCount(vs[1..], id);
      if vs[0].id != id {
        assert Delete(vs, id) == [vs[0]] + Delete(vs[1..], id);
        assert ([vs[0]] + Delete(vs[1..], id))[1..] == Delete(vs[1..], id);
      }
    }
  }

  /** Deletion keeps ids unique. */
  lemma {:induction false} DeleteKeepsUniqueIds(vs: seq<ModelVersion>, id: string)
    requires UniqueIds(vs)
    ensures UniqueIds(Delete(vs, id))
  {
    if vs != [] {
      DeleteKeepsUniqueIds(vs[1..], id);
      var rest := Delete(vs[1..], id);
      forall i | 0 <= i < |rest|
        ensures rest[i].id != vs[0].id
      {
        var j :| 0 <= j < |vs[1..]| && vs[1..][j] == rest[i];
        assert vs[j + 1] == rest[i];
      }
    }
  }

  // ---------------------------------------------------------------------
  // The page as a whole

  lemma InitialRegistry()
    ensures RegistryInvariant(InitialVersions)
    ensures ActiveVersion(InitialVersions) == Some(InitialVersions[2])
    ensures InitialVersions[2].name == "v2.0.0"
  {
    assert InitialVersions[1..] == [InitialVersions[1], InitialVersions[2]];
    assert InitialVersions[2..] == [InitialVersions[2]];
  }

  /** Every click on a row button keeps ids unique and exactly one version
      active. A delete click only ever reaches an inactive row, so the active
      version survives and the list never becomes empty. */
  lemma ClickActivateKeepsInvariant(vs: seq<ModelVersion>, i: nat)
    requires RegistryInvariant(vs) && i < |vs|
    ensures RegistryInvariant(ClickActivate(vs, i))
  {
    if CanActivate(vs[i]) {
      ActivateLeavesExactlyOne(vs, i);
    }
  }

  lemma ClickDeleteKeepsInvariant(vs: seq<ModelVersion>, i: nat)
    requires RegistryInvariant(vs) && i < |vs|
    ensures RegistryInvariant(ClickDelete(vs, i))
    ensures ClickDelete(vs, i) != []
  {
    if CanDelete(vs[i]) {
      forall j | 0 <= j < |vs| && vs[j].id == vs[i].id
        ensures !vs[j].isActive
      {
        assert j == i;
      }
      DeleteInactiveKeepsActiveCount(vs, vs[i].id);
      DeleteKeepsUniqueIds(vs, vs[i].id);
    }
  }

  /** Under the invariant, the "Active Version" card is always shown. */
  lemma ActiveVersionShown(vs: seq<ModelVersion>)
    requires CountActive(vs) >= 1
    ensures ActiveVersion(vs).Some?
  {
    ghost var k := FirstActive(vs);
  }

  /** The index of an active version, for a list that has one. */
  ghost function FirstActive(vs: seq<ModelVersion>): (k: nat)
    requires CountActive(vs) >= 1
    ensures k < |vs| && vs[k].isActive
  {
    if vs[0].isActive then 0 else FirstActive(vs[1..]) + 1
  }
}
