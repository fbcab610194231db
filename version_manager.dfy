/** The "Manage Versions" tab of the training dashboard: a list of versions
    and the id of the one selected in the drop-down, with a rollback button
    that selects the previous version and a delete button. */
module VersionManager {
  import opened Optional
  import opened JsArray

  datatype Version = Version(id: string, name: string, createdAt: string)

  /** What the (simulated) fetch returns. */
  const MockVersions: seq<Version> := [
    Version("1", "v1.0.0", "2023-06-01"),
    Version("2", "v1.1.0", "2023-06-15"),
    Version("3", "v2.0.0", "2023-07-01")
  ]

  predicate UniqueIds(vs: seq<Version>) {
    forall i, j :: 0 <= i < j < |vs| ==> vs[i].id != vs[j].id
  }

  /** `versions.filter(v => v.id !== id)` */
  function Remove(vs: seq<Version>, id: string): (r: seq<Version>)
    ensures forall i :: 0 <= i < |r| ==> r[i] in vs && r[i].id != id
    ensures forall i :: 0 <= i < |vs| && vs[i].id != id ==> vs[i] in r
  {
    Filter(vs, (v: Version) => v.id != id)
  }

  /** `versions.findIndex(v => v.id === selectedVersion)`; a null selection
      matches no version. */
  function SelectedIndex(vs: seq<Version>, selected: Option<string>): (k: int)
    ensures -1 <= k < |vs|
    ensures k == -1 <==> forall i :: 0 <= i < |vs| ==> selected != Some(vs[i].id)
    ensures 0 <= k ==> selected == Some(vs[k].id) &&
                       forall i :: 0 <= i < k ==> selected != Some(vs[i].id)
  {
    FindIndex(vs, (v: Version) => selected == Some(v.id))
  }

  /** `versions[versions.length - 2]?.id || null`, evaluated on the list as it
      was BEFORE the deletion; an empty id is falsy and gives null too. */
  function SecondToLastId(before: seq<Version>): (r: Option<string>)
    ensures |before| < 2 ==> r.None?
    ensures r.Some? ==> r.value != "" && r.value == before[|before| - 2].id
    ensures |before| >= 2 && before[|before| - 2].id != "" ==> r.Some?
  {
    if |before| >= 2 && before[|before| - 2].id != "" then Some(before[|before| - 2].id) else None
  }

  /** Version `k` is the first one whose id is the selection. */
  predicate FirstWithId(vs: seq<Version>, selected: Option<string>, k: int) {
    0 <= k < |vs| && selected == Some(vs[k].id) && forall j :: 0 <= j < k ==> selected != Some(vs[j].id)
  }

  /** Where a rollback moves the selection: to the version just before the
      first one with the selected id, or nowhere (`None`) when that is the
      first version, or the selection is null or not in the list. */
  function RollbackTarget(vs: seq<Version>, selected: Option<string>): (r: Option<string>)
    ensures r.None? <==> (forall k :: 0 <= k < |vs| ==> selected != Some(vs[k].id)) ||
                         (|vs| > 0 && selected == Some(vs[0].id))
    ensures r.Some? ==> exists k :: 1 <= k < |vs| && FirstWithId(vs, selected, k) && r.value == vs[k - 1].id
  {
    var k := SelectedIndex(vs, selected);
    assert k > 0 ==> FirstWithId(vs, selected, k);
    if k > 0 then Some(vs[k - 1].id) else None
  }

  class Manager {
    var versions: seq<Version>
    var selected: Option<string>

    /** The component before its loading effect has run. */
    constructor ()
      ensures versions == [] && selected == None
    {
      versions := [];
      selected := None;
    }

    /** `fetchVersions`: load the mock list and select its last version. */
    method FetchVersions()
      modifies this
      ensures versions == MockVersions
      ensures UniqueIds(versions)
      ensures selected == Some(MockVersions[|MockVersions| - 1].id) == Some("3")
    {
      versions := MockVersions;
      selected := Some(MockVersions[|MockVersions| - 1].id);
    }

    /** The drop-down's `onValueChange`. */
    method SelectVersion(id: string)
      modifies this
      ensures versions == old(versions) && selected == Some(id)
    {
      selected := Some(id);
    }

    /** `handleDeleteVersion(id)`: remove every version with that id; when it
      was the selected one, select the second-to-last id of the old list. */
    method DeleteVersion(id: string)
      modifies this
      ensures versions == Remove(old(versions), id)
      ensures old(selected) != Some(id) ==> selected == old(selected)
      ensures old(selected) == Some(id) ==> selected == SecondToLastId(old(versions))
    {
      var before := versions;
      versions := Remove(versions, id);
      if selected == Some(id) {
        selected := SecondToLastId(before);
      }
    }

    /** The delete button is enabled when a (truthy) id is selected and more
      than one version is listed. */
    predicate DeleteEnabled()
      reads this
    {
      selected.Some? && selected.value != "" && |versions| > 1
    }

    /** A click on the delete button: nothing when it is disabled, otherwise
      delete the selected version. */
    method ClickDelete()
      modifies this
      ensures !old(DeleteEnabled()) ==> versions == old(versions) && selected == old(selected)
      ensures old(DeleteEnabled()) ==>
        versions == Remove(old(versions), old(selected).value) &&
        selected == SecondToLastId(old(versions))
      ensures UniqueIds(old(versions)) ==> UniqueIds(versions)
      ensures UniqueIds(old(versions)) && old(DeleteEnabled()) ==> versions != []
    {
      if DeleteEnabled() {
        if UniqueIds(versions) {
          RemoveKeepsUniqueIds(versions, selected.value);
          EnabledDeleteKeepsAVersion(versions, selected.value);
        }
        DeleteVersion(selected.value);
      }
    }

    /** `handleRollback`: move the selection one version back, or report
      failure and change nothing. The list is never changed. */
    method Rollback() returns (ok: bool)
      modifies this
      ensures versions == old(versions)
      ensures ok <==> SelectedIndex(old(versions), old(selected)) > 0
      ensures ok ==> selected == RollbackTarget(old(versions), old(selected))
      ensures !ok ==> selected == old(selected)
    {
      var k := SelectedIndex(versions, selected);
      if k > 0 {
        selected := Some(versions[k - 1].id);
        ok := true;
      } else {
        ok := false;
      }
    }
  }

  // ---------------------------------------------------------------------
  // Properties of the rules above

  /** With unique ids, a selection naming the version at index `i > 0` rolls
      back to the version at `i - 1`. */
  lemma RollbackMovesToPrevious(vs: seq<Version>, i: nat)
    requires UniqueIds(vs) && 0 < i < |vs|
    ensures SelectedIndex(vs, Some(vs[i].id)) == i
    ensures RollbackTarget(vs, Some(vs[i].id)) == Some(vs[i - 1].id)
  {
    assert forall j :: 0 <= j < i ==> vs[j].id != vs[i].id;
  }

  /** Rollback refuses for a null selection, a selection of the first
      version, and a selection that names no listed version. */
  lemma RollbackRefuses(vs: seq<Version>, selected: Option<string>)
    requires selected.None? || (|vs| > 0 && selected == Some(vs[0].id)) ||
             forall i :: 0 <= i < |vs| ==> selected != Some(vs[i].id)
    ensures RollbackTarget(vs, selected).None?
  {
  }

  /** Removing keeps ids unique. */
  lemma {:induction false} RemoveKeepsUniqueIds(vs: seq<Version>, id: string)
    requires UniqueIds(vs)
    ensures UniqueIds(Remove(vs, id))
  {
    if vs != [] {
      RemoveKeepsUniqueIds(vs[1..], id);
      var rest := Remove(vs[1..], id);
      forall i | 0 <= i < |rest|
        ensures rest[i].id != vs[0].id
      {
        var j :| 0 <= j < |vs[1..]| && vs[1..][j] == rest[i];
        assert vs[j + 1] == rest[i];
      }
    }
  }

  /** With unique ids, removing one id drops at most one version. */
  lemma {:induction false} RemoveDropsAtMostOne(vs: seq<Version>, id: string)
    requires UniqueIds(vs)
    ensures |Remove(vs, id)| >= |vs| - 1
  {
    if vs != [] {
      if vs[0].id == id {
        forall i | 0 <= i < |vs[1..]|
          ensures vs[1..][i].id != id
        {
          assert vs[i + 1].id != vs[0].id;
        }
        FilterKeepsAll(vs[1..], (v: Version) => v.id != id);
      } else {
        RemoveDropsAtMostOne(vs[1..], id);
      }
    }
  }

  /** The delete button can never empty a list of unique ids: it is enabled
      only with more than one version listed. */
  lemma EnabledDeleteKeepsAVersion(vs: seq<Version>, id: string)
    requires UniqueIds(vs) && |vs| > 1
    ensures Remove(vs, id) != []
  {
    RemoveDropsAtMostOne(vs, id);
  }

  /** Removing keeps the survivors in order: it distributes over
      concatenation and drops one version exactly when its id matches. */
  lemma RemoveKeepsOrder(a: seq<Version>, b: seq<Version>, id: string)
    ensures Remove(a + b, id) == Remove(a, id) + Remove(b, id)
    ensures forall v :: Remove([v], id) == (if v.id == id then [] else [v])
  {
    FilterAppend(a, b, (v: Version) => v.id != id);
  }

  /** The re-selection reads the old list, so deleting the selected version
      when it is second-to-last selects the very id just deleted: from the
      loaded list with "2" selected, deleting "2" leaves "2" selected,
      though no listed version has that id any more. */
  lemma DeleteCanReselectDeletedId()
    ensures SecondToLastId(MockVersions) == Some("2")
    ensures forall i :: 0 <= i < |Remove(MockVersions, "2")| ==> Remove(MockVersions, "2")[i].id != "2"
  {
  }

  /** When the deleted selection is the LAST version (the one selected after
      loading), the re-selection names the version that is now last. */
  lemma DeleteLastReselectsNewLast(vs: seq<Version>)
    requires UniqueIds(vs) && |vs| >= 2 && vs[|vs| - 2].id != ""
    ensures var after := Remove(vs, vs[|vs| - 1].id);
            after != [] && SecondToLastId(vs) == Some(after[|after| - 1].id)
  {
    var id := vs[|vs| - 1].id;
    var front := vs[..|vs| - 1];
    assert vs == front + [vs[|vs| - 1]];
    RemoveKeepsOrder(front, [vs[|vs| - 1]], id);
    forall i | 0 <= i < |front|
      ensures front[i].id != id
    {
      assert vs[i].id != vs[|vs| - 1].id;
    }
    FilterKeepsAll(front, (v: Version) => v.id != id);
  }
}
