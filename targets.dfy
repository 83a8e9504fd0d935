/** Reads and column updates on the `replication_target` table. */
module Targets {
  import opened Seqs
  import opened Models

  /** The target with key `id`, or None when there is none. */
  function GetRepTarget(targets: seq<RepTarget>, id: int): (r: Option<RepTarget>)
    ensures r.Some? ==> r.value in targets && r.value.id == id
    ensures r.None? <==> forall k :: 0 <= k < |targets| ==> targets[k].id != id
  {
    FirstWhere(targets, (t: RepTarget) => t.id == id)
  }

  /** The first target whose name is exactly `name`, or None. */
  function GetRepTargetByName(targets: seq<RepTarget>, name: string): (r: Option<RepTarget>)
    ensures r.Some? ==> r.value in targets && r.value.name == name
    ensures r.None? <==> forall k :: 0 <= k < |targets| ==> targets[k].name != name
  {
    FirstWhere(targets, (t: RepTarget) => t.name == name)
  }

  /** The first target whose URL is exactly `endpoint`, or None. */
  function GetRepTargetByEndpoint(targets: seq<RepTarget>, endpoint: string): (r: Option<RepTarget>)
    ensures r.Some? ==> r.value in targets && r.value.url == endpoint
    ensures r.None? <==> forall k :: 0 <= k < |targets| ==> targets[k].url != endpoint
  {
    FirstWhere(targets, (t: RepTarget) => t.url == endpoint)
  }

  /** The name filter of the target listing; an empty filter matches all. */
  predicate NameMatches(t: RepTarget, name: string) {
    |name| == 0 || Contains(t.name, name)
  }

  /** The `where` clause of the target listing. */
  function NameFilter(name: string): RepTarget -> bool {
    (t: RepTarget) => NameMatches(t, name)
  }

  /** The `order by creation_time` key. */
  function CreationKey(t: RepTarget): int {
    t.creationTime
  }

  /** The targets whose name contains `name`, ordered by creation time. */
  function FilterRepTargets(targets: seq<RepTarget>, name: string): seq<RepTarget>
  {
    SortBy(Select(targets, NameFilter(name)), CreationKey)
  }

  /** The listing holds exactly the matching targets, in creation order. */
  lemma FilterRepTargetsExact(targets: seq<RepTarget>, name: string)
    ensures forall t :: t in FilterRepTargets(targets, name) <==> t in targets && NameMatches(t, name)
    ensures forall i, j :: 0 <= i < j < |FilterRepTargets(targets, name)| ==>
      FilterRepTargets(targets, name)[i].creationTime <= FilterRepTargets(targets, name)[j].creationTime
    ensures |name| == 0 ==> |FilterRepTargets(targets, name)| == |targets|
  {
    var sel := Select(targets, NameFilter(name));
    var r := FilterRepTargets(targets, name);
    assert r == SortBy(sel, CreationKey);
    SortByMembers(sel, CreationKey);
    assert SortedBy(r, CreationKey);
    forall i, j | 0 <= i < j < |r| ensures r[i].creationTime <= r[j].creationTime {
      assert CreationKey(r[i]) <= CreationKey(r[j]);
    }
    forall t ensures t in r <==> t in targets && NameMatches(t, name) {
      assert t in r <==> t in sel;
      assert NameFilter(name)(t) == NameMatches(t, name);
    }
    if |name| == 0 {
      CountIsSelectSize(targets, NameFilter(name));
      CountAll(targets, NameFilter(name));
    }
  }

  /** The row after `UpdateRepTarget(target)`: URL, name, credentials, the
      insecure flag and the update time are taken over, the rest is kept. */
  function UpdatedTarget(row: RepTarget, target: RepTarget, now: int): RepTarget
  {
    row.(url := target.url, name := target.name, username := target.username,
         password := target.password, insecure := target.insecure, updateTime := now)
  }

  /** The table after `UpdateRepTarget(target)` at time `now`. */
  function UpdateTargetColumns(targets: seq<RepTarget>, target: RepTarget, now: int): (r: seq<RepTarget>)
    ensures |r| == |targets|
    ensures forall k :: 0 <= k < |r| && targets[k].id != target.id ==> r[k] == targets[k]
    ensures forall k :: 0 <= k < |r| && targets[k].id == target.id ==>
      r[k].id == targets[k].id && r[k].creationTime == targets[k].creationTime &&
      r[k].url == target.url && r[k].name == target.name &&
      r[k].username == target.username && r[k].password == target.password &&
      r[k].insecure == target.insecure && r[k].updateTime == now
  {
    MapRows(targets, (t: RepTarget) => if t.id == target.id then UpdatedTarget(t, target, now) else t)
  }

  /** Updating a target that is not in the table changes nothing. */
  lemma UpdateMissingTarget(targets: seq<RepTarget>, target: RepTarget, now: int)
    requires GetRepTarget(targets, target.id).None?
    ensures UpdateTargetColumns(targets, target, now) == targets
  {
  }

  /** After an update, reading the target back gives the new column values. */
  lemma UpdateThenGetTarget(targets: seq<RepTarget>, target: RepTarget, now: int)
    requires GetRepTarget(targets, target.id).Some?
    ensures GetRepTarget(UpdateTargetColumns(targets, target, now), target.id) ==
      Some(UpdatedTarget(GetRepTarget(targets, target.id).value, target, now))
  {
    FirstWhereMapRows(targets,
      (t: RepTarget) => if t.id == target.id then UpdatedTarget(t, target, now) else t,
      (t: RepTarget) => t.id == target.id);
  }

  /** The table after `DeleteRepTarget(id)`: every row with that key is gone. */
  function DeleteTargetRow(targets: seq<RepTarget>, id: int): (r: seq<RepTarget>)
    ensures forall t :: t in r <==> t in targets && t.id != id
    ensures GetRepTarget(r, id).None?
  {
    Select(targets, (t: RepTarget) => t.id != id)
  }
}
