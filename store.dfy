/**
 * The database as one object whose tables the services update in place.
 * Every method is proved to take the store to exactly the state that the
 * corresponding function of CatRules or MissionRules describes, and to keep
 * the store invariant.
 */
module Store {
  import opened Common
  import opened Models
  import opened CatSchemas
  import opened MissionSchemas
  import CatRules
  import MissionRules

  /** The rows of `table` in increasing order of id, as a scan of the table
      by primary key returns them. */
  method Rows<V>(table: map<int, V>, next: int) returns (rows: seq<(int, V)>)
    requires forall id :: id in table ==> 1 <= id < next
    ensures forall i :: 0 <= i < |rows| ==> rows[i].0 in table && table[rows[i].0] == rows[i].1
    ensures forall id :: id in table ==> (id, table[id]) in rows
    ensures forall i, j :: 0 <= i < j < |rows| ==> rows[i].0 < rows[j].0
  {
    rows := [];
    var id := 1;
    while id < next
      invariant 1 <= id <= if next < 1 then 1 else next
      invariant forall i :: 0 <= i < |rows| ==> rows[i].0 in table && table[rows[i].0] == rows[i].1
      invariant forall i :: 0 <= i < |rows| ==> rows[i].0 < id
      invariant forall k :: k in table && k < id ==> (k, table[k]) in rows
      invariant forall i, j :: 0 <= i < j < |rows| ==> rows[i].0 < rows[j].0
    {
      if id in table {
        rows := rows + [(id, table[id])];
      }
      id := id + 1;
    }
  }

  class Agency {
    var cats: map<int, SpyCat>
    var missions: map<int, Mission>
    var targets: map<int, Target>
    var nextCatId: int
    var nextMissionId: int
    var nextTargetId: int

    /** The tables as one value. */
    ghost function Snapshot(): State
      reads this
    {
      State(cats, missions, targets, nextCatId, nextMissionId, nextTargetId)
    }

    ghost predicate Valid()
      reads this
    {
      Inv(Snapshot())
    }

    /** An empty database. */
    constructor ()
      ensures Snapshot() == Empty()
      ensures Valid()
    {
      cats, missions, targets := map[], map[], map[];
      nextCatId, nextMissionId, nextTargetId := 1, 1, 1;
    }

    /** `create_spy_cat`: returns the id of the new row. */
    method CreateSpyCat(p: CatPayload) returns (id: int)
      requires Valid()
      modifies this
      ensures Valid()
      ensures id == old(nextCatId) && id !in old(cats)
      ensures Snapshot() == CatRules.CreateSpyCat(old(Snapshot()), p)
    {
      id := nextCatId;
      cats := cats[id := SpyCat(p.name, p.yearsOfExperience, p.breed, p.salary)];
      nextCatId := nextCatId + 1;
    }

    /** `list_spy_cats`: every stored cat, once each, by increasing id. */
    method ListSpyCats() returns (rows: seq<(int, SpyCat)>)
      requires Valid()
      ensures forall i :: 0 <= i < |rows| ==> rows[i].0 in cats && cats[rows[i].0] == rows[i].1
      ensures forall id :: id in cats ==> (id, cats[id]) in rows
      ensures forall i, j :: 0 <= i < j < |rows| ==> rows[i].0 < rows[j].0
    {
      rows := Rows(cats, nextCatId);
    }

    /** `get_spy_cat`: the row under `id`, or not found. */
    method GetSpyCat(id: int) returns (r: Result<SpyCat>)
      ensures r.Ok? <==> id in cats
      ensures r.Ok? ==> r.value == cats[id]
      ensures r.Err? ==> r.error == CatNotFound
    {
      if id !in cats {
        return Err(CatNotFound);
      }
      return Ok(cats[id]);
    }

    /** `update_spy_cat`: each field of the payload is written into the row
        in turn; the updated row is returned. */
    method UpdateSpyCat(id: int, p: CatPayload) returns (r: Result<SpyCat>)
      requires Valid()
      modifies this
      ensures Valid()
      ensures CatRules.UpdateSpyCat(old(Snapshot()), id, p).Ok? ==>
        Snapshot() == CatRules.UpdateSpyCat(old(Snapshot()), id, p).value && r == Ok(cats[id])
      ensures CatRules.UpdateSpyCat(old(Snapshot()), id, p).Err? ==>
        Snapshot() == old(Snapshot()) && r == Err(CatRules.UpdateSpyCat(old(Snapshot()), id, p).error)
    {
      if id !in cats {
        return Err(CatNotFound);
      }
      var c := cats[id];
      c := c.(name := p.name);
      c := c.(yearsOfExperience := p.yearsOfExperience);
      c := c.(breed := p.breed);
      c := c.(salary := p.salary);
      cats := cats[id := c];
      return Ok(c);
    }

    /** `update_spy_cat_salary`: the updated row is returned. */
    method UpdateSpyCatSalary(id: int, salary: real) returns (r: Result<SpyCat>)
      requires Valid()
      modifies this
      ensures Valid()
      ensures CatRules.UpdateSpyCatSalary(old(Snapshot()), id, salary).Ok? ==>
        Snapshot() == CatRules.UpdateSpyCatSalary(old(Snapshot()), id, salary).value && r == Ok(cats[id])
      ensures CatRules.UpdateSpyCatSalary(old(Snapshot()), id, salary).Err? ==>
        Snapshot() == old(Snapshot()) && r == Err(CatRules.UpdateSpyCatSalary(old(Snapshot()), id, salary).error)
    {
      if id !in cats {
        return Err(CatNotFound);
      }
      var c := cats[id].(salary := salary);
      cats := cats[id := c];
      return Ok(c);
    }

    /** `delete_spy_cat`: the row goes, and every mission that referred to it
        is kept with its cat reference cleared. */
    method DeleteSpyCat(id: int) returns (err: Option<Error>)
      requires Valid()
      modifies this
      ensures Valid()
      ensures CatRules.DeleteSpyCat(old(Snapshot()), id).Ok? ==>
        Snapshot() == CatRules.DeleteSpyCat(old(Snapshot()), id).value && err == None
      ensures CatRules.DeleteSpyCat(old(Snapshot()), id).Err? ==>
        Snapshot() == old(Snapshot()) && err == Some(CatRules.DeleteSpyCat(old(Snapshot()), id).error)
    {
      if id !in cats {
        return Some(CatNotFound);
      }
      cats := cats - {id};
      missions := CatRules.WithoutCat(missions, id);
      return None;
    }

    /** `create_mission_with_targets`: the cat is looked up, the mission row
        is created, then one target row per payload entry, in order. Returns
        the id of the new mission. */
    method CreateMissionWithTargets(p: MissionPayload) returns (r: Result<int>)
      requires Valid()
      modifies this
      ensures Valid()
      ensures MissionRules.CreateMissionWithTargets(old(Snapshot()), p).Ok? ==>
        Snapshot() == MissionRules.CreateMissionWithTargets(old(Snapshot()), p).value && r == Ok(old(nextMissionId))
      ensures MissionRules.CreateMissionWithTargets(old(Snapshot()), p).Err? ==>
        Snapshot() == old(Snapshot()) && r == Err(MissionRules.CreateMissionWithTargets(old(Snapshot()), p).error)
    {
      var cat := MissionRules.RequestedCat(p);
      if cat.Some? && cat.value !in cats {
        return Err(CatNotFound);
      }
      var mid := nextMissionId;
      missions := missions[mid := Mission(p.name, p.description, cat, false)];
      nextMissionId := nextMissionId + 1;
      AddTargetRows(mid, p.targets);
      assert Snapshot() == MissionRules.CreateMissionWithTargets(old(Snapshot()), p).value;
      return Ok(mid);
    }

    /** The loop of `create_mission_with_targets`: one target row of mission
        `mid` per payload entry, in order, each under the next target id. */
    method AddTargetRows(mid: int, tps: seq<TargetPayload>)
      modifies this
      ensures Snapshot() == MissionRules.AddTargets(old(Snapshot()), mid, tps)
    {
      var i := 0;
      while i < |tps|
        invariant 0 <= i <= |tps|
        invariant Snapshot() == MissionRules.AddTargets(old(Snapshot()), mid, tps[..i])
      {
        assert tps[..i + 1][..i] == tps[..i];
        targets := targets[nextTargetId := MissionRules.NewTarget(mid, tps[i])];
        nextTargetId := nextTargetId + 1;
        i := i + 1;
      }
      assert tps[..i] == tps;
    }

    /** `list_missions`: every stored mission, once each, by increasing id. */
    method ListMissions() returns (rows: seq<(int, Mission)>)
      requires Valid()
      ensures forall i :: 0 <= i < |rows| ==> rows[i].0 in missions && missions[rows[i].0] == rows[i].1
      ensures forall id :: id in missions ==> (id, missions[id]) in rows
      ensures forall i, j :: 0 <= i < j < |rows| ==> rows[i].0 < rows[j].0
    {
      rows := Rows(missions, nextMissionId);
    }

    /** `get_mission`: the row under `id`, or not found. */
    method GetMission(id: int) returns (r: Result<Mission>)
      ensures r.Ok? <==> id in missions
      ensures r.Ok? ==> r.value == missions[id]
      ensures r.Err? ==> r.error == MissionNotFound
    {
      if id !in missions {
        return Err(MissionNotFound);
      }
      return Ok(missions[id]);
    }

    /** `assign_cat_to_mission`: the updated mission is returned. */
    method AssignCatToMission(mid: int, cid: int) returns (r: Result<Mission>)
      requires Valid()
      modifies this
      ensures Valid()
      ensures MissionRules.AssignCatToMission(old(Snapshot()), mid, cid).Ok? ==>
        Snapshot() == MissionRules.AssignCatToMission(old(Snapshot()), mid, cid).value && r == Ok(missions[mid])
      ensures MissionRules.AssignCatToMission(old(Snapshot()), mid, cid).Err? ==>
        Snapshot() == old(Snapshot()) && r == Err(MissionRules.AssignCatToMission(old(Snapshot()), mid, cid).error)
    {
      if mid !in missions {
        return Err(MissionNotFound);
      }
      if cid !in cats {
        return Err(CatNotFound);
      }
      var m := missions[mid];
      if m.isCompleted {
        return Err(AlreadyCompleted);
      }
      m := m.(assignedCat := Some(cid));
      missions := missions[mid := m];
      return Ok(m);
    }

    /** `remove_cat_from_mission`: the updated mission is returned. */
    method RemoveCatFromMission(mid: int) returns (r: Result<Mission>)
      requires Valid()
      modifies this
      ensures Valid()
      ensures MissionRules.RemoveCatFromMission(old(Snapshot()), mid).Ok? ==>
        Snapshot() == MissionRules.RemoveCatFromMission(old(Snapshot()), mid).value && r == Ok(missions[mid])
      ensures MissionRules.RemoveCatFromMission(old(Snapshot()), mid).Err? ==>
        Snapshot() == old(Snapshot()) && r == Err(MissionRules.RemoveCatFromMission(old(Snapshot()), mid).error)
    {
      if mid !in missions {
        return Err(MissionNotFound);
      }
      var m := missions[mid];
      if m.isCompleted {
        return Err(AlreadyCompleted);
      }
      m := m.(assignedCat := None);
      missions := missions[mid := m];
      return Ok(m);
    }

    /** `delete_mission`: the mission row goes, and its targets with it. */
    method DeleteMission(mid: int) returns (err: Option<Error>)
      requires Valid()
      modifies this
      ensures Valid()
      ensures MissionRules.DeleteMission(old(Snapshot()), mid).Ok? ==>
        Snapshot() == MissionRules.DeleteMission(old(Snapshot()), mid).value && err == None
      ensures MissionRules.DeleteMission(old(Snapshot()), mid).Err? ==>
        Snapshot() == old(Snapshot()) && err == Some(MissionRules.DeleteMission(old(Snapshot()), mid).error)
    {
      if mid !in missions {
        return Some(MissionNotFound);
      }
      if missions[mid].assignedCat.Some? {
        return Some(CatStillAssigned);
      }
      missions := missions - {mid};
      targets := TargetsOutside(targets, mid);
      assert Snapshot() == MissionRules.DeleteMission(old(Snapshot()), mid).value;
      return None;
    }

    /** `update_target_notes`: the updated target is returned. */
    method UpdateTargetNotes(tid: int, notes: string) returns (r: Result<Target>)
      requires Valid()
      modifies this
      ensures Valid()
      ensures MissionRules.UpdateTargetNotes(old(Snapshot()), tid, notes).Ok? ==>
        Snapshot() == MissionRules.UpdateTargetNotes(old(Snapshot()), tid, notes).value && r == Ok(targets[tid])
      ensures MissionRules.UpdateTargetNotes(old(Snapshot()), tid, notes).Err? ==>
        Snapshot() == old(Snapshot()) && r == Err(MissionRules.UpdateTargetNotes(old(Snapshot()), tid, notes).error)
    {
      if tid !in targets {
        return Err(TargetNotFound);
      }
      var t := targets[tid];
      var owner := missions[t.mission];
      var catCheck := MissionRules.CheckIfCatNotAssigned(owner);
      if catCheck.Fail? {
        return Err(catCheck.error);
      }
      var doneCheck := MissionRules.CheckIfCompleted(t, owner);
      if doneCheck.Fail? {
        return Err(doneCheck.error);
      }
      t := t.(notes := notes);
      targets := targets[tid := t];
      assert Snapshot() == MissionRules.UpdateTargetNotes(old(Snapshot()), tid, notes).value;
      return Ok(t);
    }

    /** Whether every target of mission `mid` is completed, scanning the
        targets table and stopping at the first open one. */
    method AllTargetsCompletedOf(mid: int) returns (b: bool)
      requires IdsAllocated(Snapshot())
      ensures b <==> AllTargetsCompleted(targets, mid)
    {
      b := true;
      var id := 1;
      while id < nextTargetId && b
        invariant 1 <= id <= nextTargetId
        invariant b ==> forall t :: t in targets && t < id && targets[t].mission == mid ==> targets[t].isCompleted
        invariant !b ==> !AllTargetsCompleted(targets, mid)
      {
        if id in targets && targets[id].mission == mid && !targets[id].isCompleted {
          b := false;
        }
        id := id + 1;
      }
    }

    /** `mark_target_as_completed`: the target is completed, then the
        mission is completed when all its targets are. The updated target is
        returned. */
    method MarkTargetAsCompleted(tid: int) returns (r: Result<Target>)
      requires Valid()
      modifies this
      ensures Valid()
      ensures MissionRules.MarkTargetAsCompleted(old(Snapshot()), tid).Ok? ==>
        Snapshot() == MissionRules.MarkTargetAsCompleted(old(Snapshot()), tid).value && r == Ok(targets[tid])
      ensures MissionRules.MarkTargetAsCompleted(old(Snapshot()), tid).Err? ==>
        Snapshot() == old(Snapshot()) && r == Err(MissionRules.MarkTargetAsCompleted(old(Snapshot()), tid).error)
    {
      if tid !in targets {
        return Err(TargetNotFound);
      }
      var t := targets[tid];
      var mid := t.mission;
      var owner := missions[mid];
      var catCheck := MissionRules.CheckIfCatNotAssigned(owner);
      if catCheck.Fail? {
        return Err(catCheck.error);
      }
      t := t.(isCompleted := true);
      targets := targets[tid := t];
      var done := AllTargetsCompletedOf(mid);
      if done {
        missions := missions[mid := owner.(isCompleted := true)];
      }
      assert Snapshot() == MissionRules.MarkTargetAsCompleted(old(Snapshot()), tid).value;
      return Ok(t);
    }
  }
}
