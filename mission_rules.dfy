/**
 * What each operation of the mission registry does to the store, as a
 * function of the store before the call: the two guards, creation of a
 * mission with its targets, assigning and removing a cat, deleting a
 * mission, updating a target's notes and marking a target completed.
 */
module MissionRules {
  import opened Common
  import opened Models
  import opened MissionSchemas

  /** `check_if_cat_not_assigned`: a mission without a cat cannot be modified. */
  function CheckIfCatNotAssigned(m: Mission): (r: Outcome)
    ensures r == Pass <==> m.assignedCat.Some?
    ensures r.Fail? ==> r.error == NoCatAssigned
  {
    if m.assignedCat.None? then Fail(NoCatAssigned) else Pass
  }

  /** `check_if_completed`: neither a completed target nor a target of a
      completed mission can be modified. */
  function CheckIfCompleted(t: Target, owner: Mission): (r: Outcome)
    ensures r == Pass <==> !t.isCompleted && !owner.isCompleted
    ensures r.Fail? ==> r.error == AlreadyCompleted
  {
    if t.isCompleted || owner.isCompleted then Fail(AlreadyCompleted) else Pass
  }

  /** The cat a creation payload asks for. The id is tested for truth, so a
      missing id and the id 0 both mean "no cat". */
  function RequestedCat(p: MissionPayload): (r: Option<int>)
    ensures r.None? <==> p.assignedCat == None || p.assignedCat == Some(0)
    ensures r.Some? ==> r == p.assignedCat && r.value != 0
  {
    match p.assignedCat
    case None => None
    case Some(c) => if c == 0 then None else Some(c)
  }

  /** The row a validated target payload becomes: it is not completed. */
  function NewTarget(mid: int, tp: TargetPayload): Target {
    Target(mid, tp.name, tp.country, tp.notes, false)
  }

  /** The loop that creates the targets of mission `mid`, one row per payload
      entry, in order, under consecutive fresh ids. */
  function AddTargets(s: State, mid: int, tps: seq<TargetPayload>): (r: State)
    ensures r.cats == s.cats && r.missions == s.missions
    ensures r.nextCatId == s.nextCatId && r.nextMissionId == s.nextMissionId
    ensures r.nextTargetId == s.nextTargetId + |tps|
    ensures forall t :: t in r.targets <==> t in s.targets || s.nextTargetId <= t < r.nextTargetId
    ensures forall t :: t in s.targets && t < s.nextTargetId ==> r.targets[t] == s.targets[t]
    ensures forall i :: 0 <= i < |tps| ==> r.targets[s.nextTargetId + i] == NewTarget(mid, tps[i])
    decreases |tps|
  {
    if |tps| == 0 then s
    else
      var prev := AddTargets(s, mid, tps[..|tps| - 1]);
      prev.(targets := prev.targets[prev.nextTargetId := NewTarget(mid, tps[|tps| - 1])],
            nextTargetId := prev.nextTargetId + 1)
  }

  /** The row a creation payload becomes before its targets are added. */
  function NewMission(p: MissionPayload): Mission {
    Mission(p.name, p.description, RequestedCat(p), false)
  }

  /** The store right after the mission row is created, before its targets. */
  function WithMission(s: State, p: MissionPayload): State {
    s.(missions := s.missions[s.nextMissionId := NewMission(p)], nextMissionId := s.nextMissionId + 1)
  }

  /** `create_mission_with_targets`: the cat is looked up first, so a missing
      cat fails before anything is created. Otherwise exactly one mission is
      added, not completed, under a fresh id, with the payload's fields and
      cat, and its targets are the payload's targets in order under
      consecutive fresh ids, none completed; no other row changes. */
  function CreateMissionWithTargets(s: State, p: MissionPayload): (r: Result<State>)
    ensures r.Err? <==> RequestedCat(p).Some? && RequestedCat(p).value !in s.cats
    ensures r.Err? ==> r.error == CatNotFound
    ensures r.Ok? ==>
      && r.value.cats == s.cats
      && r.value.missions.Keys == s.missions.Keys + {s.nextMissionId}
      && (forall m :: m in s.missions && m != s.nextMissionId ==> r.value.missions[m] == s.missions[m])
      && r.value.missions[s.nextMissionId] == Mission(p.name, p.description, RequestedCat(p), false)
      && r.value.nextCatId == s.nextCatId && r.value.nextMissionId == s.nextMissionId + 1
      && r.value.nextTargetId == s.nextTargetId + |p.targets|
      && (forall t :: t in r.value.targets <==> t in s.targets || s.nextTargetId <= t < r.value.nextTargetId)
      && (forall t :: t in s.targets && t < s.nextTargetId ==> r.value.targets[t] == s.targets[t])
      && (forall i :: 0 <= i < |p.targets| ==>
            r.value.targets[s.nextTargetId + i] ==
            Target(s.nextMissionId, p.targets[i].name, p.targets[i].country, p.targets[i].notes, false))
    ensures r.Ok? && Inv(s) ==> Inv(r.value)
  {
    var cat := RequestedCat(p);
    if cat.Some? && cat.value !in s.cats then Err(CatNotFound)
    else
      CreateKeepsInv(s, p);
      Ok(AddTargets(WithMission(s, p), s.nextMissionId, p.targets))
  }

  /** Every row the creation loop adds belongs to the new mission. */
  lemma AddedTargetsBelong(s: State, mid: int, tps: seq<TargetPayload>)
    ensures forall t :: t in AddTargets(s, mid, tps).targets && t !in s.targets ==>
      AddTargets(s, mid, tps).targets[t].mission == mid
  {
    var r := AddTargets(s, mid, tps);
    forall t | t in r.targets && t !in s.targets
      ensures r.targets[t].mission == mid
    {
      assert r.targets[s.nextTargetId + (t - s.nextTargetId)] == NewTarget(mid, tps[t - s.nextTargetId]);
    }
  }

  lemma CreateKeepsInv(s: State, p: MissionPayload)
    requires RequestedCat(p).None? || RequestedCat(p).value in s.cats
    ensures Inv(s) ==> Inv(AddTargets(WithMission(s, p), s.nextMissionId, p.targets))
  {
    if Inv(s) {
      var r := AddTargets(WithMission(s, p), s.nextMissionId, p.targets);
      AddedTargetsBelong(WithMission(s, p), s.nextMissionId, p.targets);
      CreateKeepsLinked(s, p, r);
      CreateKeepsCompletion(s, p, r);
    }
  }

  lemma CreateKeepsLinked(s: State, p: MissionPayload, r: State)
    requires Inv(s) && (RequestedCat(p).None? || RequestedCat(p).value in s.cats)
    requires r == AddTargets(WithMission(s, p), s.nextMissionId, p.targets)
    requires forall t :: t in r.targets && t !in s.targets ==> r.targets[t].mission == s.nextMissionId
    ensures IdsAllocated(r) && Linked(r)
  {
  }

  lemma CreateKeepsCompletion(s: State, p: MissionPayload, r: State)
    requires Inv(s)
    requires r == AddTargets(WithMission(s, p), s.nextMissionId, p.targets)
    requires forall t :: t in r.targets && t !in s.targets ==> r.targets[t].mission == s.nextMissionId
    ensures CompletionConsistent(r)
  {
    var mid := s.nextMissionId;
    forall m | m in r.missions
      ensures r.missions[m].isCompleted <==> HasTargets(r.targets, m) && AllTargetsCompleted(r.targets, m)
    {
      if m == mid {
        if |p.targets| > 0 {
          assert r.targets[s.nextTargetId + 0] == NewTarget(mid, p.targets[0]);
        } else {
          assert !HasTargets(r.targets, m);
        }
      } else {
        assert forall t :: IsTargetOf(r.targets, m, t) <==> IsTargetOf(s.targets, m, t);
        assert s.missions[m] == r.missions[m];
      }
    }
  }

  /** `assign_cat_to_mission`: the mission is looked up first, then the cat,
      then completion is checked. On success only that mission's cat
      changes, to the given cat. */
  function AssignCatToMission(s: State, mid: int, cid: int): (r: Result<State>)
    ensures r.Err? <==> mid !in s.missions || cid !in s.cats || s.missions[mid].isCompleted
    ensures mid !in s.missions ==> r == Err(MissionNotFound)
    ensures mid in s.missions && cid !in s.cats ==> r == Err(CatNotFound)
    ensures mid in s.missions && cid in s.cats && s.missions[mid].isCompleted ==> r == Err(AlreadyCompleted)
    ensures r.Ok? ==>
      && r.value.missions.Keys == s.missions.Keys
      && r.value.missions[mid] == s.missions[mid].(assignedCat := Some(cid))
      && (forall m :: m in s.missions && m != mid ==> r.value.missions[m] == s.missions[m])
      && r.value.cats == s.cats && r.value.targets == s.targets
      && r.value.nextCatId == s.nextCatId && r.value.nextMissionId == s.nextMissionId && r.value.nextTargetId == s.nextTargetId
    ensures r.Ok? && Inv(s) ==> Inv(r.value)
  {
    if mid !in s.missions then Err(MissionNotFound)
    else if cid !in s.cats then Err(CatNotFound)
    else if s.missions[mid].isCompleted then Err(AlreadyCompleted)
    else Ok(s.(missions := s.missions[mid := s.missions[mid].(assignedCat := Some(cid))]))
  }

  /** `remove_cat_from_mission`: fails for a missing or completed mission;
      otherwise only that mission's cat changes, to none. */
  function RemoveCatFromMission(s: State, mid: int): (r: Result<State>)
    ensures r.Err? <==> mid !in s.missions || s.missions[mid].isCompleted
    ensures mid !in s.missions ==> r == Err(MissionNotFound)
    ensures mid in s.missions && s.missions[mid].isCompleted ==> r == Err(AlreadyCompleted)
    ensures r.Ok? ==>
      && r.value.missions.Keys == s.missions.Keys
      && r.value.missions[mid] == s.missions[mid].(assignedCat := None)
      && (forall m :: m in s.missions && m != mid ==> r.value.missions[m] == s.missions[m])
      && r.value.cats == s.cats && r.value.targets == s.targets
      && r.value.nextCatId == s.nextCatId && r.value.nextMissionId == s.nextMissionId && r.value.nextTargetId == s.nextTargetId
    ensures r.Ok? && Inv(s) ==> Inv(r.value)
  {
    if mid !in s.missions then Err(MissionNotFound)
    else if s.missions[mid].isCompleted then Err(AlreadyCompleted)
    else Ok(s.(missions := s.missions[mid := s.missions[mid].(assignedCat := None)]))
  }

  /** `delete_mission`: fails for a missing mission and for a mission that
      has a cat. Otherwise the mission is removed and, by the cascade, so is
      every target of it; every other row stays as it was. */
  function DeleteMission(s: State, mid: int): (r: Result<State>)
    ensures r.Err? <==> mid !in s.missions || s.missions[mid].assignedCat.Some?
    ensures mid !in s.missions ==> r == Err(MissionNotFound)
    ensures mid in s.missions && s.missions[mid].assignedCat.Some? ==> r == Err(CatStillAssigned)
    ensures r.Ok? ==>
      && r.value.missions.Keys == s.missions.Keys - {mid}
      && (forall m :: m in r.value.missions ==> r.value.missions[m] == s.missions[m])
      && (forall t :: t in r.value.targets <==> t in s.targets && s.targets[t].mission != mid)
      && (forall t :: t in r.value.targets ==> r.value.targets[t] == s.targets[t])
      && r.value.cats == s.cats
      && r.value.nextCatId == s.nextCatId && r.value.nextMissionId == s.nextMissionId && r.value.nextTargetId == s.nextTargetId
    ensures r.Ok? && Inv(s) ==> Inv(r.value)
  {
    if mid !in s.missions then Err(MissionNotFound)
    else if s.missions[mid].assignedCat.Some? then Err(CatStillAssigned)
    else Ok(s.(missions := s.missions - {mid}, targets := TargetsOutside(s.targets, mid)))
  }

  /** `update_target_notes`: the target is looked up, then its mission must
      have a cat, then neither the target nor its mission may be completed.
      The new notes are not checked against any length limit. On success
      only that target's notes change. */
  function UpdateTargetNotes(s: State, tid: int, notes: string): (r: Result<State>)
    requires Linked(s)
    ensures r.Err? <==>
      tid !in s.targets
      || s.missions[s.targets[tid].mission].assignedCat.None?
      || s.targets[tid].isCompleted
      || s.missions[s.targets[tid].mission].isCompleted
    ensures tid !in s.targets ==> r == Err(TargetNotFound)
    ensures tid in s.targets && s.missions[s.targets[tid].mission].assignedCat.None? ==> r == Err(NoCatAssigned)
    ensures r.Err? && tid in s.targets && s.missions[s.targets[tid].mission].assignedCat.Some? ==> r == Err(AlreadyCompleted)
    ensures r.Ok? ==>
      && r.value.targets.Keys == s.targets.Keys
      && r.value.targets[tid] == s.targets[tid].(notes := notes)
      && (forall t :: t in s.targets && t != tid ==> r.value.targets[t] == s.targets[t])
      && r.value.cats == s.cats && r.value.missions == s.missions
      && r.value.nextCatId == s.nextCatId && r.value.nextMissionId == s.nextMissionId && r.value.nextTargetId == s.nextTargetId
    ensures r.Ok? && Inv(s) ==> Inv(r.value)
  {
    if tid !in s.targets then Err(TargetNotFound)
    else
      var t := s.targets[tid];
      var owner := s.missions[t.mission];
      var catCheck := CheckIfCatNotAssigned(owner);
      var doneCheck := CheckIfCompleted(t, owner);
      if catCheck.Fail? then Err(catCheck.error)
      else if doneCheck.Fail? then Err(doneCheck.error)
      else Ok(s.(targets := s.targets[tid := t.(notes := notes)]))
  }

  /** `mark_target_as_completed`: the target is looked up and its mission must
      have a cat; whether either is already completed is not checked. The
      target becomes completed, and its mission becomes completed when every
      target of it now is; a mission is never reset to not completed. */
  function MarkTargetAsCompleted(s: State, tid: int): (r: Result<State>)
    requires Linked(s)
    ensures r.Err? <==> tid !in s.targets || s.missions[s.targets[tid].mission].assignedCat.None?
    ensures tid !in s.targets ==> r == Err(TargetNotFound)
    ensures tid in s.targets && s.missions[s.targets[tid].mission].assignedCat.None? ==> r == Err(NoCatAssigned)
    ensures r.Ok? ==>
      && r.value.targets.Keys == s.targets.Keys
      && r.value.targets[tid] == s.targets[tid].(isCompleted := true)
      && (forall t :: t in s.targets && t != tid ==> r.value.targets[t] == s.targets[t])
      && r.value.missions.Keys == s.missions.Keys
      && (r.value.missions[s.targets[tid].mission].isCompleted <==>
            s.missions[s.targets[tid].mission].isCompleted || AllTargetsCompleted(r.value.targets, s.targets[tid].mission))
      && r.value.missions[s.targets[tid].mission] ==
           s.missions[s.targets[tid].mission].(isCompleted := r.value.missions[s.targets[tid].mission].isCompleted)
      && (forall m :: m in s.missions && m != s.targets[tid].mission ==> r.value.missions[m] == s.missions[m])
      && r.value.cats == s.cats
      && r.value.nextCatId == s.nextCatId && r.value.nextMissionId == s.nextMissionId && r.value.nextTargetId == s.nextTargetId
    ensures r.Ok? && Inv(s) ==> Inv(r.value)
  {
    if tid !in s.targets then Err(TargetNotFound)
    else
      var t := s.targets[tid];
      var mid := t.mission;
      var owner := s.missions[mid];
      var catCheck := CheckIfCatNotAssigned(owner);
      if catCheck.Fail? then Err(catCheck.error)
      else
        var targets := s.targets[tid := t.(isCompleted := true)];
        var missions := if AllTargetsCompleted(targets, mid) then s.missions[mid := owner.(isCompleted := true)] else s.missions;
        Ok(s.(targets := targets, missions := missions))
  }
  /** Completing the last open target of a mission that has a cat completes
      the mission. */
  lemma MarkLastTargetCompletesMission(s: State, tid: int)
    requires Linked(s) && tid in s.targets
    requires s.missions[s.targets[tid].mission].assignedCat.Some?
    requires forall t :: IsTargetOf(s.targets, s.targets[tid].mission, t) && t != tid ==> s.targets[t].isCompleted
    ensures MarkTargetAsCompleted(s, tid).Ok?
    ensures MarkTargetAsCompleted(s, tid).value.missions[s.targets[tid].mission].isCompleted
  {
    var r := MarkTargetAsCompleted(s, tid).value;
    var mid := s.targets[tid].mission;
    forall t | t in r.targets && r.targets[t].mission == mid
      ensures r.targets[t].isCompleted
    {
      if t != tid {
        assert IsTargetOf(s.targets, mid, t);
      }
    }
  }

  /** While another target of the mission is still open, completing one
      target leaves a consistent mission not completed. */
  lemma MarkOpenSiblingKeepsMissionOpen(s: State, tid: int, other: int)
    requires Inv(s) && tid in s.targets
    requires s.missions[s.targets[tid].mission].assignedCat.Some?
    requires IsTargetOf(s.targets, s.targets[tid].mission, other) && other != tid && !s.targets[other].isCompleted
    ensures MarkTargetAsCompleted(s, tid).Ok?
    ensures !MarkTargetAsCompleted(s, tid).value.missions[s.targets[tid].mission].isCompleted
  {
    var mid := s.targets[tid].mission;
    assert !AllTargetsCompleted(s.targets, mid);
    assert !AllTargetsCompleted(MarkTargetAsCompleted(s, tid).value.targets, mid) by {
      assert IsTargetOf(MarkTargetAsCompleted(s, tid).value.targets, mid, other);
    }
  }

  /** Marking the same target a second time changes nothing. */
  lemma MarkTwiceIsMarkOnce(s: State, tid: int)
    requires Linked(s)
    ensures MarkTargetAsCompleted(s, tid).Ok? ==>
      && Linked(MarkTargetAsCompleted(s, tid).value)
      && MarkTargetAsCompleted(MarkTargetAsCompleted(s, tid).value, tid) == MarkTargetAsCompleted(s, tid)
  {
    var r1 := MarkTargetAsCompleted(s, tid);
    if r1.Ok? {
      var s1 := r1.value;
      var mid := s.targets[tid].mission;
      assert Linked(s1);
      var r2 := MarkTargetAsCompleted(s1, tid);
      assert s1.targets[tid := s1.targets[tid].(isCompleted := true)] == s1.targets;
      assert r2.value.targets == s1.targets;
      if AllTargetsCompleted(s1.targets, mid) {
        assert s1.missions[mid := s1.missions[mid].(isCompleted := true)] == s1.missions;
      }
      assert r2.value.missions == s1.missions;
    }
  }
}
