/**
 * Any sequence of service calls, applied one after another to the store.
 * A failed call leaves the store as it was. Along every run the store
 * invariant holds, ids are never reused and no completion flag is reset.
 */
module Lifecycle {
  import opened Models
  import opened CatSchemas
  import opened MissionSchemas
  import CatRules
  import MissionRules

  /** One call of a service that changes the store. Its payload is any value
      of the payload type, whether or not it would pass the validators, so
      what is proved about runs holds for unvalidated payloads too. */
  datatype Op =
    | CreateSpyCat(cat: CatPayload)
    | UpdateSpyCat(catId: int, cat: CatPayload)
    | UpdateSpyCatSalary(catId: int, salary: real)
    | DeleteSpyCat(catId: int)
    | CreateMissionWithTargets(mission: MissionPayload)
    | AssignCatToMission(missionId: int, catId: int)
    | RemoveCatFromMission(missionId: int)
    | DeleteMission(missionId: int)
    | UpdateTargetNotes(targetId: int, notes: string)
    | MarkTargetAsCompleted(targetId: int)

  /** The outcome of one call. */
  function Apply(s: State, op: Op): Result<State>
    requires Linked(s)
  {
    match op
    case CreateSpyCat(p) => Ok(CatRules.CreateSpyCat(s, p))
    case UpdateSpyCat(id, p) => CatRules.UpdateSpyCat(s, id, p)
    case UpdateSpyCatSalary(id, salary) => CatRules.UpdateSpyCatSalary(s, id, salary)
    case DeleteSpyCat(id) => CatRules.DeleteSpyCat(s, id)
    case CreateMissionWithTargets(p) => MissionRules.CreateMissionWithTargets(s, p)
    case AssignCatToMission(mid, cid) => MissionRules.AssignCatToMission(s, mid, cid)
    case RemoveCatFromMission(mid) => MissionRules.RemoveCatFromMission(s, mid)
    case DeleteMission(mid) => MissionRules.DeleteMission(s, mid)
    case UpdateTargetNotes(tid, notes) => MissionRules.UpdateTargetNotes(s, tid, notes)
    case MarkTargetAsCompleted(tid) => MissionRules.MarkTargetAsCompleted(s, tid)
  }

  /** `later` follows `earlier`: no id counter goes down, every row that is
      new carries an id at or above the counter of `earlier` (ids are not
      reused), and no mission or target that is in both is completed in
      `earlier` but not in `later`. */
  predicate Follows(earlier: State, later: State) {
    && earlier.nextCatId <= later.nextCatId
    && earlier.nextMissionId <= later.nextMissionId
    && earlier.nextTargetId <= later.nextTargetId
    && (forall c :: c in later.cats && c !in earlier.cats ==> c >= earlier.nextCatId)
    && (forall m :: m in later.missions && m !in earlier.missions ==> m >= earlier.nextMissionId)
    && (forall t :: t in later.targets && t !in earlier.targets ==> t >= earlier.nextTargetId)
    && (forall m :: m in earlier.missions && m in later.missions && earlier.missions[m].isCompleted ==>
          later.missions[m].isCompleted)
    && (forall t :: t in earlier.targets && t in later.targets && earlier.targets[t].isCompleted ==>
          later.targets[t].isCompleted)
  }

  /** The store after one call: the call's new store, or the old one when the
      call fails. Each call keeps the invariant and the new store follows the
      old one. */
  function Step(s: State, op: Op): (r: State)
    requires Inv(s)
    ensures Inv(r)
    ensures Follows(s, r)
    ensures Apply(s, op).Err? ==> r == s
  {
    match Apply(s, op)
    case Ok(s') => ApplyFollows(s, op); s'
    case Err(_) => s
  }

  /** A successful call keeps the invariant and its store follows the old one. */
  lemma ApplyFollows(s: State, op: Op)
    requires Inv(s)
    ensures Apply(s, op).Ok? ==> Inv(Apply(s, op).value) && Follows(s, Apply(s, op).value)
  {
    match op
    case CreateSpyCat(p) => CatOpFollows(s, op);
    case UpdateSpyCat(id, p) => CatOpFollows(s, op);
    case UpdateSpyCatSalary(id, salary) => CatOpFollows(s, op);
    case DeleteSpyCat(id) => CatOpFollows(s, op);
    case CreateMissionWithTargets(p) => CreateFollows(s, p);
    case _ => MissionOpFollows(s, op);
  }

  lemma CatOpFollows(s: State, op: Op)
    requires Inv(s)
    requires op.CreateSpyCat? || op.UpdateSpyCat? || op.UpdateSpyCatSalary? || op.DeleteSpyCat?
    ensures Apply(s, op).Ok? ==> Inv(Apply(s, op).value) && Follows(s, Apply(s, op).value)
  {
  }

  lemma CreateFollows(s: State, p: MissionPayload)
    requires Inv(s)
    ensures var r := MissionRules.CreateMissionWithTargets(s, p); r.Ok? ==> Inv(r.value) && Follows(s, r.value)
  {
    var r := MissionRules.CreateMissionWithTargets(s, p);
    if r.Ok? {
      var s' := r.value;
      assert forall m :: m in s.missions ==> m != s.nextMissionId && s'.missions[m] == s.missions[m];
      assert forall t :: t in s.targets ==> t < s.nextTargetId && s'.targets[t] == s.targets[t];
    }
  }

  lemma MissionOpFollows(s: State, op: Op)
    requires Inv(s)
    requires op.AssignCatToMission? || op.RemoveCatFromMission? || op.DeleteMission? || op.UpdateTargetNotes? || op.MarkTargetAsCompleted?
    ensures Apply(s, op).Ok? ==> Inv(Apply(s, op).value) && Follows(s, Apply(s, op).value)
  {
  }

  /** `Follows` chains: ids that leave the store never come back, so a row
      present at both ends was present in between. */
  lemma FollowsTransitive(a: State, b: State, c: State)
    requires IdsAllocated(a)
    requires Follows(a, b) && Follows(b, c)
    ensures Follows(a, c)
  {
    forall m | m in a.missions && m in c.missions && a.missions[m].isCompleted
      ensures c.missions[m].isCompleted
    {
      assert m < a.nextMissionId <= b.nextMissionId;
    }
    forall t | t in a.targets && t in c.targets && a.targets[t].isCompleted
      ensures c.targets[t].isCompleted
    {
      assert t < a.nextTargetId <= b.nextTargetId;
    }
  }

  /** The store after a sequence of calls, made in order. */
  function Run(s: State, ops: seq<Op>): (r: State)
    requires Inv(s)
    ensures Inv(r)
    ensures Follows(s, r)
    decreases |ops|
  {
    if |ops| == 0 then s
    else
      var next := Step(s, ops[0]);
      var r := Run(next, ops[1..]);
      FollowsTransitive(s, next, r);
      r
  }

  /** Every store the services can reach from an empty database keeps the
      invariant: in particular a mission is completed exactly when it has a
      target and all its targets are completed. */
  lemma ReachableStoresAreConsistent(ops: seq<Op>)
    ensures Inv(Run(Empty(), ops))
    ensures forall m :: m in Run(Empty(), ops).missions ==>
      (Run(Empty(), ops).missions[m].isCompleted <==>
         HasTargets(Run(Empty(), ops).targets, m) && AllTargetsCompleted(Run(Empty(), ops).targets, m))
  {
  }
}
