/**
 * The stored records (`SpyCat`, `Mission` and `Target` rows), the whole store
 * as one value, and the facts every reachable store satisfies.
 */
module Models {
  import opened Common

  /** Why a service call failed. The services raise these as exceptions with a
      message; the message text is not modelled. */
  datatype Error =
    | CatNotFound        // no cat with that id
    | MissionNotFound    // no mission with that id
    | TargetNotFound     // no target with that id
    | NoCatAssigned      // `check_if_cat_not_assigned` raised
    | AlreadyCompleted   // the target or its mission is completed
    | CatStillAssigned   // a mission with a cat cannot be deleted

  /** The value a service returns, or the error it raises. */
  datatype Result<T> = Ok(value: T) | Err(error: Error)

  /** A guard that returns nothing or raises. */
  datatype Outcome = Pass | Fail(error: Error)

  /** A spy cat row (the id is its key in the store). */
  datatype SpyCat = SpyCat(name: string, yearsOfExperience: int, breed: string, salary: real)

  /** A mission row: the cat reference is nullable, completion defaults to false. */
  datatype Mission = Mission(name: string, description: string, assignedCat: Option<int>, isCompleted: bool)

  /** A target row: it belongs to one mission; completion defaults to false. */
  datatype Target = Target(mission: int, name: string, country: string, notes: string, isCompleted: bool)

  /** The three tables, keyed by id, with the next id each table hands out.
      Ids are never reused. */
  datatype State = State(
    cats: map<int, SpyCat>,
    missions: map<int, Mission>,
    targets: map<int, Target>,
    nextCatId: int,
    nextMissionId: int,
    nextTargetId: int)

  /** The empty store: no rows, every id counter at 1. */
  function Empty(): State {
    State(map[], map[], map[], 1, 1, 1)
  }

  /** Target `t` is one of the targets of mission `mid`. */
  predicate IsTargetOf(targets: map<int, Target>, mid: int, t: int) {
    t in targets && targets[t].mission == mid
  }

  /** Mission `mid` has at least one target. */
  predicate HasTargets(targets: map<int, Target>, mid: int) {
    exists t :: t in targets && targets[t].mission == mid
  }

  /** Every target of mission `mid` is completed (true of a mission without targets). */
  predicate AllTargetsCompleted(targets: map<int, Target>, mid: int) {
    forall t :: t in targets && targets[t].mission == mid ==> targets[t].isCompleted
  }

  /** The rows of mission `mid`'s targets removed, as the cascade does. */
  function TargetsOutside(targets: map<int, Target>, mid: int): (r: map<int, Target>)
    ensures forall t :: t in r ==> t in targets && r[t] == targets[t]
    ensures forall t :: t in targets ==> (t in r <==> targets[t].mission != mid)
    ensures !HasTargets(r, mid)
  {
    map t | t in targets && targets[t].mission != mid :: targets[t]
  }

  /** Every id in use is positive and below the counter of its table. */
  predicate IdsAllocated(s: State) {
    && 1 <= s.nextCatId && 1 <= s.nextMissionId && 1 <= s.nextTargetId
    && (forall c :: c in s.cats ==> 1 <= c < s.nextCatId)
    && (forall m :: m in s.missions ==> 1 <= m < s.nextMissionId)
    && (forall t :: t in s.targets ==> 1 <= t < s.nextTargetId)
  }

  /** Every reference points at an existing row: each target's mission (the
      reference cascades) and each mission's cat (the reference is nulled). */
  predicate Linked(s: State) {
    && (forall t :: t in s.targets ==> s.targets[t].mission in s.missions)
    && (forall m :: m in s.missions && s.missions[m].assignedCat.Some? ==> s.missions[m].assignedCat.value in s.cats)
  }

  /** A mission is completed exactly when it has at least one target and all
      of its targets are completed. */
  predicate CompletionConsistent(s: State)
    ensures CompletionConsistent(s) ==>
      forall m :: m in s.missions && s.missions[m].isCompleted ==> HasTargets(s.targets, m)
  {
    forall m :: m in s.missions ==>
      (s.missions[m].isCompleted <==> HasTargets(s.targets, m) && AllTargetsCompleted(s.targets, m))
  }

  /** The store invariant. */
  predicate Inv(s: State)
    ensures Inv(s) ==>
      forall t :: t in s.targets ==>
        s.targets[t].mission in s.missions && (s.missions[s.targets[t].mission].isCompleted ==> s.targets[t].isCompleted)
  {
    IdsAllocated(s) && Linked(s) && CompletionConsistent(s)
  }
}
