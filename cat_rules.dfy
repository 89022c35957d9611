/**
 * What each operation of the cat registry does to the store, as a function
 * of the store before the call. The contracts state what the registry
 * promises; the store class in module Store realises these step by step.
 */
module CatRules {
  import opened Common
  import opened Models
  import opened CatSchemas

  /** The row a validated payload becomes. */
  function CatOf(p: CatPayload): SpyCat {
    SpyCat(p.name, p.yearsOfExperience, p.breed, p.salary)
  }

  /** `create_spy_cat`: the cat is stored under an id not used before, with
      the fields of the payload, and no other row changes; the store
      invariant is kept. */
  function CreateSpyCat(s: State, p: CatPayload): (r: State)
    ensures IdsAllocated(s) ==> s.nextCatId !in s.cats
    ensures r.cats.Keys == s.cats.Keys + {s.nextCatId}
    ensures r.cats[s.nextCatId].name == p.name && r.cats[s.nextCatId].yearsOfExperience == p.yearsOfExperience
    ensures r.cats[s.nextCatId].breed == p.breed && r.cats[s.nextCatId].salary == p.salary
    ensures forall c :: c in s.cats && c != s.nextCatId ==> r.cats[c] == s.cats[c]
    ensures r.missions == s.missions && r.targets == s.targets
    ensures r.nextCatId == s.nextCatId + 1 && r.nextMissionId == s.nextMissionId && r.nextTargetId == s.nextTargetId
    ensures Inv(s) ==> Inv(r)
  {
    s.(cats := s.cats[s.nextCatId := CatOf(p)], nextCatId := s.nextCatId + 1)
  }

  /** `update_spy_cat`: fails for a missing cat; otherwise every field of the
      payload overwrites the cat's, under the same id, and nothing else
      changes. */
  function UpdateSpyCat(s: State, id: int, p: CatPayload): (r: Result<State>)
    ensures r.Err? <==> id !in s.cats
    ensures r.Err? ==> r.error == CatNotFound
    ensures r.Ok? ==>
      && r.value.cats.Keys == s.cats.Keys
      && r.value.cats[id] == SpyCat(p.name, p.yearsOfExperience, p.breed, p.salary)
      && (forall c :: c in s.cats && c != id ==> r.value.cats[c] == s.cats[c])
      && r.value.missions == s.missions && r.value.targets == s.targets
      && r.value.nextCatId == s.nextCatId && r.value.nextMissionId == s.nextMissionId && r.value.nextTargetId == s.nextTargetId
    ensures r.Ok? && Inv(s) ==> Inv(r.value)
  {
    if id !in s.cats then Err(CatNotFound)
    else
      var c := s.cats[id];
      var c := c.(name := p.name);
      var c := c.(yearsOfExperience := p.yearsOfExperience);
      var c := c.(breed := p.breed);
      var c := c.(salary := p.salary);
      Ok(s.(cats := s.cats[id := c]))
  }

  /** `update_spy_cat_salary`: fails for a missing cat; otherwise only that
      cat's salary changes. */
  function UpdateSpyCatSalary(s: State, id: int, salary: real): (r: Result<State>)
    ensures r.Err? <==> id !in s.cats
    ensures r.Err? ==> r.error == CatNotFound
    ensures r.Ok? ==>
      && r.value.cats.Keys == s.cats.Keys
      && r.value.cats[id].salary == salary
      && r.value.cats[id].name == s.cats[id].name
      && r.value.cats[id].yearsOfExperience == s.cats[id].yearsOfExperience
      && r.value.cats[id].breed == s.cats[id].breed
      && (forall c :: c in s.cats && c != id ==> r.value.cats[c] == s.cats[c])
      && r.value.missions == s.missions && r.value.targets == s.targets
      && r.value.nextCatId == s.nextCatId && r.value.nextMissionId == s.nextMissionId && r.value.nextTargetId == s.nextTargetId
    ensures r.Ok? && Inv(s) ==> Inv(r.value)
  {
    if id !in s.cats then Err(CatNotFound)
    else Ok(s.(cats := s.cats[id := s.cats[id].(salary := salary)]))
  }

  /** The missions once cat `id` is deleted: the reference is nulled. */
  function WithoutCat(missions: map<int, Mission>, id: int): (r: map<int, Mission>)
    ensures r.Keys == missions.Keys
    ensures forall m :: m in r ==> r[m].assignedCat != Some(id)
    ensures forall m :: m in r ==>
      r[m].name == missions[m].name && r[m].description == missions[m].description
      && r[m].isCompleted == missions[m].isCompleted
    ensures forall m :: m in r && missions[m].assignedCat == Some(id) ==> r[m] == missions[m].(assignedCat := None)
    ensures forall m :: m in r && missions[m].assignedCat != Some(id) ==> r[m] == missions[m]
  {
    map m | m in missions :: if missions[m].assignedCat == Some(id) then missions[m].(assignedCat := None) else missions[m]
  }

  /** `delete_spy_cat`: fails for a missing cat. Otherwise the cat is gone,
      every mission survives, those that had this cat have none and are
      otherwise unchanged, the other missions are untouched, and the store
      invariant is kept. */
  function DeleteSpyCat(s: State, id: int): (r: Result<State>)
    ensures r.Err? <==> id !in s.cats
    ensures r.Err? ==> r.error == CatNotFound
    ensures r.Ok? ==>
      && r.value.cats.Keys == s.cats.Keys - {id}
      && (forall c :: c in r.value.cats ==> r.value.cats[c] == s.cats[c])
      && r.value.missions.Keys == s.missions.Keys
      && (forall m :: m in s.missions && s.missions[m].assignedCat == Some(id) ==>
            r.value.missions[m] == s.missions[m].(assignedCat := None))
      && (forall m :: m in s.missions && s.missions[m].assignedCat != Some(id) ==>
            r.value.missions[m] == s.missions[m])
      && r.value.targets == s.targets
      && r.value.nextCatId == s.nextCatId && r.value.nextMissionId == s.nextMissionId && r.value.nextTargetId == s.nextTargetId
    ensures r.Ok? && Inv(s) ==> Inv(r.value)
  {
    if id !in s.cats then Err(CatNotFound)
    else Ok(s.(cats := s.cats - {id}, missions := WithoutCat(s.missions, id)))
  }
}
