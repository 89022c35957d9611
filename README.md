# SpyCatAgency business rules in Dafny

This project models the rule-bearing core of SpyCatAgency, a Django service
for a spy agency. The agency has three kinds of records:
- spy cats, each with a name, years of experience, a breed and a salary;
- missions, each with a name, a description, an optional assigned cat and a
  completion flag;
- targets, each belonging to one mission, with a name, a country, notes and a
  completion flag.

The model covers the field validators of the creation payloads, the cat
registry (create, list, get, full update, salary update, delete) and the
mission registry:
- create a mission together with its targets;
- list and get missions;
- assign a cat to a mission, or remove it;
- delete a mission;
- update a target's notes;
- mark a target completed, which completes the mission once all its targets
  are completed.

Layout:
- `common.dfy`: `Option`, and `Validated`, the outcome of a field validator
  (the accepted value, or the failing fields).
- `text.dfy`: Python's `str.strip()` emptiness test and `str.title()` over
  ASCII letters.
- `cat_schemas.dfy`, `mission_schemas.dfy`: the pydantic validators as pure
  functions. The breed catalog is a parameter.
- `models.dfy`: the rows, the whole database as one `State` value, and the
  store invariant `Inv`. `Inv` says:
  - ids are positive and below their table's counter;
  - every target's mission exists, and every assigned cat exists;
  - a mission is completed exactly when it has a target and all its targets
    are completed.
- `cat_rules.dfy`, `mission_rules.dfy`: each service as a function from the
  state before the call to the state after it, or to the error it raises.
  Each contract states the error conditions, in the order the code checks
  them, what changes, that nothing else changes (other rows and the id
  counters alike), and that `Inv` is kept.
- `lifecycle.dfy`: any sequence of calls. A failed call leaves the store
  unchanged. Along every run the invariant holds, ids are never reused, and
  no completion flag goes back to false.
- `store.dfy`: the database as the class `Agency`, whose tables the methods
  update in place. Each mutating method is proved to produce exactly the
  state its rule function describes. The target-creation loop and the
  "all targets completed" scan are loops with invariants.

Errors are a small datatype, one constructor per cause: `CatNotFound`,
`MissionNotFound`, `TargetNotFound`, `NoCatAssigned`, `AlreadyCompleted` and
`CatStillAssigned`. The cat row's fields are taken from the cat schemas;
`cats/models.py` is not part of this model.

## Model

| member | source | states |
|---|---|---|
| `Text.Strip` | cats/schemas.py:37 | stripping leaves nothing exactly when every character is Python whitespace (the only use `not value.strip()` makes of it); a non-empty result has no whitespace at either end and is no longer than the input |
| `Text.TitleFrom` | cats/schemas.py:8-9 | position by position: a character that follows a cased letter is lower-cased, any other is upper-cased, and non-letters are left as they are; the length is kept |
| `Text.Title` | cats/schemas.py:8-9 | `str.title()` over ASCII: each letter that starts a word (no cased letter before it) is upper-cased, every later letter of the word lower-cased |
| `Text.TitleFromKeepsLetters` | cats/schemas.py:8-9 | title-casing changes only the case of letters: the result agrees with the input up to case |
| `Text.TitleFromIgnoresCase` | cats/schemas.py:8-9 | the title-cased form depends only on the input up to letter case |
| `Text.TitleEqualIffSameIgnoringCase` | cats/schemas.py:8-9 | two strings have equal title-cased forms exactly when they agree up to letter case |
| `CatSchemas.TitledNames` | cats/schemas.py:8 | the list comprehension: one entry per catalog name, in catalog order, each the title-cased name |
| `CatSchemas.TitledNamesContains` | cats/schemas.py:8 | a name is in the list of title-cased catalog names exactly when some catalog entry title-cases to it |
| `CatSchemas.BreedMembership` | cats/schemas.py:8-9 | the title-cased breed is in the title-cased catalog exactly when some catalog name equals the breed up to letter case |
| `CatSchemas.ValidateBreed` | cats/schemas.py:6-9 | a breed is valid exactly when some catalog name equals it up to letter case |
| `CatSchemas.ValidateCreateSpyCat` | cats/schemas.py:29-57 | accepted exactly when the name is not blank, years ≥ 0 (zero allowed), the breed is in the catalog and salary ≥ 0; an accepted payload is returned unchanged (breed not title-cased, name not stripped); when rejected, each field is reported exactly when its own rule fails |
| `CatSchemas.ValidateUpdateSalary` | cats/schemas.py:20-27 | accepted exactly when salary ≥ 0, returned unchanged; otherwise only the salary field is reported |
| `CatSchemas.SalaryRuleShared` | cats/schemas.py:23-57 | creation and the salary update apply the same salary rule: a created cat's salary passes the update schema, and a salary the update schema refuses is refused at creation with the salary field reported |
| `MissionSchemas.ValidateCreateTarget` | missions/schemas.py:26-47 | accepted exactly when name and country are not blank and the notes (default `""`) hold at most 200 characters; accepted values are kept as given; each field is reported exactly when its rule fails |
| `MissionSchemas.NotesLimit` | missions/schemas.py:29-47 | omitted notes become `""`; 200 characters pass; 201 characters are refused with only the notes field reported |
| `MissionSchemas.FailuresAt` | missions/schemas.py:54 | the failures of one nested target are tagged with its position; they hold field `f` exactly when that target rejects `f`, and are empty exactly when it is accepted |
| `MissionSchemas.TargetErrors` | missions/schemas.py:54 | validating `targets: List[CreateTargetSchema]` reports only nested failures, each tagged with a position inside the list |
| `MissionSchemas.TargetErrorAt` | missions/schemas.py:54 | field `f` of the target at position `i` is reported for the list exactly when it is reported for that target alone |
| `MissionSchemas.TargetErrorsEmpty` | missions/schemas.py:54 | no nested failure is reported exactly when every target is accepted |
| `MissionSchemas.TargetErrorsPositions` | missions/schemas.py:54 | for every position, field `f` is reported there exactly when that target's validator rejects `f` |
| `MissionSchemas.OwnErrors` | missions/schemas.py:56-66 | the mission's own fields: the name is reported exactly when blank, the description exactly when blank, and nothing else is reported |
| `MissionSchemas.MissionErrors` | missions/schemas.py:50-66 | the mission reports no failure exactly when name and description are not blank and every target is accepted; the name, the description and each nested field are reported exactly when their own rule fails, and no position outside the target list is ever reported |
| `MissionSchemas.ValidateCreateMission` | missions/schemas.py:50-66 | accepted exactly when name and description are not blank and every target passes; an accepted mission keeps its name, description and cat id (null allowed) and each target's accepted payload, in order, so an empty target list passes; when rejected, each failing field is reported with its target's position, and only positions that exist in the target list appear |
| `Models.TargetsOutside` | missions/models.py:16 | the CASCADE: every target of the mission is removed, every other target is kept as it was, and no target of that mission remains |
| `Models.CompletionConsistent` | missions/services.py:133-138 | a mission is completed exactly when it has a target and all its targets are completed; in particular a completed mission has at least one target |
| `Models.Inv` | missions/models.py:8-20 | ids allocated, references resolved and completion consistent; it follows that every target's mission exists and every target of a completed mission is completed |
| `CatRules.WithoutCat` | missions/models.py:8 | the SET_NULL: every mission survives, each mission that had the deleted cat becomes itself with no cat (null), so none refers to it any more; names, descriptions and completion flags are unchanged, and missions with another cat or none are untouched |
| `CatRules.CreateSpyCat` | cats/services.py:7-12 | the cat is stored under an id not used before, with the payload's four fields; no other row changes; the invariant is kept |
| `CatRules.UpdateSpyCat` | cats/services.py:27-35 | fails with not-found exactly when the id is missing; otherwise all four fields are overwritten under the same id, and every other cat, mission and target is unchanged |
| `CatRules.UpdateSpyCatSalary` | cats/services.py:38-45 | fails exactly when the id is missing; otherwise only that cat's salary changes, and its other fields and every other row stay |
| `CatRules.DeleteSpyCat` | cats/services.py:48-53 | fails exactly when the id is missing (the lookup at cats/services.py:50); otherwise the cat is removed and, by the SET_NULL of missions/models.py:8, every mission survives, the missions that had this cat have none and are otherwise unchanged, the rest are untouched, and the invariant is kept |
| `MissionRules.CheckIfCatNotAssigned` | missions/services.py:17-20 | passes exactly when the mission has a cat; otherwise fails with no-cat |
| `MissionRules.CheckIfCompleted` | missions/services.py:23-26 | passes exactly when neither the target nor its mission is completed |
| `MissionRules.RequestedCat` | missions/services.py:31 | no cat is requested exactly when the payload's cat id is null or 0; otherwise the payload's id is requested |
| `MissionRules.AddTargets` | missions/services.py:42-49 | the loop adds one row per payload entry, in order, under consecutive fresh ids, each belonging to the mission and not completed; existing rows, cats and missions are unchanged |
| `MissionRules.AddedTargetsBelong` | missions/services.py:43-44 | every row the loop adds belongs to the new mission |
| `MissionRules.CreateMissionWithTargets` | missions/services.py:29-55 | a requested cat that does not exist fails the call before anything is created; otherwise exactly one mission is added, not completed, under a fresh id, with the payload's fields and cat; its targets are the payload's targets in order, none completed; nothing else changes; the invariant is kept |
| `MissionRules.CreateKeepsInv` | missions/services.py:34-49 | a successful creation keeps the store invariant |
| `MissionRules.CreateKeepsLinked` | missions/models.py:8-16 | after creation every target still belongs to an existing mission and every assigned cat exists |
| `MissionRules.CreateKeepsCompletion` | missions/models.py:9-20 | after a successful creation the new store satisfies `CompletionConsistent`: every mission is completed exactly when it has a target and all its targets are completed |
| `MissionRules.AssignCatToMission` | missions/services.py:69-83 | a missing mission is reported first, then a missing cat, then a completed mission; on success only that mission's cat changes, to the given cat |
| `MissionRules.RemoveCatFromMission` | missions/services.py:86-97 | fails for a missing or completed mission; otherwise only that mission's cat changes, to none |
| `MissionRules.DeleteMission` | missions/services.py:100-109 | fails for a missing mission and for one with a cat (which then still exists); otherwise the mission and exactly its targets are removed and every other row is unchanged |
| `MissionRules.UpdateTargetNotes` | missions/services.py:112-124 | the target is looked up, then its mission must have a cat, then neither may be completed; the notes themselves never cause a failure (no length limit); on success only that target's notes change |
| `MissionRules.MarkTargetAsCompleted` | missions/services.py:127-142 | fails only for a missing target or a mission without a cat; otherwise the target becomes completed, its mission is completed afterwards exactly when it was before or all its targets now are, and nothing else changes; the invariant is kept |
| `MissionRules.MarkLastTargetCompletesMission` | missions/services.py:133-138 | completing the last open target of a mission with a cat completes the mission |
| `MissionRules.MarkOpenSiblingKeepsMissionOpen` | missions/services.py:136-138 | while another target of the mission is open, completing one target leaves the mission not completed |
| `MissionRules.MarkTwiceIsMarkOnce` | missions/services.py:127-138 | marking the same target a second time leaves the store as the first call left it |
| `Lifecycle.Step` | missions/services.py:29-142 | one call keeps the invariant; a failed call leaves the store unchanged; the new store follows the old one: counters never decrease, new rows carry fresh ids, and no completion flag goes from true to false |
| `Lifecycle.ApplyFollows` | missions/services.py:29-142 | every successful call of either registry (the mission services here and the cat services at cats/services.py:1-53) keeps the invariant and never clears a completion flag |
| `Lifecycle.FollowsTransitive` | missions/models.py:5-20 | because ids are never reused, "no flag is reset and no id comes back" carries over a chain of stores |
| `Lifecycle.Run` | missions/services.py:29-142 | any sequence of calls from a consistent store ends in a consistent store that follows the first |
| `Lifecycle.ReachableStoresAreConsistent` | missions/services.py:34-49 | in every store reachable from an empty database, a mission is completed exactly when it has at least one target and all its targets are completed |
| `Store.Rows` | cats/services.py:17 | the scan of a table returns each stored row once, with its id, in increasing id order |
| `Store.Agency.constructor` | missions/models.py:5-23 | a new database has no rows and every id counter at 1 |
| `Store.Agency.CreateSpyCat` | cats/services.py:7-12 | stores the cat exactly as `CatRules.CreateSpyCat` describes and returns the new id, which was not in use |
| `Store.Agency.ListSpyCats` | cats/services.py:15-19 | returns every stored cat, once, by increasing id |
| `Store.Agency.GetSpyCat` | cats/services.py:22-24 | returns the stored row, or not-found exactly when the id is absent |
| `Store.Agency.UpdateSpyCat` | cats/services.py:27-35 | writes the payload's fields one by one into the row; the new state is `CatRules.UpdateSpyCat`'s, or unchanged with the same error |
| `Store.Agency.UpdateSpyCatSalary` | cats/services.py:38-45 | the new state is `CatRules.UpdateSpyCatSalary`'s; the updated row is returned |
| `Store.Agency.DeleteSpyCat` | cats/services.py:48-53 | removes the row and clears the reference on every mission that had it, as `CatRules.DeleteSpyCat` describes |
| `Store.Agency.CreateMissionWithTargets` | missions/services.py:29-55 | creates the mission row, then the target rows in a loop; the final state is `MissionRules.CreateMissionWithTargets`'s; returns the new mission id |
| `Store.Agency.AddTargetRows` | missions/services.py:42-49 | the loop body run once per payload entry gives exactly `MissionRules.AddTargets` |
| `Store.Agency.ListMissions` | missions/services.py:58-62 | returns every stored mission, once, by increasing id |
| `Store.Agency.GetMission` | missions/services.py:65-66 | returns the stored row, or not-found exactly when the id is absent |
| `Store.Agency.AssignCatToMission` | missions/services.py:69-83 | the new state is `MissionRules.AssignCatToMission`'s; a failure changes nothing |
| `Store.Agency.RemoveCatFromMission` | missions/services.py:86-97 | the new state is `MissionRules.RemoveCatFromMission`'s; a failure changes nothing |
| `Store.Agency.DeleteMission` | missions/services.py:100-109 | refuses a missing mission or one with a cat, and otherwise deletes the mission row and, in the same method, every target of it (the CASCADE of missions/models.py:16), as `MissionRules.DeleteMission` describes |
| `Store.Agency.UpdateTargetNotes` | missions/services.py:112-124 | the new state is `MissionRules.UpdateTargetNotes`'s; a failure changes nothing |
| `Store.Agency.AllTargetsCompletedOf` | missions/services.py:136 | the scan, which stops at the first open target, answers whether every target of the mission is completed |
| `Store.Agency.MarkTargetAsCompleted` | missions/services.py:127-142 | the new state is `MissionRules.MarkTargetAsCompleted`'s; a failure changes nothing |

## Left out

- HTTP layer: routers, URL wiring, pagination, and wrapping every service error into one generic 400 response with its message text. Errors here are one constructor per cause, without messages.
- Target endpoint paths: these take a mission id and ignore it. The target operations here take the target id alone, as the services do.
- Breed catalog: the source fetches it over the network on every validation. Here it is the parameter `catalog`.
- `Text.Strip`: the contract fixes when the result is empty and that it has no whitespace at either end. It does not state which slice of the input remains, because the validators use only the emptiness test.
- `Text.Title`: `str.title()` is modelled over ASCII letters only. Any other character counts as uncased, so Unicode case rules are not modelled.
- Salary: a Python float, modelled as `real`. NaN, infinities and rounding are not modelled; salary is only stored and compared with zero.
- Update validation: only `CreateTargetSchema` checks the 200-character limit on notes (missions/schemas.py:43-47). The notes endpoint takes a bare string (missions/api.py:72), and `update_target_notes` stores it unchecked. The model does the same, so `MissionRules.UpdateTargetNotes` accepts notes of any length.
- Payload shape: `assigned_cat` is declared with no default (missions/schemas.py:53), so it is a required, nullable field, and pydantic rejects a payload that leaves it out. `MissionInput` has no way to express an absent field: `None` stands for an explicit `null`, and the rejection of an absent field is not modelled.
- Stored notes are always a string. The column is nullable, but no service writes null.
- Database failures: the generic "Failed to …" re-raise is not modelled, because the maps cannot fail.
- Column widths: `Mission.name`, `Target.name` and `Target.country` are declared with `max_length=255` (missions/models.py:6,17,18). Whether a longer value fails depends on the database backend, and the model places no limit on them.
- Non-atomic creation: the code creates the mission and its targets without a transaction, so a failure part-way would leave a partial mission. That is not modelled, for the same reason as database failures.
- Listing order: the ORM returns rows in no promised order. The model lists them by increasing id.
- Response shapes: serialising a mission with its nested targets (`MissionSchema`) is not modelled.
- Concurrency: requests are treated as sequential, and the code has no locking or transactions.
