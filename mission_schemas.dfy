/**
 * Field validation of a mission creation request: `CreateTargetSchema` for
 * each nested target and `CreateMissionSchema` for the mission. The response
 * shapes (`TargetSchema`, `MissionSchema`) are the records of module Models.
 */
module MissionSchemas {
  import opened Common
  import opened Text

  /** The longest notes a new target may carry. */
  const MaxNotesLength := 200

  /** A target as submitted; `notes` may be left out. */
  datatype TargetInput = TargetInput(name: string, country: string, notes: Option<string>)

  /** A validated `CreateTargetSchema`. */
  datatype TargetPayload = TargetPayload(name: string, country: string, notes: string)

  /** A mission as submitted; `assignedCat` is `null` or a cat id. */
  datatype MissionInput = MissionInput(name: string, description: string, assignedCat: Option<int>, targets: seq<TargetInput>)

  /** A validated `CreateMissionSchema`. */
  datatype MissionPayload = MissionPayload(name: string, description: string, assignedCat: Option<int>, targets: seq<TargetPayload>)

  datatype TargetField = TargetName | Country | Notes

  /** A rejected mission field; a nested target's field is reported with the
      target's position in the list. */
  datatype MissionField = MissionName | Description | TargetAt(index: nat, field: TargetField)

  /** The notes of a submitted target, `""` when left out. */
  function NotesOf(t: TargetInput): string {
    t.notes.GetOr("")
  }

  /** A submitted target with its notes defaulted. */
  function PayloadOf(t: TargetInput): TargetPayload {
    TargetPayload(t.name, t.country, NotesOf(t))
  }

  /** `CreateTargetSchema`: name and country must not be blank and the notes
      may hold at most 200 characters; the accepted values are kept as given. */
  function ValidateCreateTarget(t: TargetInput): (r: Validated<TargetPayload, TargetField>)
    ensures r.Accepted? <==> !IsBlank(t.name) && !IsBlank(t.country) && |NotesOf(t)| <= MaxNotesLength
    ensures r.Accepted? ==> r == Accepted(TargetPayload(t.name, t.country, NotesOf(t)))
    ensures r.Rejected? ==>
      && (TargetName in r.fields <==> IsBlank(t.name))
      && (Country in r.fields <==> IsBlank(t.country))
      && (Notes in r.fields <==> |NotesOf(t)| > MaxNotesLength)
  {
    var badName, badCountry, badNotes := IsBlank(t.name), IsBlank(t.country), |NotesOf(t)| > MaxNotesLength;
    var failed := Failing(TargetName, badName) + Failing(Country, badCountry) + Failing(Notes, badNotes);
    if failed == [] then Accepted(PayloadOf(t)) else Rejected(failed)
  }

  /** Field `f` of target `t` is rejected. */
  predicate TargetRejects(t: TargetInput, f: TargetField) {
    var v := ValidateCreateTarget(t);
    v.Rejected? && f in v.fields
  }

  /** The failing fields of one target, tagged with its position. */
  function TagAt(index: nat, fields: seq<TargetField>): (r: seq<MissionField>)
    ensures forall e :: e in r <==> e.TargetAt? && e.index == index && e.field in fields
  {
    if fields == [] then [] else [TargetAt(index, fields[0])] + TagAt(index, fields[1..])
  }

  /** The failing fields of target `t`, which sits at position `index`. */
  function FailuresAt(t: TargetInput, index: nat): (r: seq<MissionField>)
    ensures forall e :: e in r ==> e.TargetAt? && e.index == index
    ensures forall f :: TargetAt(index, f) in r <==> TargetRejects(t, f)
    ensures r == [] <==> ValidateCreateTarget(t).Accepted?
  {
    var v := ValidateCreateTarget(t);
    if v.Rejected? then
      assert TargetAt(index, v.fields[0]) in TagAt(index, v.fields);
      TagAt(index, v.fields)
    else []
  }

  /** The failing fields of the targets `ts`, in list order, each tagged
      with its target's position. */
  function TargetErrors(ts: seq<TargetInput>): (r: seq<MissionField>)
    ensures forall e :: e in r ==> e.TargetAt? && e.index < |ts|
    decreases |ts|
  {
    if ts == [] then [] else TargetErrors(ts[..|ts| - 1]) + FailuresAt(ts[|ts| - 1], |ts| - 1)
  }

  /** No target field is reported exactly when every target passes. */
  lemma TargetErrorsEmpty(ts: seq<TargetInput>)
    ensures TargetErrors(ts) == [] <==> forall i :: 0 <= i < |ts| ==> ValidateCreateTarget(ts[i]).Accepted?
  {
    if TargetErrors(ts) != [] {
      var e := TargetErrors(ts)[0];
      TargetErrorAt(ts, e.index, e.field);
      assert !ValidateCreateTarget(ts[e.index]).Accepted?;
    } else {
      forall i | 0 <= i < |ts|
        ensures ValidateCreateTarget(ts[i]).Accepted?
      {
        var fs := FailuresAt(ts[i], i);
        forall f ensures TargetAt(i, f) !in fs {
          TargetErrorAt(ts, i, f);
        }
      }
    }
  }

  /** A field of the target at position `i` is reported, tagged with that
      position, exactly when that target's own validation reports it. */
  lemma {:induction false} TargetErrorAt(ts: seq<TargetInput>, i: nat, f: TargetField)
    requires i < |ts|
    ensures TargetAt(i, f) in TargetErrors(ts) <==> TargetAt(i, f) in FailuresAt(ts[i], i)
  {
    var init := ts[..|ts| - 1];
    var front, last := TargetErrors(init), FailuresAt(ts[|ts| - 1], |ts| - 1);
    assert TargetErrors(ts) == front + last;
    if i == |ts| - 1 {
      assert TargetAt(i, f) !in front;
    } else {
      assert TargetAt(i, f) !in last;
      assert init[i] == ts[i];
      TargetErrorAt(init, i, f);
    }
  }

  /** Field `f` of the target at position `i` is reported exactly when that
      target's validator rejects it. */
  lemma TargetErrorsPositions(ts: seq<TargetInput>)
    ensures forall i, f :: 0 <= i < |ts| ==> (TargetAt(i, f) in TargetErrors(ts) <==> TargetRejects(ts[i], f))
  {
    forall i, f | 0 <= i < |ts| ensures TargetAt(i, f) in TargetErrors(ts) <==> TargetRejects(ts[i], f) {
      TargetErrorAt(ts, i, f);
    }
  }

  /** The failing fields of the mission itself: its name, then its
      description. */
  function OwnErrors(name: string, description: string): (r: seq<MissionField>)
    ensures forall e :: e in r ==> e == MissionName || e == Description
    ensures MissionName in r <==> IsBlank(name)
    ensures Description in r <==> IsBlank(description)
    ensures r == [] <==> !IsBlank(name) && !IsBlank(description)
  {
    Failing(MissionName, IsBlank(name)) + Failing(Description, IsBlank(description))
  }

  /** The failing fields of a submitted mission, in declaration order: its
      name, its description, then those of its targets. */
  function MissionErrors(m: MissionInput): (r: seq<MissionField>)
    ensures r == [] <==>
      && !IsBlank(m.name) && !IsBlank(m.description)
      && forall i :: 0 <= i < |m.targets| ==> ValidateCreateTarget(m.targets[i]).Accepted?
    ensures MissionName in r <==> IsBlank(m.name)
    ensures Description in r <==> IsBlank(m.description)
    ensures forall i, f :: 0 <= i < |m.targets| ==> (TargetAt(i, f) in r <==> TargetRejects(m.targets[i], f))
    ensures forall e :: e in r ==> e == MissionName || e == Description || (e.TargetAt? && e.index < |m.targets|)
  {
    var own := OwnErrors(m.name, m.description);
    var nested := TargetErrors(m.targets);
    TargetErrorsEmpty(m.targets);
    TargetErrorsPositions(m.targets);
    JoinErrors(own, nested, |m.targets|);
    own + nested
  }

  /** Putting the mission's own failures before the nested ones keeps each
      kind where it was: own fields come only from `own`, positions only
      from `nested`. */
  lemma JoinErrors(own: seq<MissionField>, nested: seq<MissionField>, n: nat)
    requires forall e :: e in own ==> e == MissionName || e == Description
    requires forall e :: e in nested ==> e.TargetAt? && e.index < n
    ensures own + nested == [] <==> own == [] && nested == []
    ensures MissionName in own + nested <==> MissionName in own
    ensures Description in own + nested <==> Description in own
    ensures forall i, f :: TargetAt(i, f) in own + nested <==> TargetAt(i, f) in nested
    ensures forall e :: e in own + nested ==> e == MissionName || e == Description || (e.TargetAt? && e.index < n)
  {
    assert forall e :: e in own + nested <==> e in own || e in nested;
  }

  /** `CreateMissionSchema`: name and description must not be blank and every
      nested target must pass `CreateTargetSchema`. `assignedCat` may be null
      and the target list may be empty; accepted values are kept as given. */
  function ValidateCreateMission(m: MissionInput): (r: Validated<MissionPayload, MissionField>)
    ensures r.Accepted? <==>
      && !IsBlank(m.name) && !IsBlank(m.description)
      && forall i :: 0 <= i < |m.targets| ==> ValidateCreateTarget(m.targets[i]).Accepted?
    ensures r.Accepted? ==>
      && r.value.name == m.name && r.value.description == m.description
      && r.value.assignedCat == m.assignedCat
      && |r.value.targets| == |m.targets|
      && forall i :: 0 <= i < |m.targets| ==> Accepted(r.value.targets[i]) == ValidateCreateTarget(m.targets[i])
    ensures r.Rejected? ==>
      && (MissionName in r.fields <==> IsBlank(m.name))
      && (Description in r.fields <==> IsBlank(m.description))
      && (forall i, f :: 0 <= i < |m.targets| ==> (TargetAt(i, f) in r.fields <==> TargetRejects(m.targets[i], f)))
      && forall e :: e in r.fields ==> e == MissionName || e == Description || (e.TargetAt? && e.index < |m.targets|)
  {
    var failed := MissionErrors(m);
    if failed == [] then
      var targets := seq(|m.targets|, i requires 0 <= i < |m.targets| => PayloadOf(m.targets[i]));
      Accepted(MissionPayload(m.name, m.description, m.assignedCat, targets))
    else Rejected(failed)
  }

  /** Notes may be left out (they become `""`) and may be exactly 200
      characters long; 201 characters are refused. */
  lemma NotesLimit(name: string, country: string)
    requires !IsBlank(name) && !IsBlank(country)
    ensures ValidateCreateTarget(TargetInput(name, country, None)) == Accepted(TargetPayload(name, country, ""))
    ensures ValidateCreateTarget(TargetInput(name, country, Some(seq(200, _ => 'x')))).Accepted?
    ensures ValidateCreateTarget(TargetInput(name, country, Some(seq(201, _ => 'x')))) == Rejected([Notes])
  {
  }
}
