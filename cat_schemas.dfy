/**
 * Field validation of the cat payloads: `CreateSpyCatSchema`, used to create
 * and to fully update a cat, and `UpdateSalarySchema`, used to change only the
 * salary. The breed catalog, fetched over the network by the source, is a
 * parameter here: the sequence of breed names the catalog service returned.
 */
module CatSchemas {
  import opened Common
  import opened Text

  /** The four fields of `CreateSpyCatSchema`; salary is a Python float that is
      only stored and compared with zero. */
  datatype CatPayload = CatPayload(name: string, yearsOfExperience: int, breed: string, salary: real)

  /** The fields a cat validator can reject, in declaration order. */
  datatype CatField = CatName | YearsOfExperience | Breed | Salary

  /** The catalog's names, each title-cased, in catalog order. */
  function TitledNames(catalog: seq<string>): (r: seq<string>)
    ensures |r| == |catalog|
    ensures forall i :: 0 <= i < |catalog| ==> r[i] == Title(catalog[i])
  {
    if catalog == [] then [] else [Title(catalog[0])] + TitledNames(catalog[1..])
  }

  lemma {:induction false} TitledNamesContains(catalog: seq<string>, t: string)
    ensures t in TitledNames(catalog) <==> exists i :: 0 <= i < |catalog| && Title(catalog[i]) == t
  {
    if catalog != [] {
      TitledNamesContains(catalog[1..], t);
      if exists i :: 0 <= i < |catalog| && Title(catalog[i]) == t {
        var i :| 0 <= i < |catalog| && Title(catalog[i]) == t;
        if i > 0 {
          assert catalog[1..][i - 1] == catalog[i];
        }
      }
      if t in TitledNames(catalog[1..]) {
        var i :| 0 <= i < |catalog| - 1 && Title(catalog[1..][i]) == t;
        assert catalog[i + 1] == catalog[1..][i];
      }
    }
  }

  lemma BreedMembership(catalog: seq<string>, breed: string)
    ensures Title(breed) in TitledNames(catalog)
        <==> exists i :: 0 <= i < |catalog| && SameIgnoringCase(catalog[i], breed)
  {
    TitledNamesContains(catalog, Title(breed));
    forall i | 0 <= i < |catalog|
      ensures Title(catalog[i]) == Title(breed) <==> SameIgnoringCase(catalog[i], breed)
    {
      TitleEqualIffSameIgnoringCase(catalog[i], breed);
    }
  }

  /** `validate_breed`: the title-cased breed is among the title-cased catalog
      names, which is to say some catalog name equals the breed up to the case
      of its letters. */
  function ValidateBreed(catalog: seq<string>, breed: string): (ok: bool)
    ensures ok <==> exists i :: 0 <= i < |catalog| && SameIgnoringCase(catalog[i], breed)
  {
    BreedMembership(catalog, breed);
    Title(breed) in TitledNames(catalog)
  }

  /** `CreateSpyCatSchema`: every field validator runs; the payload is accepted
      unchanged (the breed is not title-cased, the name not stripped) when none
      of them raises, and otherwise each failing field is reported. */
  function ValidateCreateSpyCat(catalog: seq<string>, p: CatPayload): (r: Validated<CatPayload, CatField>)
    ensures r.Accepted? <==>
      !IsBlank(p.name) && p.yearsOfExperience >= 0 && ValidateBreed(catalog, p.breed) && p.salary >= 0.0
    ensures r.Accepted? ==> r.value == p
    ensures r.Rejected? ==>
      && (CatName in r.fields <==> IsBlank(p.name))
      && (YearsOfExperience in r.fields <==> p.yearsOfExperience < 0)
      && (Breed in r.fields <==> !ValidateBreed(catalog, p.breed))
      && (Salary in r.fields <==> p.salary < 0.0)
  {
    var badName, badYears := IsBlank(p.name), p.yearsOfExperience < 0;
    var badBreed, badSalary := !ValidateBreed(catalog, p.breed), p.salary < 0.0;
    var failed := Failing(CatName, badName) + Failing(YearsOfExperience, badYears)
                  + Failing(Breed, badBreed) + Failing(Salary, badSalary);
    if failed == [] then Accepted(p) else Rejected(failed)
  }

  /** `UpdateSalarySchema`: the same salary rule as at creation, alone. */
  function ValidateUpdateSalary(salary: real): (r: Validated<real, CatField>)
    ensures r.Accepted? <==> salary >= 0.0
    ensures r.Accepted? ==> r.value == salary
    ensures r.Rejected? ==> r.fields == [Salary]
  {
    if salary < 0.0 then Rejected([Salary]) else Accepted(salary)
  }

  /** A payload that passes creation carries a salary that passes the salary
      schema, and a payload whose salary the salary schema refuses is refused
      at creation with the salary among the failing fields. */
  lemma SalaryRuleShared(catalog: seq<string>, p: CatPayload)
    ensures ValidateCreateSpyCat(catalog, p).Accepted? ==> ValidateUpdateSalary(p.salary).Accepted?
    ensures ValidateUpdateSalary(p.salary).Rejected? ==>
      ValidateCreateSpyCat(catalog, p).Rejected? && Salary in ValidateCreateSpyCat(catalog, p).fields
  {
  }
}
