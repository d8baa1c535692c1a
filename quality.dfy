/**
  The data-quality report that every normalization stage updates: record
  counters, the duplicate and referential-integrity counters, and the ordered
  lists of warnings and errors.
 */
module Quality {

  /** A warning added by a normalization stage. The source formats each one as
      a sentence; the model keeps the quantities the sentence reports. */
  datatype Issue =
    | MissingRequired(column: string, removed: nat)   // rows dropped for a null or empty required field
    | UnknownStatus(column: string, rewritten: nat)   // status values outside the closed set, set to ACTIVE
    | InvalidReference(column: string, removed: nat)  // relationships whose LEI is not a valid entity
    | Duplicates(rows: nat)                           // rows whose key occurs more than once

  /** The dictionary `report()` returns. */
  datatype Summary = Summary(
    totalRecords: nat,
    validRecords: nat,
    invalidRecords: int,
    duplicateCount: nat,
    referentialIntegrityIssues: nat,
    nullsByColumn: map<string, real>,
    warnings: nat,
    errors: nat,
    validityRate: real)

  /** `valid / max(total, 1) * 100`, in exact arithmetic (the source also rounds
      to two decimals). */
  function ValidityRate(valid: nat, total: nat): (r: real)
    ensures total > 0 ==> r * (total as real) == (valid as real) * 100.0
    ensures valid <= total ==> 0.0 <= r <= 100.0
    ensures valid <= total && total == 0 ==> r == 0.0
    ensures valid <= total && total > 0 ==> (r == 100.0 <==> valid == total)
  {
    var d: real := if total > 1 then total as real else 1.0;
    var r := (valid as real) / d * 100.0;
    assert valid <= total ==> (valid as real) / d <= 1.0 by {
      if valid <= total {
        FractionAtMostOne(valid as real, d);
      }
    }
    r
  }

  /** A share of a positive whole is at most one. */
  lemma FractionAtMostOne(part: real, whole: real)
    requires 0.0 <= part <= whole && whole > 0.0
    ensures 0.0 <= part / whole <= 1.0
  {
    var q := part / whole;
    assert (1.0 - q) * whole == whole - part;
  }

  class QualityReport {
    var totalRecords: nat
    var validRecords: nat
    var invalidRecords: int
    var warnings: seq<Issue>
    var errors: seq<string>
    var nullsByColumn: map<string, real>
    var duplicates: nat
    var referentialIntegrityIssues: nat

    /** The counters that a completed normalization run leaves behind: the
        output is no larger than the input and the invalid count is the
        difference. */
    predicate Consistent()
      reads this
    {
      validRecords <= totalRecords && invalidRecords == totalRecords - validRecords
    }

    constructor ()
      ensures totalRecords == 0 && validRecords == 0 && invalidRecords == 0
      ensures warnings == [] && errors == [] && nullsByColumn == map[]
      ensures duplicates == 0 && referentialIntegrityIssues == 0
      ensures Consistent()
    {
      totalRecords, validRecords, invalidRecords := 0, 0, 0;
      warnings, errors := [], [];
      nullsByColumn := map[];
      duplicates, referentialIntegrityIssues := 0, 0;
    }

    method AddWarning(w: Issue)
      modifies this`warnings
      ensures warnings == old(warnings) + [w]
    {
      warnings := warnings + [w];
    }

    method AddError(e: string)
      modifies this`errors
      ensures errors == old(errors) + [e]
    {
      errors := errors + [e];
    }

    /** The fixed-key snapshot of the report: every counter as it stands, the
        number of warnings and errors, and the validity rate. */
    function Report(): (s: Summary)
      reads this
      ensures s.totalRecords == totalRecords && s.validRecords == validRecords
      ensures s.invalidRecords == invalidRecords && s.duplicateCount == duplicates
      ensures s.referentialIntegrityIssues == referentialIntegrityIssues
      ensures s.nullsByColumn == nullsByColumn
      ensures s.warnings == |warnings| && s.errors == |errors|
      ensures Consistent() ==> 0.0 <= s.validityRate <= 100.0
      ensures Consistent() && totalRecords == 0 ==> s.validityRate == 0.0 && s.invalidRecords == 0
      ensures totalRecords > 0 ==> s.validityRate * (totalRecords as real) == (validRecords as real) * 100.0
    {
      Summary(totalRecords, validRecords, invalidRecords, duplicates, referentialIntegrityIssues,
              nullsByColumn, |warnings|, |errors|, ValidityRate(validRecords, totalRecords))
    }
  }
}
