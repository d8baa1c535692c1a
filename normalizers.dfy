/**
  The two normalizers: `LEIDataNormalizer` for Level 1 entity records and
  `RelationshipDataNormalizer` for Level 2 relationship records. Each owns a
  quality report that its stages update while the batch goes through column
  mapping, coercion, required-field filtering, (for relationships)
  referential-integrity filtering, status standardization, duplicate
  detection and (for entities) entity-id generation.
 */
module Normalizers {
  import opened Tables
  import opened Quality
  import opened Schema
  import opened Coercion
  import opened Stages

  const EntityRequired: seq<string> := ["lei", "legalName"]
  const RelationshipRequired: seq<string> := ["childLei", "parentLei"]

  /** What one normalization run produces: the batch, the warnings it adds to
      the report, the duplicate count and the integrity-issue increment. */
  datatype Outcome = Outcome(frame: Frame<Cell>, warnings: seq<Issue>, duplicates: nat, integrityIssues: nat)

  /** A batch whose rows all come from `f` and so share its columns. */
  lemma SubsetWellFormed(f: Frame<Cell>, rows: seq<CellRow>)
    requires WellFormed(f) && forall r :: r in rows ==> r in f.rows
    ensures WellFormed(Frame(f.columns, rows))
  {
    forall i | 0 <= i < |rows| ensures rows[i].Keys == ColumnSet(f.columns) {
      assert rows[i] in rows;
    }
  }

  /** The columns the entity stages rely on are canonical targets, so mapping
      always provides them. */
  lemma EntityKeyColumns()
    ensures "lei" in Targets(EntityColumnMapping)
    ensures "legalName" in Targets(EntityColumnMapping)
    ensures "entityStatus" in Targets(EntityColumnMapping)
  {
    assert EntityColumnMapping[0].1 == "lei";
    assert EntityColumnMapping[1].1 == "legalName";
    assert EntityColumnMapping[10].1 == "entityStatus";
  }

  lemma RelationshipKeyColumns()
    ensures "childLei" in Targets(RelationshipColumnMapping)
    ensures "parentLei" in Targets(RelationshipColumnMapping)
    ensures "relationshipStatus" in Targets(RelationshipColumnMapping)
  {
    assert RelationshipColumnMapping[1].1 == "childLei";
    assert RelationshipColumnMapping[2].1 == "parentLei";
    assert RelationshipColumnMapping[6].1 == "relationshipStatus";
  }

  /** The canonical columns the entity stages rely on are mapping targets. */
  predicate EntityKeysMapped(table: Synonyms) {
    "lei" in Targets(table) && "legalName" in Targets(table) && "entityStatus" in Targets(table)
  }

  /** The canonical columns the relationship stages rely on are mapping targets. */
  predicate RelationshipKeysMapped(table: Synonyms) {
    "childLei" in Targets(table) && "parentLei" in Targets(table) && "relationshipStatus" in Targets(table)
  }

  /** Column mapping and coercion of an entity batch. */
  function EntityTyped(lib: Library, table: Synonyms, simple: Synonyms, f: RawFrame): (g: Frame<Cell>)
    requires WellFormed(f) && EntityKeysMapped(table)
    ensures WellFormed(g) && |g.rows| == |f.rows|
    ensures "lei" in g.columns && "legalName" in g.columns && "entityStatus" in g.columns
    ensures LeisAreText(g)
  {
    ConvertEntityTypes(lib, MapFrame(table, simple, f))
  }

  /** Column mapping and coercion of a relationship batch. */
  function RelationshipTyped(lib: Library, table: Synonyms, simple: Synonyms, f: RawFrame): (g: Frame<Cell>)
    requires WellFormed(f) && RelationshipKeysMapped(table)
    ensures WellFormed(g) && |g.rows| == |f.rows|
    ensures "childLei" in g.columns && "parentLei" in g.columns && "relationshipStatus" in g.columns
  {
    ConvertRelationshipTypes(lib, MapFrame(table, simple, f))
  }

  /** The stages of `normalize_lei_data` after coercion, with the list of
      required columns (`EntityRequired` in the normalizer) as a parameter. */
  function EntityStages(lib: Library, typed: Frame<Cell>, required: seq<string>): Outcome
    requires WellFormed(typed) && "lei" in typed.columns && LeisAreText(typed)
  {
    var kept := RequireFields(typed.rows, typed.columns, required);
    SubsetWellFormed(typed, kept.0);
    var std := Standardize(kept.0, typed.columns, "entityStatus", ValidEntityStatus);
    assert forall i :: 0 <= i < |kept.0| ==> kept.0[i] in typed.rows;
    var dups := DuplicateCount(LeiKeys(std.0));
    Outcome(GenerateEntityIds(lib, Frame(typed.columns, std.0)), kept.1 + std.1 + DuplicateIssue(dups), dups, 0)
  }

  /** The stages of `normalize_relationship_data` after coercion, with the
      list of required columns (`RelationshipRequired`) as a parameter. */
  function RelationshipStages(typed: Frame<Cell>, valid: set<string>, required: seq<string>): Outcome
    requires WellFormed(typed) && "childLei" in typed.columns && "parentLei" in typed.columns
  {
    var kept := RequireFields(typed.rows, typed.columns, required);
    var linked := CheckReferences(kept.0, typed.columns, valid);
    SubsetWellFormed(typed, linked.0);
    var std := Standardize(linked.0, typed.columns, "relationshipStatus", ValidRelationshipStatus);
    assert forall i :: 0 <= i < |linked.0| ==> linked.0[i] in typed.rows;
    var dups := DuplicateCount(PairKeys(std.0));
    Outcome(Frame(typed.columns, std.0), kept.1 + linked.1 + std.1 + DuplicateIssue(dups), dups, linked.2)
  }

  /** `normalize_lei_data` as a function of the raw batch, for the
      normalizer's column mapping and required columns. */
  function EntityPipeline(lib: Library, table: Synonyms, simple: Synonyms, required: seq<string>, f: RawFrame): Outcome
    requires WellFormed(f) && EntityKeysMapped(table)
  {
    EntityStages(lib, EntityTyped(lib, table, simple, f), required)
  }

  /** `normalize_relationship_data` as a function of the raw batch and the
      set of valid LEIs. */
  function RelationshipPipeline(lib: Library, table: Synonyms, simple: Synonyms, required: seq<string>,
                                f: RawFrame, valid: set<string>): Outcome
    requires WellFormed(f) && RelationshipKeysMapped(table)
  {
    RelationshipStages(RelationshipTyped(lib, table, simple, f), valid, required)
  }

  // ---------------------------------------------------------------- stage methods

  /** One pass of `_validate_required_fields`: drop the rows without a value
      in `col`, warning when any were dropped. */
  method RequireColumn(report: QualityReport, rows: seq<CellRow>, col: string) returns (kept: seq<CellRow>)
    modifies report`warnings
    ensures kept == KeepWithValue(rows, col)
    ensures report.warnings == old(report.warnings) + MissingIssue(col, MissingCount(rows, col))
  {
    var removed := MissingCount(rows, col);
    if removed > 0 {
      report.AddWarning(MissingRequired(col, removed));
    }
    kept := KeepWithValue(rows, col);
  }

  /** One step of `RequireFields` from position `i` of the required columns. */
  lemma RequireFieldsStep(rows: seq<CellRow>, columns: seq<string>, required: seq<string>, i: int)
    requires 0 <= i < |required|
    ensures required[i] in columns ==>
              var next := RequireFields(KeepWithValue(rows, required[i]), columns, required[i + 1..]);
              RequireFields(rows, columns, required[i..]) ==
                (next.0, MissingIssue(required[i], MissingCount(rows, required[i])) + next.1)
    ensures required[i] !in columns ==>
              RequireFields(rows, columns, required[i..]) == RequireFields(rows, columns, required[i + 1..])
  {
    assert required[i..][0] == required[i] && required[i..][1..] == required[i + 1..];
  }

  /** `_validate_required_fields`: one pass per required column, narrowing the
      batch and warning once for each column that removed rows. */
  method ValidateRequiredFields(report: QualityReport, f: Frame<Cell>, required: seq<string>) returns (g: Frame<Cell>)
    modifies report`warnings
    ensures g == Frame(f.columns, RequireFields(f.rows, f.columns, required).0)
    ensures report.warnings == old(report.warnings) + RequireFields(f.rows, f.columns, required).1
  {
    g := f;
    ghost var added: seq<Issue> := [];
    var i := 0;
    assert required[0..] == required;
    while i < |required|
      invariant 0 <= i <= |required|
      invariant g.columns == f.columns
      invariant report.warnings == old(report.warnings) + added
      invariant RequireFields(g.rows, f.columns, required[i..]).0 == RequireFields(f.rows, f.columns, required).0
      invariant added + RequireFields(g.rows, f.columns, required[i..]).1 == RequireFields(f.rows, f.columns, required).1
    {
      var col := required[i];
      RequireFieldsStep(g.rows, f.columns, required, i);
      if col in g.columns {
        ghost var issue := MissingIssue(col, MissingCount(g.rows, col));
        ghost var next := RequireFields(KeepWithValue(g.rows, col), f.columns, required[i + 1..]);
        var kept := RequireColumn(report, g.rows, col);
        assert added + (issue + next.1) == (added + issue) + next.1;
        added := added + issue;
        g := Frame(g.columns, kept);
      }
      i := i + 1;
    }
  }

  /** One side of `_check_referential_integrity`. */
  method CheckReferenceSide(report: QualityReport, f: Frame<Cell>, col: string, valid: set<string>) returns (g: Frame<Cell>)
    modifies report`warnings, report`referentialIntegrityIssues
    ensures g == Frame(f.columns, CheckSide(f.rows, f.columns, col, valid).0)
    ensures report.warnings == old(report.warnings) + CheckSide(f.rows, f.columns, col, valid).1
    ensures report.referentialIntegrityIssues ==
              old(report.referentialIntegrityIssues) + CheckSide(f.rows, f.columns, col, valid).2
  {
    g := f;
    if col in f.columns {
      var bad := InvalidRefCount(f.rows, col, valid);
      if bad > 0 {
        report.referentialIntegrityIssues := report.referentialIntegrityIssues + bad;
        report.AddWarning(InvalidReference(col, bad));
        g := Frame(f.columns, KeepValidRefs(f.rows, col, valid));
      }
    }
  }

  /** `_check_referential_integrity`: the child LEI side, then the parent LEI
      side on what is left. */
  method CheckReferentialIntegrity(report: QualityReport, f: Frame<Cell>, valid: set<string>) returns (g: Frame<Cell>)
    modifies report`warnings, report`referentialIntegrityIssues
    ensures g == Frame(f.columns, CheckReferences(f.rows, f.columns, valid).0)
    ensures report.warnings == old(report.warnings) + CheckReferences(f.rows, f.columns, valid).1
    ensures report.referentialIntegrityIssues ==
              old(report.referentialIntegrityIssues) + CheckReferences(f.rows, f.columns, valid).2
  {
    g := CheckReferenceSide(report, f, "childLei", valid);
    g := CheckReferenceSide(report, g, "parentLei", valid);
  }

  /** `_standardize_values`: sets every status outside `allowed` to ACTIVE and
      warns once when there was any. */
  method StandardizeValues(report: QualityReport, f: Frame<Cell>, col: string, allowed: set<string>) returns (g: Frame<Cell>)
    modifies report`warnings
    ensures g == Frame(f.columns, Standardize(f.rows, f.columns, col, allowed).0)
    ensures report.warnings == old(report.warnings) + Standardize(f.rows, f.columns, col, allowed).1
  {
    g := f;
    if col in f.columns {
      var unknown := UnknownCount(f.rows, col, allowed);
      if unknown > 0 {
        report.AddWarning(UnknownStatus(col, unknown));
        g := Frame(f.columns, DefaultStatuses(f.rows, col, allowed));
      }
    }
  }

  /** `_detect_duplicates` of the entity normalizer: counts the rows whose
      `lei` occurs more than once. */
  method DetectLeiDuplicates(report: QualityReport, f: Frame<Cell>)
    requires WellFormed(f)
    modifies report`warnings, report`duplicates
    ensures "lei" in f.columns ==>
              report.duplicates == DuplicateCount(LeiKeys(f.rows)) &&
              report.warnings == old(report.warnings) + DuplicateIssue(report.duplicates)
    ensures "lei" !in f.columns ==> report.duplicates == old(report.duplicates) && report.warnings == old(report.warnings)
  {
    if "lei" in f.columns {
      report.duplicates := DuplicateCount(LeiKeys(f.rows));
      if report.duplicates > 0 {
        report.AddWarning(Duplicates(report.duplicates));
      }
    }
  }

  /** `_detect_duplicates` of the relationship normalizer: counts the rows
      whose `(childLei, parentLei)` pair occurs more than once. */
  method DetectPairDuplicates(report: QualityReport, f: Frame<Cell>)
    requires WellFormed(f)
    modifies report`warnings, report`duplicates
    ensures "childLei" in f.columns && "parentLei" in f.columns ==>
              report.duplicates == DuplicateCount(PairKeys(f.rows)) &&
              report.warnings == old(report.warnings) + DuplicateIssue(report.duplicates)
    ensures !("childLei" in f.columns && "parentLei" in f.columns) ==>
              report.duplicates == old(report.duplicates) && report.warnings == old(report.warnings)
  {
    if "childLei" in f.columns && "parentLei" in f.columns {
      report.duplicates := DuplicateCount(PairKeys(f.rows));
      if report.duplicates > 0 {
        report.AddWarning(Duplicates(report.duplicates));
      }
    }
  }

  /** `get_null_analysis`: one pass over the columns, recording the null
      percentage of each column that has nulls. */
  method GetNullAnalysis(f: Frame<Cell>) returns (nulls: map<string, real>)
    ensures nulls == NullAnalysis(f)
  {
    nulls := map[];
    var i := 0;
    while i < |f.columns|
      invariant 0 <= i <= |f.columns|
      invariant forall c :: c in nulls <==> c in f.columns[..i] && NullCount(f.rows, c) > 0
      invariant forall c :: c in nulls ==> nulls[c] == NullAnalysis(f)[c]
    {
      var col := f.columns[i];
      var n := NullCount(f.rows, col);
      if n > 0 {
        nulls := nulls[col := Percentage(n, |f.rows|)];
      }
      assert f.columns[..i + 1] == f.columns[..i] + [col];
      i := i + 1;
    }
    assert f.columns[..i] == f.columns;
  }

  /** `_map_columns` then `_convert_types` of the entity normalizer. */
  method MapAndConvertEntities(lib: Library, table: Synonyms, simple: Synonyms, df: RawFrame) returns (typed: Frame<Cell>)
    requires WellFormed(df) && EntityKeysMapped(table)
    ensures typed == EntityTyped(lib, table, simple, df)
  {
    var mapped := MapColumns(table, simple, df);
    typed := ConvertEntityTypes(lib, mapped);
  }

  /** `_map_columns` then `_convert_types` of the relationship normalizer. */
  method MapAndConvertRelationships(lib: Library, table: Synonyms, simple: Synonyms, df: RawFrame)
    returns (typed: Frame<Cell>)
    requires WellFormed(df) && RelationshipKeysMapped(table)
    ensures typed == RelationshipTyped(lib, table, simple, df)
  {
    var mapped := MapColumns(table, simple, df);
    typed := ConvertRelationshipTypes(lib, mapped);
  }

  /** The entity stages after coercion, in the order `normalize_lei_data`
      runs them, and the final counts. */
  method RunEntityStages(report: QualityReport, lib: Library, typed: Frame<Cell>, required: seq<string>) returns (g: Frame<Cell>)
    requires WellFormed(typed) && "lei" in typed.columns && LeisAreText(typed)
    modifies report`warnings, report`duplicates
    ensures g == EntityStages(lib, typed, required).frame
    ensures report.warnings == old(report.warnings) + EntityStages(lib, typed, required).warnings
    ensures report.duplicates == EntityStages(lib, typed, required).duplicates
    ensures |g.rows| <= |typed.rows|
  {
    ghost var w0 := report.warnings;
    ghost var k := RequireFields(typed.rows, typed.columns, required);
    var kept := ValidateRequiredFields(report, typed, required);
    SubsetWellFormed(typed, kept.rows);
    ghost var s := Standardize(k.0, typed.columns, "entityStatus", ValidEntityStatus);
    var std := StandardizeValues(report, kept, "entityStatus", ValidEntityStatus);
    assert report.warnings == w0 + k.1 + s.1;
    DetectLeiDuplicates(report, std);
    assert report.warnings == w0 + (k.1 + s.1 + DuplicateIssue(report.duplicates));
    assert forall i :: 0 <= i < |kept.rows| ==> kept.rows[i] in typed.rows;
    g := GenerateEntityIds(lib, std);
    EntityStagesCount(lib, typed, required);
  }

  /** The two filtering stages of `normalize_relationship_data`: required
      fields, then referential integrity. */
  method FilterRelationships(report: QualityReport, typed: Frame<Cell>, valid: set<string>, required: seq<string>)
    returns (linked: Frame<Cell>)
    modifies report`warnings, report`referentialIntegrityIssues
    ensures var k := RequireFields(typed.rows, typed.columns, required);
      var c := CheckReferences(k.0, typed.columns, valid);
      linked == Frame(typed.columns, c.0) &&
      report.warnings == old(report.warnings) + (k.1 + c.1) &&
      report.referentialIntegrityIssues == old(report.referentialIntegrityIssues) + c.2
  {
    var kept := ValidateRequiredFields(report, typed, required);
    linked := CheckReferentialIntegrity(report, kept, valid);
  }

  /** Status standardisation and pair-duplicate detection over the linked
      relationships. */
  method FinishRelationships(report: QualityReport, linked: Frame<Cell>) returns (g: Frame<Cell>)
    requires WellFormed(linked) && "childLei" in linked.columns && "parentLei" in linked.columns
    modifies report`warnings, report`duplicates
    ensures var s := Standardize(linked.rows, linked.columns, "relationshipStatus", ValidRelationshipStatus);
      g == Frame(linked.columns, s.0) &&
      report.duplicates == DuplicateCount(PairKeys(s.0)) &&
      report.warnings == old(report.warnings) + (s.1 + DuplicateIssue(report.duplicates))
  {
    ghost var w0 := report.warnings;
    g := StandardizeValues(report, linked, "relationshipStatus", ValidRelationshipStatus);
    ghost var w1 := report.warnings;
    DetectPairDuplicates(report, g);
  }

  /** The relationship stages after coercion, in the order
      `normalize_relationship_data` runs them. */
  method RunRelationshipStages(report: QualityReport, typed: Frame<Cell>, valid: set<string>, required: seq<string>) returns (g: Frame<Cell>)
    requires WellFormed(typed) && "childLei" in typed.columns && "parentLei" in typed.columns
    modifies report`warnings, report`duplicates, report`referentialIntegrityIssues
    ensures g == RelationshipStages(typed, valid, required).frame
    ensures report.warnings == old(report.warnings) + RelationshipStages(typed, valid, required).warnings
    ensures report.duplicates == RelationshipStages(typed, valid, required).duplicates
    ensures report.referentialIntegrityIssues ==
              old(report.referentialIntegrityIssues) + RelationshipStages(typed, valid, required).integrityIssues
    ensures |g.rows| <= |typed.rows|
  {
    ghost var w0 := report.warnings;
    ghost var k := RequireFields(typed.rows, typed.columns, required);
    ghost var c := CheckReferences(k.0, typed.columns, valid);
    var linked := FilterRelationships(report, typed, valid, required);
    SubsetWellFormed(typed, linked.rows);
    ghost var w1 := report.warnings;
    g := FinishRelationships(report, linked);
    ghost var s := Standardize(c.0, typed.columns, "relationshipStatus", ValidRelationshipStatus);
    assert report.warnings == w0 + (k.1 + c.1 + s.1 + DuplicateIssue(report.duplicates));
    RelationshipStagesCount(typed, valid, required);
  }

  /** The final counts of a normalization run: the input size, the output
      size and their difference. */
  method RecordTotals(report: QualityReport, total: nat, valid: nat)
    requires valid <= total
    modifies report`totalRecords, report`validRecords, report`invalidRecords
    ensures report.totalRecords == total && report.validRecords == valid && report.Consistent()
  {
    report.totalRecords := total;
    report.validRecords := valid;
    report.invalidRecords := report.totalRecords - report.validRecords;
  }

  // ---------------------------------------------------------------- normalizers

  /** `LEIDataNormalizer`: its column mapping (`COLUMN_MAPPING` and the
      simple fallbacks), its required columns and the report it fills in. */
  class LeiNormalizer {
    const report: QualityReport
    const lib: Library
    const columnMapping: Synonyms
    const simpleMapping: Synonyms
    const required: seq<string>

    /** The mapping provides every column the stages rely on, and the LEI
        and the legal name are required. */
    predicate Valid() {
      EntityKeysMapped(columnMapping) && "lei" in required && "legalName" in required
    }

    constructor (lib: Library)
      ensures this.lib == lib && fresh(report) && Valid()
      ensures columnMapping == EntityColumnMapping && simpleMapping == EntitySimpleMapping
      ensures required == EntityRequired
      ensures report.totalRecords == 0 && report.validRecords == 0 && report.invalidRecords == 0
      ensures report.warnings == [] && report.errors == [] && report.nullsByColumn == map[]
      ensures report.duplicates == 0 && report.referentialIntegrityIssues == 0
    {
      this.lib := lib;
      columnMapping := EntityColumnMapping;
      simpleMapping := EntitySimpleMapping;
      required := EntityRequired;
      report := new QualityReport();
      EntityKeyColumns();
    }

    /** `normalize_lei_data`: runs the stages in order and records the totals. */
    method NormalizeLeiData(df: RawFrame) returns (g: Frame<Cell>, r: QualityReport)
      requires WellFormed(df) && Valid()
      modifies report`warnings, report`duplicates, report`totalRecords, report`validRecords, report`invalidRecords
      ensures r == report
      ensures g == EntityPipeline(lib, columnMapping, simpleMapping, required, df).frame
      ensures report.warnings == old(report.warnings) + EntityPipeline(lib, columnMapping, simpleMapping, required, df).warnings
      ensures report.duplicates == EntityPipeline(lib, columnMapping, simpleMapping, required, df).duplicates
      ensures report.totalRecords == |df.rows| && report.validRecords == |g.rows| && report.Consistent()
      ensures EntityRowsValid(lib, g.rows)
    {
      var typed := MapAndConvertEntities(lib, columnMapping, simpleMapping, df);
      g := RunEntityStages(report, lib, typed, required);
      EntityPipelineOutput(lib, columnMapping, simpleMapping, required, df);
      RecordTotals(report, |df.rows|, |g.rows|);
      r := report;
    }
  }

  /** `RelationshipDataNormalizer`: its column mapping, its required columns
      and the report it fills in. */
  class RelationshipNormalizer {
    const report: QualityReport
    const lib: Library
    const columnMapping: Synonyms
    const simpleMapping: Synonyms
    const required: seq<string>

    /** The mapping provides every column the stages rely on, and both LEIs
        are required. */
    predicate Valid() {
      RelationshipKeysMapped(columnMapping) && "childLei" in required && "parentLei" in required
    }

    constructor (lib: Library)
      ensures this.lib == lib && fresh(report) && Valid()
      ensures columnMapping == RelationshipColumnMapping && simpleMapping == RelationshipSimpleMapping
      ensures required == RelationshipRequired
      ensures report.totalRecords == 0 && report.validRecords == 0 && report.invalidRecords == 0
      ensures report.warnings == [] && report.errors == [] && report.nullsByColumn == map[]
      ensures report.duplicates == 0 && report.referentialIntegrityIssues == 0
    {
      this.lib := lib;
      columnMapping := RelationshipColumnMapping;
      simpleMapping := RelationshipSimpleMapping;
      required := RelationshipRequired;
      report := new QualityReport();
      RelationshipKeyColumns();
    }

    /** `normalize_relationship_data`: runs the stages in order and records the totals. */
    method NormalizeRelationshipData(df: RawFrame, valid: set<string>) returns (g: Frame<Cell>, r: QualityReport)
      requires WellFormed(df) && Valid()
      modifies report`warnings, report`duplicates, report`referentialIntegrityIssues
      modifies report`totalRecords, report`validRecords, report`invalidRecords
      ensures r == report
      ensures g == RelationshipPipeline(lib, columnMapping, simpleMapping, required, df, valid).frame
      ensures report.warnings ==
                old(report.warnings) + RelationshipPipeline(lib, columnMapping, simpleMapping, required, df, valid).warnings
      ensures report.duplicates == RelationshipPipeline(lib, columnMapping, simpleMapping, required, df, valid).duplicates
      ensures report.referentialIntegrityIssues ==
                old(report.referentialIntegrityIssues) +
                RelationshipPipeline(lib, columnMapping, simpleMapping, required, df, valid).integrityIssues
      ensures report.totalRecords == |df.rows| && report.validRecords == |g.rows| && report.Consistent()
      ensures RelationshipRowsValid(g.rows, valid)
    {
      var typed := MapAndConvertRelationships(lib, columnMapping, simpleMapping, df);
      g := RunRelationshipStages(report, typed, valid, required);
      RelationshipPipelineOutput(lib, columnMapping, simpleMapping, required, df, valid);
      RecordTotals(report, |df.rows|, |g.rows|);
      r := report;
    }
  }

  // ---------------------------------------------------------------- pipeline properties

  /** Every record that reaches the stages is either in the output or counted
      in a warning. */
  lemma EntityStagesCount(lib: Library, typed: Frame<Cell>, required: seq<string>)
    requires WellFormed(typed) && "lei" in typed.columns && LeisAreText(typed)
    ensures |EntityStages(lib, typed, required).frame.rows| + TotalRemoved(EntityStages(lib, typed, required).warnings) == |typed.rows|
  {
    var (kept, w1) := RequireFields(typed.rows, typed.columns, required);
    RequireFieldsWarnings(typed.rows, typed.columns, required);
    var (std, w2) := Standardize(kept, typed.columns, "entityStatus", ValidEntityStatus);
    SubsetWellFormed(typed, kept);
    assert forall i :: 0 <= i < |kept| ==> kept[i] in typed.rows;
    var dups := DuplicateCount(LeiKeys(std));
    TotalRemovedConcat(w1, w2);
    TotalRemovedConcat(w1 + w2, DuplicateIssue(dups));
  }

  lemma RelationshipStagesCount(typed: Frame<Cell>, valid: set<string>, required: seq<string>)
    requires WellFormed(typed) && "childLei" in typed.columns && "parentLei" in typed.columns
    ensures |RelationshipStages(typed, valid, required).frame.rows| + TotalRemoved(RelationshipStages(typed, valid, required).warnings) == |typed.rows|
    ensures RelationshipStages(typed, valid, required).integrityIssues <= |typed.rows|
  {
    var (kept, w1) := RequireFields(typed.rows, typed.columns, required);
    RequireFieldsWarnings(typed.rows, typed.columns, required);
    var (linked, w2, n) := CheckReferences(kept, typed.columns, valid);
    CheckReferencesCounts(kept, typed.columns, valid);
    SubsetWellFormed(typed, linked);
    var (std, w3) := Standardize(linked, typed.columns, "relationshipStatus", ValidRelationshipStatus);
    assert forall i :: 0 <= i < |linked| ==> linked[i] in typed.rows;
    var dups := DuplicateCount(PairKeys(std));
    TotalRemovedConcat(w1, w2);
    TotalRemovedConcat(w1 + w2, w3);
    TotalRemovedConcat(w1 + w2 + w3, DuplicateIssue(dups));
  }

  /** Every input record of `normalize_lei_data` is either in the output or
      counted in a warning, so the output is never larger than the input. */
  lemma EntityPipelineCount(lib: Library, table: Synonyms, simple: Synonyms, required: seq<string>, f: RawFrame)
    requires WellFormed(f) && EntityKeysMapped(table)
    ensures var out := EntityPipeline(lib, table, simple, required, f);
      |out.frame.rows| + TotalRemoved(out.warnings) == |f.rows|
  {
    EntityStagesCount(lib, EntityTyped(lib, table, simple, f), required);
  }

  /** The same accounting for `normalize_relationship_data`: required-field
      and integrity warnings together count every removed record. */
  lemma RelationshipPipelineCount(lib: Library, table: Synonyms, simple: Synonyms, required: seq<string>,
                                  f: RawFrame, valid: set<string>)
    requires WellFormed(f) && RelationshipKeysMapped(table)
    ensures var out := RelationshipPipeline(lib, table, simple, required, f, valid);
      |out.frame.rows| + TotalRemoved(out.warnings) == |f.rows|
  {
    RelationshipStagesCount(RelationshipTyped(lib, table, simple, f), valid, required);
  }

  /** Every entity row has a non-null, non-empty LEI and legal name, a
      status in the closed set, and the id derived from its LEI. */
  predicate EntityRowsValid(lib: Library, rows: seq<CellRow>) {
    forall i :: 0 <= i < |rows| ==>
      HasValue(rows[i], "lei") && HasValue(rows[i], "legalName") &&
      Allowed(rows[i], "entityStatus", ValidEntityStatus) &&
      rows[i]["lei"].Text? && "entity_id" in rows[i] &&
      rows[i]["entity_id"] == Text(EntityId(lib, rows[i]["lei"].text))
  }

  /** Every relationship row has both LEIs present and among the valid
      entity LEIs, and a status in the closed set. */
  predicate RelationshipRowsValid(rows: seq<CellRow>, valid: set<string>) {
    forall i :: 0 <= i < |rows| ==>
      HasValue(rows[i], "childLei") && HasValue(rows[i], "parentLei") &&
      Refers(rows[i], "childLei", valid) && Refers(rows[i], "parentLei", valid) &&
      Allowed(rows[i], "relationshipStatus", ValidRelationshipStatus)
  }

  /** Row `o` of the entity output is the surviving row `k` with its status
      closed (when the batch has a status column) and its id derived from its
      LEI; no other cell changes. */
  predicate EntityRowOut(lib: Library, k: CellRow, o: CellRow, hasStatus: bool) {
    (forall c :: c in k && c != "entityStatus" && c != "entity_id" ==> c in o && o[c] == k[c]) &&
    (hasStatus ==> Allowed(o, "entityStatus", ValidEntityStatus)) &&
    "lei" in o && o["lei"].Text? && "entity_id" in o && o["entity_id"] == Text(EntityId(lib, o["lei"].text))
  }

  /** Row `o` of the relationship output is the linked row `k` with its
      status closed (when the batch has a status column); no other cell
      changes. */
  predicate RelationshipRowOut(k: CellRow, o: CellRow, hasStatus: bool) {
    (forall c :: c in k && c != "relationshipStatus" ==> c in o && o[c] == k[c]) &&
    (hasStatus ==> Allowed(o, "relationshipStatus", ValidRelationshipStatus))
  }

  /** One row through the last two entity stages: `s` is `k` with its status
      closed, `o` is `s` with the id derived from its LEI. */
  lemma EntityRowStep(lib: Library, k: CellRow, s: CellRow, o: CellRow, hasStatus: bool)
    requires s.Keys == k.Keys && "lei" in k && k["lei"].Text?
    requires forall c :: c in k && c != "entityStatus" ==> s[c] == k[c]
    requires hasStatus ==> Allowed(s, "entityStatus", ValidEntityStatus)
    requires o == s["entity_id" := Text(EntityId(lib, s["lei"].text))]
    ensures EntityRowOut(lib, k, o, hasStatus)
  {
  }

  /** What the entity stages leave: one row per row that has a value in every
      required column (`RequireFieldsKeeps`, `RequireFieldsSubsequence`), in
      order, each with its status closed and its id derived from its LEI. */
  lemma EntityStagesOutput(lib: Library, typed: Frame<Cell>, required: seq<string>)
    requires WellFormed(typed) && "lei" in typed.columns && LeisAreText(typed)
    ensures var kept := RequireFields(typed.rows, typed.columns, required).0;
      var out := EntityStages(lib, typed, required).frame;
      |out.rows| == |kept| &&
      forall i :: 0 <= i < |kept| ==> EntityRowOut(lib, kept[i], out.rows[i], "entityStatus" in typed.columns)
  {
    var kept := RequireFields(typed.rows, typed.columns, required).0;
    SubsetWellFormed(typed, kept);
    assert forall i :: 0 <= i < |kept| ==> kept[i] in typed.rows;
    var std := Standardize(kept, typed.columns, "entityStatus", ValidEntityStatus).0;
    var out := GenerateEntityIds(lib, Frame(typed.columns, std));
    assert out == EntityStages(lib, typed, required).frame;
    forall i | 0 <= i < |kept|
      ensures EntityRowOut(lib, kept[i], out.rows[i], "entityStatus" in typed.columns)
    {
      assert kept[i].Keys == ColumnSet(typed.columns);
      EntityRowStep(lib, kept[i], std[i], out.rows[i], "entityStatus" in typed.columns);
    }
  }

  /** The relationships the two filtering stages keep: exactly the rows
      that have a value in every required column and whose child and parent
      LEIs are both valid, in their original order. */
  lemma RelationshipLinkedRows(typed: Frame<Cell>, valid: set<string>, required: seq<string>)
    requires "childLei" in typed.columns && "parentLei" in typed.columns
    ensures var kept := RequireFields(typed.rows, typed.columns, required).0;
      var linked := CheckReferences(kept, typed.columns, valid).0;
      IsSubsequence(linked, typed.rows) &&
      forall r :: r in linked <==>
        r in typed.rows && (forall c :: c in required && c in typed.columns ==> HasValue(r, c)) &&
        Refers(r, "childLei", valid) && Refers(r, "parentLei", valid)
  {
    var kept := RequireFields(typed.rows, typed.columns, required).0;
    RequireFieldsSubsequence(typed.rows, typed.columns, required);
    RequireFieldsKeeps(typed.rows, typed.columns, required);
    var linked := CheckReferences(kept, typed.columns, valid).0;
    CheckReferencesCounts(kept, typed.columns, valid);
    CheckReferencesKeeps(kept, typed.columns, valid);
    SubsequenceTransitive(linked, kept, typed.rows);
  }

  /** What the relationship stages leave: one row per linked row
      (`RelationshipLinkedRows`), in order, each with its status closed. */
  lemma RelationshipStagesOutput(typed: Frame<Cell>, valid: set<string>, required: seq<string>)
    requires WellFormed(typed) && "childLei" in typed.columns && "parentLei" in typed.columns
    ensures var kept := RequireFields(typed.rows, typed.columns, required).0;
      var linked := CheckReferences(kept, typed.columns, valid).0;
      var out := RelationshipStages(typed, valid, required).frame;
      |out.rows| == |linked| &&
      forall i :: 0 <= i < |linked| ==> RelationshipRowOut(linked[i], out.rows[i], "relationshipStatus" in typed.columns)
  {
    var kept := RequireFields(typed.rows, typed.columns, required).0;
    var linked := CheckReferences(kept, typed.columns, valid).0;
    SubsetWellFormed(typed, linked);
    var std := Standardize(linked, typed.columns, "relationshipStatus", ValidRelationshipStatus).0;
    assert std == RelationshipStages(typed, valid, required).frame.rows;
    forall i | 0 <= i < |linked|
      ensures RelationshipRowOut(linked[i], std[i], "relationshipStatus" in typed.columns)
    {
      assert linked[i] in linked;
      assert linked[i].Keys == ColumnSet(typed.columns);
    }
  }

  /** Every row the entity stages leave, with the normalizer's required
      columns, has a non-null, non-empty LEI and legal name, a closed status
      and its derived id. */
  lemma EntityStagesRows(lib: Library, typed: Frame<Cell>, required: seq<string>)
    requires WellFormed(typed) && LeisAreText(typed)
    requires "lei" in typed.columns && "legalName" in typed.columns && "entityStatus" in typed.columns
    requires "lei" in required && "legalName" in required
    ensures var out := EntityStages(lib, typed, required).frame;
      EntityRowsValid(lib, out.rows)
  {
    var kept := RequireFields(typed.rows, typed.columns, required).0;
    var out := EntityStages(lib, typed, required).frame;
    EntityStagesOutput(lib, typed, required);
    RequireFieldsKeeps(typed.rows, typed.columns, required);
    forall i | 0 <= i < |out.rows|
      ensures HasValue(out.rows[i], "lei") && HasValue(out.rows[i], "legalName")
    {
      assert kept[i] in kept;
      assert EntityRowOut(lib, kept[i], out.rows[i], true);
    }
  }

  /** Every row the relationship stages leave, with the normalizer's required
      columns, has both LEIs present and valid, and a closed status. */
  lemma RelationshipStagesRows(typed: Frame<Cell>, valid: set<string>, required: seq<string>)
    requires WellFormed(typed) && "childLei" in typed.columns && "parentLei" in typed.columns
    requires "relationshipStatus" in typed.columns
    requires "childLei" in required && "parentLei" in required
    ensures var out := RelationshipStages(typed, valid, required).frame;
      RelationshipRowsValid(out.rows, valid)
  {
    var kept := RequireFields(typed.rows, typed.columns, required).0;
    var linked := CheckReferences(kept, typed.columns, valid).0;
    var out := RelationshipStages(typed, valid, required).frame;
    RelationshipStagesOutput(typed, valid, required);
    RelationshipLinkedRows(typed, valid, required);
    forall i | 0 <= i < |out.rows|
      ensures HasValue(out.rows[i], "childLei") && HasValue(out.rows[i], "parentLei") &&
        Refers(out.rows[i], "childLei", valid) && Refers(out.rows[i], "parentLei", valid)
    {
      assert linked[i] in linked;
      assert RelationshipRowOut(linked[i], out.rows[i], true);
    }
  }

  /** Every row `normalize_lei_data` returns has a non-null, non-empty LEI
      and legal name, a status in the closed set and the id derived from its
      LEI. */
  lemma EntityPipelineOutput(lib: Library, table: Synonyms, simple: Synonyms, required: seq<string>, f: RawFrame)
    requires WellFormed(f) && EntityKeysMapped(table) && "lei" in required && "legalName" in required
    ensures var out := EntityPipeline(lib, table, simple, required, f).frame;
      EntityRowsValid(lib, out.rows)
  {
    EntityStagesRows(lib, EntityTyped(lib, table, simple, f), required);
  }

  /** Every row `normalize_relationship_data` returns has both LEIs present
      and among the valid entity LEIs, and a status in the closed set. */
  lemma RelationshipPipelineOutput(lib: Library, table: Synonyms, simple: Synonyms, required: seq<string>,
                                   f: RawFrame, valid: set<string>)
    requires WellFormed(f) && RelationshipKeysMapped(table) && "childLei" in required && "parentLei" in required
    ensures var out := RelationshipPipeline(lib, table, simple, required, f, valid).frame;
      RelationshipRowsValid(out.rows, valid)
  {
    RelationshipStagesRows(RelationshipTyped(lib, table, simple, f), valid, required);
  }
}
