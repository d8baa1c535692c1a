/**
  Column mapping: the synonym tables that map the GLEIF source column names
  to the canonical schema, and the renaming, null-filling and projection that
  `_map_columns` applies to a raw batch.
 */
module Schema {
  import opened Tables

  /** An ordered synonym table: (source column, canonical column) entries in
      the order of the Python dictionary literal. */
  type Synonyms = seq<(string, string)>

  const EntityColumnMapping: Synonyms := [
    ("LEI", "lei"),
    ("LegalName", "legalName"),
    ("Entity.LegalName", "legalName"),
    ("PreviousName", "previousName"),
    ("Entity.PreviousName", "previousName"),
    ("EntityLegalFormCode", "legalFormCode"),
    ("LegalFormCode", "legalFormCode"),
    ("Entity.LegalForm.EntityLegalFormCode", "legalFormCode"),
    ("OtherLegalForm", "legalFormText"),
    ("Entity.LegalForm.OtherLegalForm", "legalFormText"),
    ("EntityStatus", "entityStatus"),
    ("Entity.Status", "entityStatus"),
    ("EntityCategory", "entityCategory"),
    ("Entity.EntityCategory", "entityCategory"),
    ("RegistrationStatus", "registrationStatus"),
    ("Entity.RegistrationStatus", "registrationStatus"),
    ("LegalJurisdiction", "jurisdiction"),
    ("Entity.CountryOfIncorporation", "countryOfIncorporation"),
    ("Entity.CountryOfLatestArrival", "countryOfLatestArrival"),
    ("FirstAddressLine", "addressLine1"),
    ("AdditionalAddressLine", "addressLine2"),
    ("City", "city"),
    ("Region", "region"),
    ("PostalCode", "postalCode"),
    ("Country", "country"),
    ("RegistrationAuthorityID", "registrationAuthorityId"),
    ("RegistrationAuthorityEntityID", "registrationAuthorityEntityId"),
    ("ManagingLOU", "managingLou"),
    ("ValidationAuthorityID", "validationAuthorityId"),
    ("ValidationAuthorityEntityID", "validationAuthorityEntityId"),
    ("LastUpdateDate", "latestUpdateDate"),
    ("LatestUpdateDate", "latestUpdateDate"),
    ("EntityCreationDate", "registrationDate"),
    ("InitialRegistrationDate", "registrationDate"),
    ("RegistrationDate", "registrationDate"),
    ("NextRenewalDate", "nextRenewalDate")
  ]

  /** The pre-mapped names that the loaders produce, as the entity normalizer
      maps them. */
  const EntitySimpleMapping: Synonyms := [
    ("lei", "lei"),
    ("legal_name", "legalName"),
    ("entity_status", "entityStatus"),
    ("child_lei", "childLei"),
    ("parent_lei", "parentLei"),
    ("relationship_type", "relationshipType"),
    ("relationship_status", "relationshipStatus")
  ]

  const RelationshipColumnMapping: Synonyms := [
    ("RelationshipRecordID", "relationshipId"),
    ("ChildLEI", "childLei"),
    ("ParentLEI", "parentLei"),
    ("RelationshipStartDate", "relationshipStartDate"),
    ("RelationshipEndDate", "relationshipEndDate"),
    ("RelationshipType", "relationshipType"),
    ("RelationshipStatus", "relationshipStatus"),
    ("PercentageOwnership", "ownershipPercentage")
  ]

  const RelationshipSimpleMapping: Synonyms := [
    ("child_lei", "childLei"),
    ("parent_lei", "parentLei"),
    ("relationship_type", "relationshipType"),
    ("relationship_status", "relationshipStatus")
  ]

  /** The canonical columns of a table. */
  function Targets(table: Synonyms): set<string> {
    set k | 0 <= k < |table| :: table[k].1
  }

  /** The last entry's target joins the targets of the entries before it. */
  lemma TargetsSnoc(table: Synonyms)
    requires table != []
    ensures Targets(table) == Targets(table[..|table| - 1]) + {table[|table| - 1].1}
  {
    var p := table[..|table| - 1];
    forall t | t in Targets(table) ensures t in Targets(p) + {table[|table| - 1].1} {
      var k :| 0 <= k < |table| && table[k].1 == t;
      if k < |table| - 1 {
        assert p[k].1 == t;
      }
    }
    forall t | t in Targets(p) ensures t in Targets(table) {
      var k :| 0 <= k < |p| && p[k].1 == t;
      assert table[k].1 == t;
    }
  }

  /** A dictionary has no repeated key. */
  predicate DistinctSources(table: Synonyms) {
    forall i, j :: 0 <= i < j < |table| ==> table[i].0 != table[j].0
  }

  /** Entry `i` may rename: its source is an input column and its target is not. */
  predicate Eligible(table: Synonyms, columns: set<string>, i: int)
    requires 0 <= i < |table|
  {
    table[i].0 in columns && table[i].1 !in columns
  }

  /** The source column of the first eligible entry that targets `t`. */
  function Winner(table: Synonyms, columns: set<string>, t: string): Option<string>
    decreases |table|
  {
    if table == [] then None
    else
      var w := Winner(table[..|table| - 1], columns, t);
      var (src, dst) := table[|table| - 1];
      if w.None? && src in columns && dst !in columns && dst == t then Some(src) else w
  }

  predicate Injective(m: map<string, string>) {
    forall a, b :: a in m && b in m && a != b ==> m[a] != m[b]
  }

  /** The rename map `_map_columns` builds, with one correction: a target that an
      earlier entry has already claimed is not claimed again, so the first
      synonym in table order wins. (`src !in m` always holds for a dictionary,
      whose keys are unique; it keeps the map well defined for any table.) */
  function Renames(table: Synonyms, columns: set<string>): (m: map<string, string>)
    ensures forall s :: s in m ==> s in columns && m[s] !in columns
    ensures forall s :: s in m ==> (s, m[s]) in table
    ensures Injective(m)
    decreases |table|
  {
    if table == [] then map[]
    else
      var m := Renames(table[..|table| - 1], columns);
      var (src, dst) := table[|table| - 1];
      if src in columns && dst !in columns && src !in m && dst !in m.Values then m[src := dst] else m
  }

  /** With unique sources, the corrected rename map renames exactly the first
      present synonym of each canonical column that is not already present. */
  lemma {:induction false} RenamesFirstMatch(table: Synonyms, columns: set<string>)
    requires DistinctSources(table)
    ensures forall s :: s in Renames(table, columns) ==>
              Winner(table, columns, Renames(table, columns)[s]) == Some(s)
    ensures forall t :: Winner(table, columns, t).Some? ==>
              Winner(table, columns, t).value in Renames(table, columns) &&
              Renames(table, columns)[Winner(table, columns, t).value] == t
    decreases |table|
  {
    if table != [] {
      var prefix := table[..|table| - 1];
      assert DistinctSources(prefix);
      RenamesFirstMatch(prefix, columns);
    }
  }

  /** The rename map exactly as `_map_columns` builds it. */
  function RenamesAsWritten(table: Synonyms, columns: set<string>): (m: map<string, string>)
    decreases |table|
  {
    if table == [] then map[]
    else
      var m := RenamesAsWritten(table[..|table| - 1], columns);
      var (src, dst) := table[|table| - 1];
      if src in columns && dst !in columns then m[src := dst] else m
  }

  /** As written, every eligible entry renames its source. */
  lemma {:induction false} AsWrittenRenamesEveryEligible(table: Synonyms, columns: set<string>, i: int)
    requires 0 <= i < |table| && Eligible(table, columns, i)
    requires forall k :: i < k < |table| ==> table[k].0 != table[i].0
    ensures table[i].0 in RenamesAsWritten(table, columns)
    ensures RenamesAsWritten(table, columns)[table[i].0] == table[i].1
    decreases |table|
  {
    if i < |table| - 1 {
      AsWrittenRenamesEveryEligible(table[..|table| - 1], columns, i);
    }
  }

  /** No two entries that may rename share a target. */
  predicate DistinctEligibleTargets(table: Synonyms, columns: set<string>) {
    forall i, j :: 0 <= i < j < |table| && Eligible(table, columns, i) && Eligible(table, columns, j) ==>
      table[i].1 != table[j].1
  }

  /** The correction changes nothing unless two present synonyms compete for one
      canonical column: without such a clash the map is the one `_map_columns`
      builds as written. */
  lemma {:induction false} RenamesAgree(table: Synonyms, columns: set<string>)
    requires DistinctSources(table) && DistinctEligibleTargets(table, columns)
    ensures Renames(table, columns) == RenamesAsWritten(table, columns)
    decreases |table|
  {
    if table != [] {
      var prefix := table[..|table| - 1];
      assert forall k :: 0 <= k < |prefix| ==> prefix[k] == table[k];
      assert DistinctSources(prefix);
      assert DistinctEligibleTargets(prefix, columns);
      RenamesAgree(prefix, columns);
      var m := Renames(prefix, columns);
      var (src, dst) := table[|table| - 1];
      if src in columns && dst !in columns {
        assert Eligible(table, columns, |table| - 1);
        assert forall k :: 0 <= k < |prefix| ==> prefix[k].0 != src;
        assert forall k :: 0 <= k < |prefix| && Eligible(table, columns, k) ==> prefix[k].1 != dst;
        assert src !in m;
        assert dst !in m.Values;
      }
    }
  }

  /** The label each input column carries after renaming. */
  function Label(c: string, m: map<string, string>): string {
    if c in m then m[c] else c
  }

  /** `df.rename(columns=m).columns` */
  function Relabel(columns: seq<string>, m: map<string, string>): (r: seq<string>)
    ensures |r| == |columns|
    ensures forall i :: 0 <= i < |columns| ==> r[i] == Label(columns[i], m)
  {
    seq(|columns|, i requires 0 <= i < |columns| => Label(columns[i], m))
  }

  /** Finding, as written: two synonyms of one canonical column that are both
      present are both renamed, so the renamed batch carries that label twice. */
  lemma AsWrittenDuplicatesLabel(table: Synonyms, columns: seq<string>, i: int, j: int, a: int, b: int)
    requires 0 <= i < |table| && 0 <= j < |table| && i != j
    requires forall k :: i < k < |table| ==> table[k].0 != table[i].0
    requires forall k :: j < k < |table| ==> table[k].0 != table[j].0
    requires table[i].1 == table[j].1 && table[i].1 !in columns
    requires 0 <= a < |columns| && 0 <= b < |columns| && columns[a] == table[i].0 && columns[b] == table[j].0
    ensures !Distinct(Relabel(columns, RenamesAsWritten(table, ColumnSet(columns))))
  {
    var m := RenamesAsWritten(table, ColumnSet(columns));
    AsWrittenRenamesEveryEligible(table, ColumnSet(columns), i);
    AsWrittenRenamesEveryEligible(table, ColumnSet(columns), j);
    var r := Relabel(columns, m);
    assert a != b;
    if a < b { assert r[a] == r[b]; } else { assert r[b] == r[a]; }
  }

  /** With the correction, renaming keeps the labels unique. */
  lemma RelabelDistinct(table: Synonyms, columns: seq<string>)
    requires Distinct(columns)
    ensures Distinct(Relabel(columns, Renames(table, ColumnSet(columns))))
  {
    var m := Renames(table, ColumnSet(columns));
    var r := Relabel(columns, m);
    forall i, j | 0 <= i < j < |r| ensures r[i] != r[j] {
      if columns[i] in m && columns[j] !in m {
        assert m[columns[i]] !in ColumnSet(columns);
      } else if columns[i] !in m && columns[j] in m {
        assert m[columns[j]] !in ColumnSet(columns);
      }
    }
  }

  /** `df[new_col] = None` for every target not yet a column, in table order. */
  function AddMissing(columns: seq<string>, table: Synonyms): (r: seq<string>)
    ensures columns <= r
    ensures ColumnSet(r) == ColumnSet(columns) + Targets(table)
    ensures Distinct(columns) ==> Distinct(r)
    decreases |table|
  {
    if table == [] then columns
    else
      var p := AddMissing(columns, table[..|table| - 1]);
      var t := table[|table| - 1].1;
      TargetsSnoc(table);
      if t in p then p else
        assert ColumnSet(p + [t]) == ColumnSet(p) + {t};
        p + [t]
  }

  /** `df[[c for c in df.columns if c in keep]]`: the columns in `keep`, in order. */
  function Project(columns: seq<string>, keep: set<string>): (r: seq<string>)
    ensures ColumnSet(r) == ColumnSet(columns) * keep
  {
    Filter(columns, c => c in keep)
  }

  /** The columns that survive `_map_columns`, in order: every canonical column
      of the synonym table, nothing outside the canonical columns of the two
      tables, and no label twice. */
  function MappedColumns(table: Synonyms, simple: Synonyms, columns: seq<string>): (r: seq<string>)
    ensures Targets(table) <= ColumnSet(r) <= Targets(table) + Targets(simple)
    ensures Distinct(columns) ==> Distinct(r)
  {
    var keep := Targets(table) + Targets(simple);
    var added := AddMissing(Relabel(columns, Renames(table + simple, ColumnSet(columns))), table);
    if Distinct(columns) then
      RelabelDistinct(table + simple, columns);
      FilterDistinct(added, c => c in keep);
      assert Project(added, keep) == Filter(added, c => c in keep);
      Project(added, keep)
    else
      Project(added, keep)
  }

  /** One row after renaming: every input value under its new label. */
  function RenamedRow(row: Row<Option<string>>, m: map<string, string>): (r: Row<Option<string>>)
    requires Injective(m) && forall s :: s in m ==> m[s] !in row.Keys
  {
    map c | c in row.Keys :: Label(c, m) := row[c]
  }

  /** One row after renaming, null-filling and projection onto `columns`. */
  function MappedRow(row: Row<Option<string>>, m: map<string, string>, columns: seq<string>): Row<Option<string>>
    requires Injective(m) && forall s :: s in m ==> m[s] !in row.Keys
  {
    var renamed := RenamedRow(row, m);
    map t | t in ColumnSet(columns) :: if t in renamed then renamed[t] else None
  }

  /** `_map_columns` applied to a well-formed raw batch. */
  function MapFrame(table: Synonyms, simple: Synonyms, f: RawFrame): (g: RawFrame)
    requires WellFormed(f)
    ensures WellFormed(g) && |g.rows| == |f.rows|
  {
    var m := Renames(table + simple, ColumnSet(f.columns));
    var columns := MappedColumns(table, simple, f.columns);
    Frame(columns, seq(|f.rows|, i requires 0 <= i < |f.rows| => MappedRow(f.rows[i], m, columns)))
  }

  /** The rename map `_map_columns` builds for batch `f`. */
  function RenameMap(table: Synonyms, simple: Synonyms, f: RawFrame): map<string, string> {
    Renames(table + simple, ColumnSet(f.columns))
  }

  /** After mapping, every input value sits under its column's new label, and a
      kept column that no input column was renamed to is null in every row. */
  lemma MapFrameValues(table: Synonyms, simple: Synonyms, f: RawFrame, i: int, c: string, t: string)
    requires WellFormed(f) && 0 <= i < |f.rows|
    ensures c in f.columns && Label(c, RenameMap(table, simple, f)) in MapFrame(table, simple, f).columns ==>
              MapFrame(table, simple, f).rows[i][Label(c, RenameMap(table, simple, f))] == f.rows[i][c]
    ensures t in MapFrame(table, simple, f).columns && t !in Relabel(f.columns, RenameMap(table, simple, f)) ==>
              MapFrame(table, simple, f).rows[i][t] == None
  {
    var m := RenameMap(table, simple, f);
    var g := MapFrame(table, simple, f);
    var renamed := RenamedRow(f.rows[i], m);
    if c in f.columns && Label(c, m) in g.columns {
      assert Label(c, m) in renamed && renamed[Label(c, m)] == f.rows[i][c];
    }
  }

  /** The rename loop of `_map_columns`: one pass over the entries in order. */
  method BuildRenames(table: Synonyms, present: set<string>) returns (m: map<string, string>)
    ensures m == Renames(table, present)
  {
    m := map[];
    var i := 0;
    while i < |table|
      invariant 0 <= i <= |table|
      invariant m == Renames(table[..i], present)
    {
      var (src, dst) := table[i];
      assert table[..i + 1][..i] == table[..i];
      if src in present && dst !in present && src !in m && dst !in m.Values {
        m := m[src := dst];
      }
      i := i + 1;
    }
    assert table[..|table|] == table;
  }

  /** The null-filling loop of `_map_columns`: appends each canonical column
      that is still missing, in table order. */
  method AddMissingColumns(columns: seq<string>, table: Synonyms) returns (r: seq<string>)
    ensures r == AddMissing(columns, table)
  {
    r := columns;
    var k := 0;
    while k < |table|
      invariant 0 <= k <= |table|
      invariant r == AddMissing(columns, table[..k])
    {
      assert table[..k + 1][..k] == table[..k];
      if table[k].1 !in r {
        r := r + [table[k].1];
      }
      k := k + 1;
    }
    assert table[..|table|] == table;
  }

  /** `_map_columns`: renames by the synonym table and then the pre-mapped
      names, adds every missing canonical column as null and keeps only
      canonical columns. */
  method MapColumns(table: Synonyms, simple: Synonyms, f: RawFrame) returns (g: RawFrame)
    requires WellFormed(f)
    ensures g == MapFrame(table, simple, f)
  {
    var m := BuildRenames(table + simple, ColumnSet(f.columns));
    var columns := AddMissingColumns(Relabel(f.columns, m), table);
    columns := Project(columns, Targets(table) + Targets(simple));
    g := Frame(columns, seq(|f.rows|, r requires 0 <= r < |f.rows| => MappedRow(f.rows[r], m, columns)));
  }

  /** Finding, on the entity tables: a file with both `LegalName` and
      `Entity.LegalName` columns leaves the as-written rename with two
      `legalName` columns. */
  lemma EntityLegalNameCollision()
    ensures !Distinct(Relabel(["LegalName", "Entity.LegalName"],
                              RenamesAsWritten(EntityColumnMapping + EntitySimpleMapping,
                                               ColumnSet(["LegalName", "Entity.LegalName"]))))
  {
    var table := EntityColumnMapping + EntitySimpleMapping;
    var columns := ["LegalName", "Entity.LegalName"];
    assert table[1] == ("LegalName", "legalName") && table[2] == ("Entity.LegalName", "legalName");
    assert forall k :: 1 < k < |table| ==> table[k].0 != table[1].0;
    assert forall k :: 2 < k < |table| ==> table[k].0 != table[2].0;
    AsWrittenDuplicatesLabel(table, columns, 1, 2, 0, 1);
  }

  /** The corrected rename of the same file keeps one `legalName` column. */
  lemma EntityLegalNameCorrected()
    ensures Distinct(Relabel(["LegalName", "Entity.LegalName"],
                             Renames(EntityColumnMapping + EntitySimpleMapping,
                                     ColumnSet(["LegalName", "Entity.LegalName"]))))
  {
    RelabelDistinct(EntityColumnMapping + EntitySimpleMapping, ["LegalName", "Entity.LegalName"]);
  }

  /** The naming convention of the canonical schema: lower-camel-case, so a
      leading lower-case letter and no underscore. */
  predicate CanonicalName(s: string) {
    s != [] && 'a' <= s[0] <= 'z' && '_' !in s
  }

  /** The target is canonical, and a source that looks canonical maps to itself. */
  predicate SeparatedEntry(e: (string, string)) {
    CanonicalName(e.1) && (CanonicalName(e.0) ==> e.0 == e.1)
  }

  predicate SeparatesNames(table: Synonyms) {
    forall k :: 0 <= k < |table| ==> SeparatedEntry(table[k])
  }

  lemma TargetsCanonical(table: Synonyms)
    requires SeparatesNames(table)
    ensures forall t :: t in Targets(table) ==> CanonicalName(t)
  {
    forall t | t in Targets(table) ensures CanonicalName(t) {
      var k :| 0 <= k < |table| && table[k].1 == t;
      assert SeparatedEntry(table[k]);
    }
  }

  lemma TargetsOfConcat(a: Synonyms, b: Synonyms)
    ensures Targets(a + b) == Targets(a) + Targets(b)
  {
    forall t | t in Targets(a + b) ensures t in Targets(a) + Targets(b) {
      var k :| 0 <= k < |a + b| && (a + b)[k].1 == t;
      if k < |a| { assert a[k].1 == t; } else { assert b[k - |a|].1 == t; }
    }
    forall t | t in Targets(a) ensures t in Targets(a + b) {
      var k :| 0 <= k < |a| && a[k].1 == t;
      assert (a + b)[k].1 == t;
    }
    forall t | t in Targets(b) ensures t in Targets(a + b) {
      var k :| 0 <= k < |b| && b[k].1 == t;
      assert (a + b)[k + |a|].1 == t;
    }
  }

  /** Columns that are all canonical trigger no rename. */
  lemma {:induction false} RenamesOfCanonical(table: Synonyms, columns: set<string>)
    requires SeparatesNames(table)
    requires forall c :: c in columns ==> CanonicalName(c)
    ensures Renames(table, columns) == map[]
    decreases |table|
  {
    if table != [] {
      RenamesOfCanonical(table[..|table| - 1], columns);
    }
  }

  lemma {:induction false} AddMissingPresent(columns: seq<string>, table: Synonyms)
    requires Targets(table) <= ColumnSet(columns)
    ensures AddMissing(columns, table) == columns
    decreases |table|
  {
    if table != [] {
      TargetsSnoc(table);
      AddMissingPresent(columns, table[..|table| - 1]);
    }
  }

  /** A column list that already is a mapping result triggers no rename and
      maps to itself. */
  lemma MappedColumnsFixed(table: Synonyms, simple: Synonyms, columns: seq<string>)
    requires SeparatesNames(table + simple)
    requires Targets(table) <= ColumnSet(columns) <= Targets(table) + Targets(simple)
    ensures Renames(table + simple, ColumnSet(columns)) == map[]
    ensures MappedColumns(table, simple, columns) == columns
  {
    TargetsOfConcat(table, simple);
    TargetsCanonical(table + simple);
    RenamesOfCanonical(table + simple, ColumnSet(columns));
    assert Relabel(columns, map[]) == columns;
    AddMissingPresent(columns, table);
    var keep := Targets(table) + Targets(simple);
    CountFailingZero(columns, c => c in keep);
    NoFailingKeepsAll(columns, c => c in keep);
    assert Project(columns, keep) == columns;
  }

  /** Mapping an already-mapped batch changes nothing, as long as the tables
      keep source and canonical names apart (the source's tables do, see
      `EntityTablesSeparateNames` and `RelationshipTablesSeparateNames`). */
  lemma MapFrameIdempotent(table: Synonyms, simple: Synonyms, f: RawFrame)
    requires WellFormed(f) && SeparatesNames(table + simple)
    ensures MapFrame(table, simple, MapFrame(table, simple, f)) == MapFrame(table, simple, f)
  {
    var g := MapFrame(table, simple, f);
    MappedColumnsFixed(table, simple, g.columns);
    var h := MapFrame(table, simple, g);
    assert h.columns == g.columns;
    forall i | 0 <= i < |g.rows| ensures h.rows[i] == g.rows[i] {
      MappedRowIdentity(g.rows[i], g.columns);
    }
  }

  lemma MappedRowIdentity(row: Row<Option<string>>, columns: seq<string>)
    requires row.Keys == ColumnSet(columns)
    ensures MappedRow(row, map[], columns) == row
  {
    assert RenamedRow(row, map[]) == row;
  }

  lemma SeparatesConcat(a: Synonyms, b: Synonyms)
    requires SeparatesNames(a) && SeparatesNames(b)
    ensures SeparatesNames(a + b)
  {
    forall k | 0 <= k < |a + b| ensures SeparatedEntry((a + b)[k]) {
      if k < |a| { assert (a + b)[k] == a[k]; } else { assert (a + b)[k] == b[k - |a|]; }
    }
  }

  // The entity table is checked six entries at a time.
  lemma EntityEntriesSeparated1() ensures forall k :: 0 <= k < 6 ==> SeparatedEntry(EntityColumnMapping[k]) {}
  lemma EntityEntriesSeparated2() ensures forall k :: 6 <= k < 12 ==> SeparatedEntry(EntityColumnMapping[k]) {}
  lemma EntityEntriesSeparated3() ensures forall k :: 12 <= k < 18 ==> SeparatedEntry(EntityColumnMapping[k]) {}
  lemma EntityEntriesSeparated4() ensures forall k :: 18 <= k < 24 ==> SeparatedEntry(EntityColumnMapping[k]) {}
  lemma EntityEntriesSeparated5() ensures forall k :: 24 <= k < 30 ==> SeparatedEntry(EntityColumnMapping[k]) {}
  lemma EntityEntriesSeparated6() ensures forall k :: 30 <= k < 36 ==> SeparatedEntry(EntityColumnMapping[k]) {}
  lemma EntitySimpleSeparated() ensures SeparatesNames(EntitySimpleMapping) {}
  lemma RelationshipEntriesSeparated() ensures SeparatesNames(RelationshipColumnMapping) {}
  lemma RelationshipSimpleSeparated() ensures SeparatesNames(RelationshipSimpleMapping) {}

  /** The synonym tables of the entity normalizer keep source and canonical names apart. */
  lemma EntityTablesSeparateNames()
    ensures SeparatesNames(EntityColumnMapping + EntitySimpleMapping)
  {
    EntityEntriesSeparated1();
    EntityEntriesSeparated2();
    EntityEntriesSeparated3();
    EntityEntriesSeparated4();
    EntityEntriesSeparated5();
    EntityEntriesSeparated6();
    assert |EntityColumnMapping| == 36;
    EntitySimpleSeparated();
    SeparatesConcat(EntityColumnMapping, EntitySimpleMapping);
  }

  /** The synonym tables of the relationship normalizer keep source and canonical names apart. */
  lemma RelationshipTablesSeparateNames()
    ensures SeparatesNames(RelationshipColumnMapping + RelationshipSimpleMapping)
  {
    RelationshipEntriesSeparated();
    RelationshipSimpleSeparated();
    SeparatesConcat(RelationshipColumnMapping, RelationshipSimpleMapping);
  }
}
