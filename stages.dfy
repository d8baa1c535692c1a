/**
  The normalization stages after type coercion, as functions over the rows of
  a coerced batch: required-field filtering, referential-integrity filtering,
  closing a status enumeration, duplicate counting, entity-id derivation and
  the null analysis. Each stage returns the warnings it would add to the
  quality report.
 */
module Stages {
  import opened Tables
  import opened Quality
  import Coercion

  type CellRow = Row<Cell>

  const ValidEntityStatus: set<string> := {"ACTIVE", "INACTIVE", "MERGED", "OBSOLETE", "PENDING_ARCHIVAL"}
  const ValidRelationshipStatus: set<string> := {"ACTIVE", "INACTIVE", "OBSOLETE"}

  /** The rows removed that an issue reports. */
  function Removed(w: Issue): nat {
    match w
      case MissingRequired(_, n) => n
      case InvalidReference(_, n) => n
      case _ => 0
  }

  function TotalRemoved(ws: seq<Issue>): nat {
    if ws == [] then 0 else Removed(ws[0]) + TotalRemoved(ws[1..])
  }

  lemma {:induction false} TotalRemovedConcat(a: seq<Issue>, b: seq<Issue>)
    ensures TotalRemoved(a + b) == TotalRemoved(a) + TotalRemoved(b)
  {
    if a != [] {
      assert (a + b)[0] == a[0];
      assert (a + b)[1..] == a[1..] + b;
      TotalRemovedConcat(a[1..], b);
    } else {
      assert a + b == b;
    }
  }

  // ---------------------------------------------------------------- required fields

  /** `notna() & (x != "")` on one cell. */
  predicate Present(c: Cell) {
    c != Null && c != Text("")
  }

  predicate HasValue(r: CellRow, col: string) {
    col in r && Present(r[col])
  }

  /** `df[mask]` with the required-field mask of column `col`. */
  function KeepWithValue(rows: seq<CellRow>, col: string): seq<CellRow> {
    Filter(rows, r => HasValue(r, col))
  }

  /** `(~mask).sum()` for the required-field mask of column `col`. */
  function MissingCount(rows: seq<CellRow>, col: string): nat {
    CountFailing(rows, r => HasValue(r, col))
  }

  /** The warning for one required column: present when the column removed rows. */
  function MissingIssue(col: string, removed: nat): seq<Issue> {
    if removed > 0 then [MissingRequired(col, removed)] else []
  }

  /** `_validate_required_fields`: for each required column that is in the
      batch, in order, drop the rows without a value there. */
  function RequireFields(rows: seq<CellRow>, columns: seq<string>, required: seq<string>): (out: (seq<CellRow>, seq<Issue>))
    ensures forall r :: r in out.0 ==> r in rows
    decreases |required|
  {
    if required == [] then (rows, [])
    else if required[0] !in columns then RequireFields(rows, columns, required[1..])
    else
      var rest := RequireFields(KeepWithValue(rows, required[0]), columns, required[1..]);
      (rest.0, MissingIssue(required[0], MissingCount(rows, required[0])) + rest.1)
  }

  /** Survivors are exactly the input rows that have a value in every required
      column of the batch. */
  lemma {:induction false} RequireFieldsKeeps(rows: seq<CellRow>, columns: seq<string>, required: seq<string>)
    ensures forall r :: r in RequireFields(rows, columns, required).0 <==>
              r in rows && forall c :: c in required && c in columns ==> HasValue(r, c)
    decreases |required|
  {
    if required != [] {
      if required[0] !in columns {
        RequireFieldsKeeps(rows, columns, required[1..]);
      } else {
        RequireFieldsKeeps(KeepWithValue(rows, required[0]), columns, required[1..]);
      }
      assert forall c :: c in required ==> c == required[0] || c in required[1..];
    }
  }

  /** Survivors keep their order. */
  lemma {:induction false} RequireFieldsSubsequence(rows: seq<CellRow>, columns: seq<string>, required: seq<string>)
    ensures IsSubsequence(RequireFields(rows, columns, required).0, rows)
    decreases |required|
  {
    if required == [] {
      SubsequenceReflexive(rows);
    } else if required[0] !in columns {
      RequireFieldsSubsequence(rows, columns, required[1..]);
    } else {
      var kept := KeepWithValue(rows, required[0]);
      RequireFieldsSubsequence(kept, columns, required[1..]);
      FilterIsSubsequence(rows, r => HasValue(r, required[0]));
      SubsequenceTransitive(RequireFields(kept, columns, required[1..]).0, kept, rows);
    }
  }

  /** Every warning names a required column of the batch with a positive
      count, and together they account for every removed row (which column
      gets which warning: RequireFieldsWarningPerColumn). */
  lemma {:induction false} RequireFieldsWarnings(rows: seq<CellRow>, columns: seq<string>, required: seq<string>)
    ensures var (out, ws) := RequireFields(rows, columns, required);
      |out| + TotalRemoved(ws) == |rows| &&
      forall k :: 0 <= k < |ws| ==>
        ws[k].MissingRequired? && ws[k].removed > 0 && ws[k].column in required && ws[k].column in columns
    decreases |required|
  {
    if required != [] {
      if required[0] !in columns {
        RequireFieldsWarnings(rows, columns, required[1..]);
      } else {
        var col := required[0];
        var kept := KeepWithValue(rows, col);
        RequireFieldsWarnings(kept, columns, required[1..]);
        FilterRemovesFailing(rows, r => HasValue(r, col));
        var rest := RequireFields(kept, columns, required[1..]);
        TotalRemovedConcat(MissingIssue(col, MissingCount(rows, col)), rest.1);
      }
    }
  }

  /** Some warning among `ws` is the missing-field warning of column `c`. */
  predicate NamesColumn(ws: seq<Issue>, c: string) {
    exists k :: 0 <= k < |ws| && ws[k].MissingRequired? && ws[k].column == c
  }

  /** Column `c` has a warning exactly when it removed `n > 0` rows, and every
      warning naming it reports `n`. */
  predicate WarnsFor(ws: seq<Issue>, c: string, n: nat) {
    (NamesColumn(ws, c) <==> n > 0) &&
    forall k :: 0 <= k < |ws| && ws[k].MissingRequired? && ws[k].column == c ==> ws[k].removed == n
  }

  /** No two missing-field warnings name the same column. */
  predicate OneWarningPerColumn(ws: seq<Issue>) {
    forall a, b :: 0 <= a < b < |ws| && ws[a].MissingRequired? && ws[b].MissingRequired? ==>
      ws[a].column != ws[b].column
  }

  /** The rows the pass over `required[i]` removes: its missing count over the
      survivors of the earlier passes. */
  function StageRemoved(rows: seq<CellRow>, columns: seq<string>, required: seq<string>, i: nat): nat
    requires i < |required|
  {
    MissingCount(RequireFields(rows, columns, required[..i]).0, required[i])
  }

  lemma {:induction false} RequireFieldsOneEach(rows: seq<CellRow>, columns: seq<string>, required: seq<string>)
    requires Distinct(required)
    ensures OneWarningPerColumn(RequireFields(rows, columns, required).1)
    decreases |required|
  {
    if required != [] {
      assert Distinct(required[1..]);
      if required[0] !in columns {
        RequireFieldsOneEach(rows, columns, required[1..]);
      } else {
        var col := required[0];
        var kept := KeepWithValue(rows, col);
        RequireFieldsOneEach(kept, columns, required[1..]);
        RequireFieldsWarnings(kept, columns, required[1..]);
        var rest := RequireFields(kept, columns, required[1..]).1;
        assert col !in required[1..];
        var head := MissingIssue(col, MissingCount(rows, col));
        var ws := head + rest;
        forall a, b | 0 <= a < b < |ws| && ws[a].MissingRequired? && ws[b].MissingRequired?
          ensures ws[a].column != ws[b].column
        {
          if a < |head| {
            assert ws[a].column == col && ws[b] == rest[b - |head|];
          } else {
            assert ws[a] == rest[a - |head|] && ws[b] == rest[b - |head|];
          }
        }
      }
    }
  }

  /** The pass over one required column `required[i]` of the batch. */
  lemma {:induction false} RequireFieldsWarnsAt(rows: seq<CellRow>, columns: seq<string>, required: seq<string>, i: nat)
    requires Distinct(required) && i < |required| && required[i] in columns
    ensures WarnsFor(RequireFields(rows, columns, required).1, required[i], StageRemoved(rows, columns, required, i))
    decreases |required|
  {
    assert Distinct(required[1..]);
    assert required[..i + 1][0] == required[0];
    var col := required[0];
    var ws := RequireFields(rows, columns, required).1;
    if i == 0 {
      assert required[..0] == [];
      assert StageRemoved(rows, columns, required, 0) == MissingCount(rows, col);
      var kept := KeepWithValue(rows, col);
      RequireFieldsWarnings(kept, columns, required[1..]);
      var rest := RequireFields(kept, columns, required[1..]).1;
      assert col !in required[1..];
      var head := MissingIssue(col, MissingCount(rows, col));
      assert ws == head + rest;
      if MissingCount(rows, col) > 0 {
        assert ws[0] == MissingRequired(col, MissingCount(rows, col));
      }
    } else {
      var c := required[i];
      assert c == required[1..][i - 1] && c != col;
      assert required[..i][1..] == required[1..][..i - 1];
      if col !in columns {
        RequireFieldsWarnsAt(rows, columns, required[1..], i - 1);
        assert StageRemoved(rows, columns, required, i) == StageRemoved(rows, columns, required[1..], i - 1);
      } else {
        var kept := KeepWithValue(rows, col);
        RequireFieldsWarnsAt(kept, columns, required[1..], i - 1);
        assert StageRemoved(rows, columns, required, i) == StageRemoved(kept, columns, required[1..], i - 1);
        var rest := RequireFields(kept, columns, required[1..]).1;
        var head := MissingIssue(col, MissingCount(rows, col));
        assert ws == head + rest;
        forall k | 0 <= k < |ws| && ws[k].MissingRequired? && ws[k].column == c
          ensures k >= |head| && ws[k] == rest[k - |head|]
        {
        }
        if NamesColumn(rest, c) {
          var k :| 0 <= k < |rest| && rest[k].MissingRequired? && rest[k].column == c;
          assert ws[k + |head|] == rest[k];
        }
      }
    }
  }

  /** With distinct required columns, exactly one warning per present
      required column that removed rows, carrying the count that pass
      removed, and no two warnings for one column. */
  lemma RequireFieldsWarningPerColumn(rows: seq<CellRow>, columns: seq<string>, required: seq<string>)
    requires Distinct(required)
    ensures var ws := RequireFields(rows, columns, required).1;
      OneWarningPerColumn(ws) &&
      forall i :: 0 <= i < |required| && required[i] in columns ==>
        WarnsFor(ws, required[i], StageRemoved(rows, columns, required, i))
  {
    RequireFieldsOneEach(rows, columns, required);
    forall i | 0 <= i < |required| && required[i] in columns
      ensures WarnsFor(RequireFields(rows, columns, required).1, required[i], StageRemoved(rows, columns, required, i))
    {
      RequireFieldsWarnsAt(rows, columns, required, i);
    }
  }

  // ---------------------------------------------------------------- referential integrity

  /** `df[col].isin(valid_leis)` on one row. */
  predicate Refers(r: CellRow, col: string, valid: set<string>) {
    col in r && r[col].Text? && r[col].text in valid
  }

  function KeepValidRefs(rows: seq<CellRow>, col: string, valid: set<string>): seq<CellRow> {
    Filter(rows, r => Refers(r, col, valid))
  }

  function InvalidRefCount(rows: seq<CellRow>, col: string, valid: set<string>): nat {
    CountFailing(rows, r => Refers(r, col, valid))
  }

  /** One side of `_check_referential_integrity`: the surviving rows, the
      warning, and the increment of the integrity-issue counter. */
  function CheckSide(rows: seq<CellRow>, columns: seq<string>, col: string, valid: set<string>)
    : (out: (seq<CellRow>, seq<Issue>, nat))
    ensures forall r :: r in out.0 ==> r in rows
  {
    if col !in columns then (rows, [], 0)
    else
      var bad := InvalidRefCount(rows, col, valid);
      if bad > 0 then (KeepValidRefs(rows, col, valid), [InvalidReference(col, bad)], bad)
      else (rows, [], 0)
  }

  /** `_check_referential_integrity`: the child side, then the parent side on
      what the child side kept. */
  function CheckReferences(rows: seq<CellRow>, columns: seq<string>, valid: set<string>)
    : (out: (seq<CellRow>, seq<Issue>, nat))
    ensures forall r :: r in out.0 ==> r in rows
  {
    var child := CheckSide(rows, columns, "childLei", valid);
    var parent := CheckSide(child.0, columns, "parentLei", valid);
    (parent.0, child.1 + parent.1, child.2 + parent.2)
  }

  lemma CheckSideFacts(rows: seq<CellRow>, columns: seq<string>, col: string, valid: set<string>)
    ensures var (out, ws, n) := CheckSide(rows, columns, col, valid);
      |out| + n == |rows| && TotalRemoved(ws) == n && IsSubsequence(out, rows) &&
      forall r :: r in out <==> r in rows && (col in columns ==> Refers(r, col, valid))
  {
    SubsequenceReflexive(rows);
    FilterRemovesFailing(rows, r => Refers(r, col, valid));
    FilterIsSubsequence(rows, r => Refers(r, col, valid));
    CountFailingZero(rows, r => Refers(r, col, valid));
  }

  /** The integrity counter grows by exactly the number of rows removed (a row
      failing on both sides is removed, and counted, once); the warnings
      report the same number; survivors keep their order. */
  lemma CheckReferencesCounts(rows: seq<CellRow>, columns: seq<string>, valid: set<string>)
    ensures var (out, ws, n) := CheckReferences(rows, columns, valid);
      |out| + n == |rows| && TotalRemoved(ws) == n && IsSubsequence(out, rows)
  {
    var child := CheckSide(rows, columns, "childLei", valid);
    var parent := CheckSide(child.0, columns, "parentLei", valid);
    CheckSideFacts(rows, columns, "childLei", valid);
    CheckSideFacts(child.0, columns, "parentLei", valid);
    TotalRemovedConcat(child.1, parent.1);
    SubsequenceTransitive(parent.0, child.0, rows);
  }

  /** A relationship survives exactly when both of its LEIs (where the batch
      has those columns) are valid. */
  lemma CheckReferencesKeeps(rows: seq<CellRow>, columns: seq<string>, valid: set<string>)
    ensures forall r :: r in CheckReferences(rows, columns, valid).0 <==>
              r in rows &&
              ("childLei" in columns ==> Refers(r, "childLei", valid)) &&
              ("parentLei" in columns ==> Refers(r, "parentLei", valid))
  {
    var child := CheckSide(rows, columns, "childLei", valid);
    CheckSideFacts(rows, columns, "childLei", valid);
    CheckSideFacts(child.0, columns, "parentLei", valid);
  }

  // ---------------------------------------------------------------- status enumeration

  /** `df[col].isin(allowed)` on one row. */
  predicate Allowed(r: CellRow, col: string, allowed: set<string>) {
    col in r && r[col].Text? && r[col].text in allowed
  }

  function UnknownCount(rows: seq<CellRow>, col: string, allowed: set<string>): nat {
    CountFailing(rows, r => Allowed(r, col, allowed))
  }

  /** `df.loc[mask, col] = "ACTIVE"` on one row. */
  function DefaultStatus(r: CellRow, col: string, allowed: set<string>): CellRow {
    if col in r && !Allowed(r, col, allowed) then r[col := Text("ACTIVE")] else r
  }

  /** Every row with its unknown status set to ACTIVE: a row whose status is
      outside `allowed` gets the text ACTIVE there and keeps every other cell;
      every other row is unchanged. */
  function DefaultStatuses(rows: seq<CellRow>, col: string, allowed: set<string>): (out: seq<CellRow>)
    ensures |out| == |rows|
    ensures forall i :: 0 <= i < |rows| && col in rows[i] && !Allowed(rows[i], col, allowed) ==>
              out[i] == rows[i][col := Text("ACTIVE")]
    ensures forall i :: 0 <= i < |rows| && !(col in rows[i] && !Allowed(rows[i], col, allowed)) ==>
              out[i] == rows[i]
  {
    seq(|rows|, i requires 0 <= i < |rows| => DefaultStatus(rows[i], col, allowed))
  }

  /** `_standardize_values`: when some status is outside `allowed`, warn once
      and set every such status to ACTIVE. */
  function Standardize(rows: seq<CellRow>, columns: seq<string>, col: string, allowed: set<string>)
    : (out: (seq<CellRow>, seq<Issue>))
    ensures |out.0| == |rows|
    ensures forall i :: 0 <= i < |rows| ==> out.0[i].Keys == rows[i].Keys
    ensures forall i, c :: 0 <= i < |rows| && c in rows[i] && c != col ==> out.0[i][c] == rows[i][c]
    ensures forall i :: 0 <= i < |rows| && Allowed(rows[i], col, allowed) ==> out.0[i] == rows[i]
    ensures "ACTIVE" in allowed && col in columns ==>
              forall i :: 0 <= i < |rows| && col in rows[i] ==> Allowed(out.0[i], col, allowed)
    ensures col in columns ==>
              forall i :: 0 <= i < |rows| && col in rows[i] && !Allowed(rows[i], col, allowed) ==>
                out.0[i] == rows[i][col := Text("ACTIVE")]
    ensures col !in columns ==> out == (rows, [])
    ensures TotalRemoved(out.1) == 0
  {
    if col !in columns then (rows, [])
    else
      var n := UnknownCount(rows, col, allowed);
      if n > 0 then
        (DefaultStatuses(rows, col, allowed), [UnknownStatus(col, n)])
      else
        CountFailingZero(rows, r => Allowed(r, col, allowed));
        assert forall i :: 0 <= i < |rows| ==> rows[i] in rows;
        (rows, [])
  }

  /** The single warning is added exactly when some status was rewritten, and
      reports how many. */
  lemma StandardizeWarnsIffRewritten(rows: seq<CellRow>, columns: seq<string>, col: string, allowed: set<string>)
    requires "ACTIVE" in allowed
    requires forall i :: 0 <= i < |rows| ==> col in rows[i]
    ensures var (out, ws) := Standardize(rows, columns, col, allowed);
      (ws != [] <==> out != rows) &&
      (ws != [] ==> ws == [UnknownStatus(col, UnknownCount(rows, col, allowed))])
  {
    var (out, ws) := Standardize(rows, columns, col, allowed);
    if ws != [] {
      CountFailingZero(rows, r => Allowed(r, col, allowed));
      var r :| r in rows && !Allowed(r, col, allowed);
      var i :| 0 <= i < |rows| && rows[i] == r;
      assert Allowed(out[i], col, allowed);
    }
  }

  // ---------------------------------------------------------------- duplicates

  function Occurrences<K(==)>(s: seq<K>, k: K): nat {
    if s == [] then 0 else (if s[0] == k then 1 else 0) + Occurrences(s[1..], k)
  }

  /** The elements of `s` that occur more than once in `all`. */
  function CountRepeated<K(==)>(s: seq<K>, all: seq<K>): nat {
    if s == [] then 0 else (if Occurrences(all, s[0]) > 1 then 1 else 0) + CountRepeated(s[1..], all)
  }

  /** `len(df[df.duplicated(subset=key, keep=False)])` over the key column(s). */
  function DuplicateCount<K(==)>(keys: seq<K>): nat {
    CountRepeated(keys, keys)
  }

  lemma {:induction false} OccurrencesPositive<K>(s: seq<K>, k: K)
    ensures Occurrences(s, k) > 0 <==> k in s
  {
    if s != [] {
      OccurrencesPositive(s[1..], k);
    }
  }

  /** Every occurrence in `s` of a key repeated in `all` is counted. */
  lemma {:induction false} CountRepeatedAtLeast<K>(s: seq<K>, all: seq<K>, k: K)
    requires Occurrences(all, k) > 1
    ensures CountRepeated(s, all) >= Occurrences(s, k)
  {
    if s != [] {
      CountRepeatedAtLeast(s[1..], all, k);
    }
  }

  lemma {:induction false} CountRepeatedZero<K>(s: seq<K>, all: seq<K>)
    ensures CountRepeated(s, all) == 0 <==> forall i :: 0 <= i < |s| ==> Occurrences(all, s[i]) <= 1
  {
    if s != [] {
      CountRepeatedZero(s[1..], all);
      assert forall i :: 1 <= i < |s| ==> s[i] == s[1..][i - 1];
    }
  }

  lemma {:induction false} OccurrencesTwo<K>(s: seq<K>, i: int, j: int)
    requires 0 <= i < j < |s| && s[i] == s[j]
    ensures Occurrences(s, s[i]) > 1
  {
    if i == 0 {
      OccurrencesPositive(s[1..], s[i]);
      assert s[1..][j - 1] == s[j];
    } else {
      OccurrencesTwo(s[1..], i - 1, j - 1);
    }
  }

  lemma {:induction false} OccurrencesOneDistinct<K>(s: seq<K>)
    requires forall i :: 0 <= i < |s| ==> Occurrences(s, s[i]) <= 1
    ensures Distinct(s)
  {
    forall i, j | 0 <= i < j < |s| ensures s[i] != s[j] {
      if s[i] == s[j] {
        OccurrencesTwo(s, i, j);
      }
    }
  }

  lemma {:induction false} DistinctOccursOnce<K>(s: seq<K>, k: K)
    requires Distinct(s)
    ensures Occurrences(s, k) <= 1
  {
    if s != [] {
      assert Distinct(s[1..]);
      DistinctOccursOnce(s[1..], k);
      if s[0] == k {
        OccurrencesPositive(s[1..], k);
      }
    }
  }

  /** A duplicate is always counted with its partner, so the count is never 1. */
  lemma DuplicateCountNotOne<K>(keys: seq<K>)
    ensures DuplicateCount(keys) != 1
  {
    if DuplicateCount(keys) != 0 {
      CountRepeatedZero(keys, keys);
      var i :| 0 <= i < |keys| && Occurrences(keys, keys[i]) > 1;
      CountRepeatedAtLeast(keys, keys, keys[i]);
    }
  }

  /** No duplicate is counted exactly when the keys are pairwise distinct. */
  lemma DuplicateCountZeroIff<K>(keys: seq<K>)
    ensures DuplicateCount(keys) == 0 <==> Distinct(keys)
  {
    CountRepeatedZero(keys, keys);
    if Distinct(keys) {
      forall i | 0 <= i < |keys| ensures Occurrences(keys, keys[i]) <= 1 {
        DistinctOccursOnce(keys, keys[i]);
      }
    } else if DuplicateCount(keys) == 0 {
      OccurrencesOneDistinct(keys);
    }
  }

  /** The `lei` column of a batch. */
  function LeiKeys(rows: seq<CellRow>): (keys: seq<Cell>)
    requires forall i :: 0 <= i < |rows| ==> "lei" in rows[i]
    ensures |keys| == |rows| && forall i :: 0 <= i < |rows| ==> keys[i] == rows[i]["lei"]
  {
    seq(|rows|, i requires 0 <= i < |rows| => rows[i]["lei"])
  }

  /** The `(childLei, parentLei)` columns of a batch. */
  function PairKeys(rows: seq<CellRow>): (keys: seq<(Cell, Cell)>)
    requires forall i :: 0 <= i < |rows| ==> "childLei" in rows[i] && "parentLei" in rows[i]
    ensures |keys| == |rows| && forall i :: 0 <= i < |rows| ==> keys[i] == (rows[i]["childLei"], rows[i]["parentLei"])
  {
    seq(|rows|, i requires 0 <= i < |rows| => (rows[i]["childLei"], rows[i]["parentLei"]))
  }

  /** The warning `_detect_duplicates` adds for a count. */
  function DuplicateIssue(count: nat): (ws: seq<Issue>)
    ensures ws != [] <==> count > 0
    ensures TotalRemoved(ws) == 0
  {
    if count > 0 then [Duplicates(count)] else []
  }

  // ---------------------------------------------------------------- entity ids

  /** `hashlib.md5(lei.encode()).hexdigest()[:16]` */
  function EntityId(lib: Coercion.Library, lei: string): (id: string)
    ensures id <= lib.md5Hex(lei)
    ensures |id| == if |lib.md5Hex(lei)| < 16 then |lib.md5Hex(lei)| else 16
  {
    var h := lib.md5Hex(lei);
    if |h| < 16 then h else h[..16]
  }

  /** Every row has a text `lei` (what `lei.encode()` needs). */
  predicate LeisAreText(f: Frame<Cell>) {
    forall i :: 0 <= i < |f.rows| ==> "lei" in f.rows[i] && f.rows[i]["lei"].Text?
  }

  /** `_generate_entity_ids`: the `entity_id` column, derived from `lei`. */
  function GenerateEntityIds(lib: Coercion.Library, f: Frame<Cell>): (g: Frame<Cell>)
    requires WellFormed(f) && "lei" in f.columns && LeisAreText(f)
    ensures WellFormed(g) && |g.rows| == |f.rows|
    ensures f.columns <= g.columns && ColumnSet(g.columns) == ColumnSet(f.columns) + {"entity_id"}
    ensures forall i :: 0 <= i < |f.rows| ==> g.rows[i]["entity_id"] == Text(EntityId(lib, f.rows[i]["lei"].text))
    ensures forall i, c :: 0 <= i < |f.rows| && c in f.rows[i] && c != "entity_id" ==> g.rows[i][c] == f.rows[i][c]
  {
    var columns := if "entity_id" in f.columns then f.columns else f.columns + ["entity_id"];
    assert ColumnSet(columns) == ColumnSet(f.columns) + {"entity_id"};
    Frame(columns, seq(|f.rows|, i requires 0 <= i < |f.rows| =>
      f.rows[i]["entity_id" := Text(EntityId(lib, f.rows[i]["lei"].text))]))
  }

  /** The id is a function of the LEI alone: equal LEIs get equal ids. */
  lemma EntityIdsFollowLei(lib: Coercion.Library, f: Frame<Cell>, i: int, j: int)
    requires WellFormed(f) && "lei" in f.columns && LeisAreText(f)
    requires 0 <= i < |f.rows| && 0 <= j < |f.rows| && f.rows[i]["lei"] == f.rows[j]["lei"]
    ensures GenerateEntityIds(lib, f).rows[i]["entity_id"] == GenerateEntityIds(lib, f).rows[j]["entity_id"]
  {
  }

  // ---------------------------------------------------------------- null analysis

  function NullCount(rows: seq<CellRow>, col: string): nat {
    CountWhere(rows, r => col in r && r[col] == Null)
  }

  /** `part / whole * 100` */
  function Percentage(part: nat, whole: nat): (p: real)
    requires 0 < part <= whole
    ensures 0.0 < p <= 100.0
    ensures p * (whole as real) == (part as real) * 100.0
    ensures p == 100.0 <==> part == whole
  {
    var q := (part as real) / (whole as real);
    assert q <= 1.0;
    q * 100.0
  }

  /** `get_null_analysis`: the percentage of null cells of every column that
      has at least one. An empty batch has none. */
  function NullAnalysis(f: Frame<Cell>): (m: map<string, real>)
    ensures forall c :: c in m <==> c in f.columns && NullCount(f.rows, c) > 0
    ensures forall c :: c in m ==> 0.0 < m[c] <= 100.0
    ensures forall c :: c in m ==> m[c] == Percentage(NullCount(f.rows, c), |f.rows|)
  {
    map c | c in f.columns && NullCount(f.rows, c) > 0 :: Percentage(NullCount(f.rows, c), |f.rows|)
  }

  /** A column reports 100 percent exactly when it is null in every row. */
  lemma NullAnalysisFull(f: Frame<Cell>, c: string)
    requires c in NullAnalysis(f)
    ensures NullAnalysis(f)[c] == 100.0 <==> forall r :: r in f.rows ==> c in r && r[c] == Null
  {
    CountWhereBounds(f.rows, r => c in r && r[c] == Null);
  }
}
