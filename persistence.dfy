/**
  The versioned snapshot store (`ParquetPersistence`). The output directory is
  modelled by one map per kind of file, keyed by version (or, for CSV exports,
  by path); Parquet, JSON and CSV serialization are left out, and the clock
  that supplies the default version is a parameter.
 */
module Persistence {
  import opened Tables
  import opened Text
  import opened Quality

  datatype Failure =
    | FileNotFound(path: string)         // `FileNotFoundError` for a named file
    | NoSnapshots(dataType: string)      // `FileNotFoundError` when "latest" finds no file
    | UnknownDataType(dataType: string)  // `ValueError` of `export_to_csv`

  datatype Result<T> = Ok(value: T) | Err(failure: Failure)

  // ---------------------------------------------------------------- keep-first dedup

  /** Position `i` holds the first element of `s` with its key. */
  predicate FirstOfKey<T, K(==)>(s: seq<T>, i: int, key: T -> K) {
    0 <= i < |s| && forall j :: 0 <= j < i ==> key(s[j]) != key(s[i])
  }

  /** No two elements of `s` share a key. */
  predicate DistinctKeys<T, K(==)>(s: seq<T>, key: T -> K) {
    forall i, j :: 0 <= i < j < |s| ==> key(s[i]) != key(s[j])
  }

  /** `drop_duplicates(keep="first")` with the keys in `seen` already taken. */
  function KeepFirstFrom<T, K(==)>(s: seq<T>, key: T -> K, seen: set<K>): (r: seq<T>)
    ensures |r| <= |s|
    ensures forall x :: x in r ==> x in s && key(x) !in seen
    ensures DistinctKeys(r, key)
  {
    if s == [] then []
    else if key(s[0]) in seen then KeepFirstFrom(s[1..], key, seen)
    else [s[0]] + KeepFirstFrom(s[1..], key, seen + {key(s[0])})
  }

  /** `drop_duplicates(subset=key, keep="first")` */
  function KeepFirst<T, K(==)>(s: seq<T>, key: T -> K): (r: seq<T>)
    ensures |r| <= |s| && DistinctKeys(r, key)
    ensures forall x :: x in r ==> x in s
  {
    KeepFirstFrom(s, key, {})
  }

  lemma {:induction false} KeepFirstFromSubsequence<T, K>(s: seq<T>, key: T -> K, seen: set<K>)
    ensures IsSubsequence(KeepFirstFrom(s, key, seen), s)
  {
    if s != [] {
      if key(s[0]) in seen {
        KeepFirstFromSubsequence(s[1..], key, seen);
      } else {
        KeepFirstFromSubsequence(s[1..], key, seen + {key(s[0])});
      }
    }
  }

  /** An element survives exactly when it is the first of its key in `s` and
      its key was not already taken. */
  lemma {:induction false} KeepFirstFromMembers<T, K>(s: seq<T>, key: T -> K, seen: set<K>)
    ensures forall x :: x in KeepFirstFrom(s, key, seen) <==>
              key(x) !in seen && exists i :: FirstOfKey(s, i, key) && s[i] == x
  {
    if s != [] {
      var t := s[1..];
      var a := s[0];
      var seen' := if key(a) in seen then seen else seen + {key(a)};
      KeepFirstFromMembers(t, key, seen');
      forall x ensures x in KeepFirstFrom(s, key, seen) <==>
                 key(x) !in seen && exists i :: FirstOfKey(s, i, key) && s[i] == x
      {
        if x in KeepFirstFrom(s, key, seen) {
          if key(a) !in seen && x == a {
            assert FirstOfKey(s, 0, key);
          } else {
            var k :| FirstOfKey(t, k, key) && t[k] == x;
            assert FirstOfKey(s, k + 1, key);
          }
        }
        if key(x) !in seen && exists i :: FirstOfKey(s, i, key) && s[i] == x {
          var i :| FirstOfKey(s, i, key) && s[i] == x;
          if i > 0 {
            assert key(s[0]) != key(x);
            assert FirstOfKey(t, i - 1, key) && t[i - 1] == x;
          }
        }
      }
    }
  }

  /** A list whose keys are all distinct and not yet taken is kept whole. */
  lemma {:induction false} KeepFirstFromIdentity<T, K>(s: seq<T>, key: T -> K, seen: set<K>)
    requires DistinctKeys(s, key)
    requires forall i :: 0 <= i < |s| ==> key(s[i]) !in seen
    ensures KeepFirstFrom(s, key, seen) == s
  {
    if s != [] {
      var t := s[1..];
      forall i | 0 <= i < |t| ensures key(t[i]) !in seen + {key(s[0])} {
        assert t[i] == s[i + 1];
      }
      KeepFirstFromIdentity(t, key, seen + {key(s[0])});
    }
  }

  /** Keep-first dedup keeps an order-preserving subsequence whose members
      are exactly the first occurrence of each key, and so has exactly the
      keys of the input. */
  lemma KeepFirstFacts<T, K>(s: seq<T>, key: T -> K)
    ensures IsSubsequence(KeepFirst(s, key), s)
    ensures forall x :: x in KeepFirst(s, key) <==> exists i :: FirstOfKey(s, i, key) && s[i] == x
    ensures forall i :: 0 <= i < |s| ==> exists x :: x in KeepFirst(s, key) && key(x) == key(s[i])
  {
    KeepFirstFromSubsequence(s, key, {});
    KeepFirstFromMembers(s, key, {});
    forall i | 0 <= i < |s| ensures exists x :: x in KeepFirst(s, key) && key(x) == key(s[i]) {
      FirstIndexExists(s, i, key);
      var f :| FirstOfKey(s, f, key) && key(s[f]) == key(s[i]);
      assert s[f] in KeepFirst(s, key);
    }
  }

  /** Every key of `s` has a first occurrence. */
  lemma {:induction false} FirstIndexExists<T, K>(s: seq<T>, i: int, key: T -> K)
    requires 0 <= i < |s|
    ensures exists f :: FirstOfKey(s, f, key) && key(s[f]) == key(s[i])
    decreases i
  {
    if !FirstOfKey(s, i, key) {
      var j :| 0 <= j < i && key(s[j]) == key(s[i]);
      FirstIndexExists(s, j, key);
    }
  }

  /** A list without repeated keys is kept whole. */
  lemma KeepFirstIdentity<T, K>(s: seq<T>, key: T -> K)
    requires DistinctKeys(s, key)
    ensures KeepFirst(s, key) == s
  {
    KeepFirstFromIdentity(s, key, {});
  }

  // ---------------------------------------------------------------- dedup on write

  /** The `lei` of a row, if it has one. */
  function LeiKey(r: Row<Cell>): Option<Cell> {
    if "lei" in r then Some(r["lei"]) else None
  }

  /** The `(childLei, parentLei)` pair of a row, if it has both. */
  function PairKey(r: Row<Cell>): Option<(Cell, Cell)> {
    if "childLei" in r && "parentLei" in r then Some((r["childLei"], r["parentLei"])) else None
  }

  /** The uniqueness step of `write_legal_entities`: when the batch has an
      `lei` column and some `lei` repeats, keep the first row of each. */
  function DedupEntities(f: Frame<Cell>): (g: Frame<Cell>)
    ensures g.columns == f.columns
    ensures "lei" in f.columns ==> g.rows == KeepFirst(f.rows, LeiKey)
    ensures "lei" !in f.columns ==> g == f
  {
    if "lei" in f.columns && !DistinctKeys(f.rows, LeiKey) then Frame(f.columns, KeepFirst(f.rows, LeiKey))
    else
      if "lei" in f.columns then KeepFirstIdentity(f.rows, LeiKey); f
      else f
  }

  /** The uniqueness step of `write_relationships`, on the pair of LEIs. */
  function DedupRelationships(f: Frame<Cell>): (g: Frame<Cell>)
    ensures g.columns == f.columns
    ensures "childLei" in f.columns && "parentLei" in f.columns ==> g.rows == KeepFirst(f.rows, PairKey)
    ensures !("childLei" in f.columns && "parentLei" in f.columns) ==> g == f
  {
    var both := "childLei" in f.columns && "parentLei" in f.columns;
    if both && !DistinctKeys(f.rows, PairKey) then Frame(f.columns, KeepFirst(f.rows, PairKey))
    else
      if both then KeepFirstIdentity(f.rows, PairKey); f
      else f
  }

  /** A stored entity batch has pairwise distinct `lei`s, is an ordered
      subsequence of the written batch holding the first row of every `lei`,
      and a batch without repeated `lei`s is stored unchanged. */
  lemma DedupEntitiesFacts(f: Frame<Cell>)
    requires WellFormed(f) && "lei" in f.columns
    ensures var g := DedupEntities(f);
      WellFormed(g) && IsSubsequence(g.rows, f.rows) &&
      (forall i, j :: 0 <= i < j < |g.rows| ==> g.rows[i]["lei"] != g.rows[j]["lei"]) &&
      (forall i :: 0 <= i < |f.rows| ==> exists r :: r in g.rows && r["lei"] == f.rows[i]["lei"]) &&
      (DistinctKeys(f.rows, LeiKey) ==> g == f)
  {
    var g := DedupEntities(f);
    KeepFirstFacts(f.rows, LeiKey);
    forall i | 0 <= i < |g.rows| ensures g.rows[i].Keys == ColumnSet(f.columns) && "lei" in g.rows[i] {
      assert g.rows[i] in f.rows;
    }
    forall i, j | 0 <= i < j < |g.rows| ensures g.rows[i]["lei"] != g.rows[j]["lei"] {
      assert LeiKey(g.rows[i]) != LeiKey(g.rows[j]);
    }
    forall i | 0 <= i < |f.rows| ensures exists r :: r in g.rows && r["lei"] == f.rows[i]["lei"] {
      var r :| r in g.rows && LeiKey(r) == LeiKey(f.rows[i]);
      assert "lei" in r;
    }
    if DistinctKeys(f.rows, LeiKey) {
      KeepFirstIdentity(f.rows, LeiKey);
    }
  }

  /** A stored relationship batch has pairwise distinct LEI pairs and holds
      the first row of every pair of the written batch, in order. */
  lemma DedupRelationshipsFacts(f: Frame<Cell>)
    requires WellFormed(f) && "childLei" in f.columns && "parentLei" in f.columns
    ensures var g := DedupRelationships(f);
      WellFormed(g) && IsSubsequence(g.rows, f.rows) &&
      (forall i, j :: 0 <= i < j < |g.rows| ==>
         (g.rows[i]["childLei"], g.rows[i]["parentLei"]) != (g.rows[j]["childLei"], g.rows[j]["parentLei"])) &&
      (DistinctKeys(f.rows, PairKey) ==> g == f)
  {
    var g := DedupRelationships(f);
    KeepFirstFacts(f.rows, PairKey);
    forall i | 0 <= i < |g.rows| ensures g.rows[i].Keys == ColumnSet(f.columns) {
      assert g.rows[i] in f.rows;
    }
    forall i, j | 0 <= i < j < |g.rows|
      ensures (g.rows[i]["childLei"], g.rows[i]["parentLei"]) != (g.rows[j]["childLei"], g.rows[j]["parentLei"])
    {
      assert PairKey(g.rows[i]) != PairKey(g.rows[j]);
    }
    if DistinctKeys(f.rows, PairKey) {
      KeepFirstIdentity(f.rows, PairKey);
    }
  }

  // ---------------------------------------------------------------- versions

  /** `version` or, when it is None, the timestamp `now` supplied by the caller. */
  function VersionOr(version: Option<string>, now: string): (v: string)
    ensures version.Some? ==> v == version.value
    ensures version.None? ==> v == now
  {
    if version.Some? then version.value else now
  }

  /** `output_dir / name` */
  function Join(dir: string, name: string): string {
    dir + "/" + name
  }

  const EntityPrefix: string := "legal_entities_"
  const RelationshipPrefix: string := "relationships_"

  /** The file name of a snapshot. */
  function SnapshotName(prefix: string, version: string): string {
    prefix + version + ".parquet"
  }

  /** `v` is the greatest of `versions` in string order. */
  predicate GreatestVersion(versions: set<string>, v: string) {
    v in versions && forall w :: w in versions && w != v ==> Less(w, v)
  }

  /** As written, "latest" is the version whose file name sorts last among
      the snapshot files. */
  predicate LatestByFileName(versions: set<string>, prefix: string, v: string) {
    v in versions && forall w :: w in versions && w != v ==> Less(SnapshotName(prefix, w), SnapshotName(prefix, v))
  }

  lemma GreatestVersionUnique(versions: set<string>, v: string, w: string)
    requires GreatestVersion(versions, v) && GreatestVersion(versions, w)
    ensures v == w
  {
    if v != w {
      LessAsymmetric(w, v);
    }
  }

  /** Every non-empty set of versions has a greatest one. */
  lemma {:induction false} GreatestVersionExists(versions: set<string>)
    requires versions != {}
    ensures exists v :: GreatestVersion(versions, v)
    decreases |versions|
  {
    var x :| x in versions;
    var rest := versions - {x};
    if rest == {} {
      assert versions == {x};
      assert GreatestVersion(versions, x);
    } else {
      GreatestVersionExists(rest);
      var m :| GreatestVersion(rest, m);
      LessTotal(m, x);
      if Less(m, x) {
        forall w | w in versions && w != x ensures Less(w, x) {
          if w != m {
            LessTransitive(w, m, x);
          }
        }
        assert GreatestVersion(versions, x);
      } else {
        assert GreatestVersion(versions, m);
      }
    }
  }

  /** The latest version: the greatest in string order. */
  ghost function Latest(versions: set<string>): (v: string)
    requires versions != {}
    ensures GreatestVersion(versions, v)
  {
    GreatestVersionExists(versions);
    var v :| GreatestVersion(versions, v);
    v
  }

  /** A version `a` and a longer version `a + t` whose extra part starts
      with a character below '.': the file of `a` sorts last, while `a + t`
      is the greater version. */
  lemma {:induction false} ExtensionSortsFirst(prefix: string, a: string, t: string)
    requires t != [] && t[0] < '.'
    ensures LatestByFileName({a, a + t}, prefix, a)
    ensures GreatestVersion({a, a + t}, a + t)
  {
    var ext := ".parquet";
    assert SnapshotName(prefix, a + t) == (prefix + a) + (t + ext);
    assert SnapshotName(prefix, a) == (prefix + a) + ext;
    LessCommonPrefix(prefix + a, t + ext, ext);
    assert (t + ext)[0] == t[0];
    LessCommonPrefix(a, [], t);
    assert a + [] == a;
  }

  /** The two notions of "latest" disagree on the versions "2024-01" and
      "2024-01-15": '-' sorts before '.', so the file of "2024-01" sorts last,
      while "2024-01-15" is the greater version. */
  lemma LatestFileDisagreement()
    ensures LatestByFileName({"2024-01", "2024-01-15"}, EntityPrefix, "2024-01")
    ensures GreatestVersion({"2024-01", "2024-01-15"}, "2024-01-15")
  {
    assert "2024-01" + "-15" == "2024-01-15";
    ExtensionSortsFirst(EntityPrefix, "2024-01", "-15");
  }

  /** When no stored version is a prefix of another (as with the default
      timestamps, which all have the same length), the file-name order and
      the version order pick the same snapshot. */
  lemma LatestAgreement(versions: set<string>, prefix: string, v: string)
    requires forall a, b :: a in versions && b in versions && a != b ==> !(a <= b)
    ensures LatestByFileName(versions, prefix, v) <==> GreatestVersion(versions, v)
  {
    forall w | w in versions && v in versions && w != v
      ensures Less(SnapshotName(prefix, w), SnapshotName(prefix, v)) <==> Less(w, v)
    {
      assert SnapshotName(prefix, w) == prefix + (w + ".parquet");
      assert SnapshotName(prefix, v) == prefix + (v + ".parquet");
      LessCommonPrefix(prefix, w + ".parquet", v + ".parquet");
      LessIgnoresSuffix(w, v, ".parquet", ".parquet");
    }
  }

  /** A list of distinct versions in ascending order. */
  predicate StrictlySorted(s: seq<string>) {
    forall i, j :: 0 <= i < j < |s| ==> Less(s[i], s[j])
  }

  /** `x` inserted into the ascending list `s`. */
  function Insert(s: seq<string>, x: string): (r: seq<string>)
    requires StrictlySorted(s) && x !in s
    ensures StrictlySorted(r)
    ensures |r| == |s| + 1
    ensures forall y :: y in r <==> y in s || y == x
  {
    if s == [] then [x]
    else if Less(x, s[0]) then
      forall j | 0 < j < |s| ensures Less(x, s[j]) {
        LessTransitive(x, s[0], s[j]);
      }
      [x] + s
    else
      LessTotal(x, s[0]);
      var rest := Insert(s[1..], x);
      forall k | 0 <= k < |rest| ensures Less(s[0], rest[k]) {
        var y := rest[k];
        assert y in rest;
        if y != x {
          assert y in s[1..];
          var j :| 1 <= j < |s| && s[j] == y;
        }
      }
      [s[0]] + rest
  }

  /** The last of an ascending list of versions is the latest. */
  lemma LastIsLatest(s: seq<string>)
    requires StrictlySorted(s) && s != []
    ensures GreatestVersion((set v | v in s), s[|s| - 1])
  {
    forall w | w in s && w != s[|s| - 1] ensures Less(w, s[|s| - 1]) {
      var i :| 0 <= i < |s| && s[i] == w;
    }
  }

  /** `sorted(...)` of a set of versions. */
  method SortedVersions(versions: set<string>) returns (s: seq<string>)
    ensures StrictlySorted(s)
    ensures forall v :: v in s <==> v in versions
    ensures |s| == |versions|
  {
    s := [];
    var rest := versions;
    while rest != {}
      invariant rest <= versions
      invariant StrictlySorted(s)
      invariant forall v :: v in s <==> v in versions && v !in rest
      invariant |s| + |rest| == |versions|
      decreases |rest|
    {
      var x :| x in rest;
      s := Insert(s, x);
      rest := rest - {x};
    }
  }

  /** `files[-1]` of the sorted snapshot files, as a pass over the versions. */
  method GreatestOf(versions: set<string>) returns (v: string)
    requires versions != {}
    ensures GreatestVersion(versions, v)
  {
    v :| v in versions;
    var rest := versions - {v};
    while rest != {}
      invariant rest <= versions && v in versions && v !in rest
      invariant forall w :: w in versions && w !in rest && w != v ==> Less(w, v)
      decreases |rest|
    {
      var x :| x in rest;
      LessTotal(x, v);
      if Less(v, x) {
        forall w | w in versions && w !in rest && w != x ensures Less(w, x) {
          if w != v {
            LessTransitive(w, v, x);
          }
        }
        v := x;
      }
      rest := rest - {x};
    }
  }

  /** `read_*` as a function of the stored snapshots: "latest" resolves to the
      greatest stored version (or fails when there is none); any other version
      is read from its own file, which must exist. */
  ghost function ReadSnapshot(store: map<string, Frame<Cell>>, dir: string, prefix: string, dataType: string,
                              version: string): Result<Frame<Cell>>
  {
    if version == "latest" then
      if store == map[] then Err(NoSnapshots(dataType)) else Ok(store[Latest(store.Keys)])
    else if version in store then Ok(store[version])
    else Err(FileNotFound(Join(dir, SnapshotName(prefix, version))))
  }

  // ---------------------------------------------------------------- the store

  /** `ParquetPersistence` over its output directory. */
  class SnapshotStore {
    const outputDir: string
    var legalEntities: map<string, Frame<Cell>>
    var relationships: map<string, Frame<Cell>>
    var qualityReports: map<string, Summary>
    var csvExports: map<string, Frame<Cell>>

    constructor (outputDir: string)
      ensures this.outputDir == outputDir
      ensures legalEntities == map[] && relationships == map[] && qualityReports == map[] && csvExports == map[]
    {
      this.outputDir := outputDir;
      legalEntities, relationships := map[], map[];
      qualityReports, csvExports := map[], map[];
    }

    /** `write_legal_entities`: stores the deduplicated batch under its
        version, replacing any earlier batch of that version. */
    method WriteLegalEntities(df: Frame<Cell>, version: Option<string>, now: string) returns (path: string)
      modifies this`legalEntities
      ensures legalEntities == old(legalEntities)[VersionOr(version, now) := DedupEntities(df)]
      ensures path == Join(outputDir, SnapshotName(EntityPrefix, VersionOr(version, now)))
    {
      var v := VersionOr(version, now);
      path := Join(outputDir, SnapshotName(EntityPrefix, v));
      legalEntities := legalEntities[v := DedupEntities(df)];
    }

    /** `write_relationships` */
    method WriteRelationships(df: Frame<Cell>, version: Option<string>, now: string) returns (path: string)
      modifies this`relationships
      ensures relationships == old(relationships)[VersionOr(version, now) := DedupRelationships(df)]
      ensures path == Join(outputDir, SnapshotName(RelationshipPrefix, VersionOr(version, now)))
    {
      var v := VersionOr(version, now);
      path := Join(outputDir, SnapshotName(RelationshipPrefix, v));
      relationships := relationships[v := DedupRelationships(df)];
    }

    /** `write_quality_report`: the report type does not affect the file. */
    method WriteQualityReport(report: Summary, reportType: string, version: Option<string>, now: string)
      returns (path: string)
      modifies this`qualityReports
      ensures qualityReports == old(qualityReports)[VersionOr(version, now) := report]
      ensures path == Join(outputDir, "quality_report_" + VersionOr(version, now) + ".json")
    {
      var v := VersionOr(version, now);
      path := Join(outputDir, "quality_report_" + v + ".json");
      qualityReports := qualityReports[v := report];
    }

    /** `read_*` of one kind of snapshot. */
    method Read(store: map<string, Frame<Cell>>, prefix: string, dataType: string, version: string)
      returns (r: Result<Frame<Cell>>)
      ensures r == ReadSnapshot(store, outputDir, prefix, dataType, version)
    {
      if version == "latest" {
        if store == map[] {
          return Err(NoSnapshots(dataType));
        }
        var v := GreatestOf(store.Keys);
        GreatestVersionUnique(store.Keys, v, Latest(store.Keys));
        r := Ok(store[v]);
      } else if version in store {
        r := Ok(store[version]);
      } else {
        r := Err(FileNotFound(Join(outputDir, SnapshotName(prefix, version))));
      }
    }

    /** `read_legal_entities` */
    method ReadLegalEntities(version: string) returns (r: Result<Frame<Cell>>)
      ensures r == ReadSnapshot(legalEntities, outputDir, EntityPrefix, "legal entities", version)
    {
      r := Read(legalEntities, EntityPrefix, "legal entities", version);
    }

    /** `read_relationships` */
    method ReadRelationships(version: string) returns (r: Result<Frame<Cell>>)
      ensures r == ReadSnapshot(relationships, outputDir, RelationshipPrefix, "relationships", version)
    {
      r := Read(relationships, RelationshipPrefix, "relationships", version);
    }

    /** `list_versions`: the stored versions of each kind, ascending. */
    method ListVersions() returns (entities: seq<string>, rels: seq<string>)
      ensures StrictlySorted(entities) && forall v :: v in entities <==> v in legalEntities
      ensures StrictlySorted(rels) && forall v :: v in rels <==> v in relationships
    {
      entities := SortedVersions(legalEntities.Keys);
      rels := SortedVersions(relationships.Keys);
    }

    /** `export_to_csv`: reads the requested snapshot and writes it to the
        given path, or to `<data_type>_<version>.csv` in the output directory. */
    method ExportToCsv(dataType: string, version: string, outputPath: Option<string>) returns (r: Result<string>)
      modifies this`csvExports
      ensures dataType != "legal_entities" && dataType != "relationships" ==>
                r == Err(UnknownDataType(dataType)) && csvExports == old(csvExports)
      ensures dataType == "legal_entities" || dataType == "relationships" ==>
                var read := if dataType == "legal_entities"
                  then ReadSnapshot(legalEntities, outputDir, EntityPrefix, "legal entities", version)
                  else ReadSnapshot(relationships, outputDir, RelationshipPrefix, "relationships", version);
                var path := if outputPath.Some? then outputPath.value else Join(outputDir, dataType + "_" + version + ".csv");
                (read.Err? ==> r == Err(read.failure) && csvExports == old(csvExports)) &&
                (read.Ok? ==> r == Ok(path) && csvExports == old(csvExports)[path := read.value])
    {
      var read: Result<Frame<Cell>>;
      if dataType == "legal_entities" {
        read := ReadLegalEntities(version);
      } else if dataType == "relationships" {
        read := ReadRelationships(version);
      } else {
        return Err(UnknownDataType(dataType));
      }
      if read.Err? {
        return Err(read.failure);
      }
      var path := if outputPath.Some? then outputPath.value else Join(outputDir, dataType + "_" + version + ".csv");
      csvExports := csvExports[path := read.value];
      r := Ok(path);
    }
  }

  // ---------------------------------------------------------------- store properties

  /** Reading a version back after writing it returns the deduplicated batch;
      reading any other explicit version sees what it saw before. */
  lemma ReadAfterWrite(store: map<string, Frame<Cell>>, dir: string, prefix: string, dataType: string,
                       v: string, batch: Frame<Cell>, other: string)
    requires v != "latest" && other != "latest" && other != v
    ensures ReadSnapshot(store[v := batch], dir, prefix, dataType, v) == Ok(batch)
    ensures ReadSnapshot(store[v := batch], dir, prefix, dataType, other) == ReadSnapshot(store, dir, prefix, dataType, other)
  {
  }

  /** "latest" fails exactly when nothing is stored, and otherwise returns
      the snapshot of the greatest stored version, which is the last entry of
      `list_versions`. */
  lemma LatestIsLastListed(store: map<string, Frame<Cell>>, dir: string, prefix: string, dataType: string,
                           listed: seq<string>)
    requires StrictlySorted(listed) && forall v :: v in listed <==> v in store
    ensures ReadSnapshot(store, dir, prefix, dataType, "latest").Err? <==> listed == []
    ensures listed != [] ==> ReadSnapshot(store, dir, prefix, dataType, "latest") == Ok(store[listed[|listed| - 1]])
  {
    if listed != [] {
      LastIsLatest(listed);
      assert (set v | v in listed) == store.Keys;
      GreatestVersionUnique(store.Keys, listed[|listed| - 1], Latest(store.Keys));
    } else {
      assert store.Keys == {};
    }
  }
}
