/**
  Reading the GLEIF source files: picking the key columns of a loaded Level 1
  or Level 2 batch by priority-ordered candidate names, flattening XML records
  into name/text maps, and the left join of entities with their parent
  relationships. Cells are `Option<string>`: the loaders read every column as
  text, and `None` is a missing value.
 */
module Processors {
  import opened Tables
  import opened Text

  // ---------------------------------------------------------------- candidate columns

  /** `first_existing` as a function: the earliest candidate that is a column. */
  function FirstIn(candidates: seq<string>, columns: seq<string>): (c: Option<string>)
    ensures c.None? <==> forall k :: 0 <= k < |candidates| ==> candidates[k] !in columns
    ensures c.Some? ==> exists k :: 0 <= k < |candidates| && candidates[k] == c.value && c.value in columns &&
                          forall j :: 0 <= j < k ==> candidates[j] !in columns
  {
    if candidates == [] then None
    else if candidates[0] in columns then Some(candidates[0])
    else
      var c := FirstIn(candidates[1..], columns);
      assert c.Some? ==> exists k :: 0 < k < |candidates| && candidates[k] == c.value && c.value in columns &&
                           forall j :: 0 <= j < k ==> candidates[j] !in columns by {
        if c.Some? {
          var k :| 0 <= k < |candidates[1..]| && candidates[1..][k] == c.value && c.value in columns &&
                   forall j :: 0 <= j < k ==> candidates[1..][j] !in columns;
          assert candidates[k + 1] == c.value;
          forall j | 0 <= j < k + 1 ensures candidates[j] !in columns {
            if j > 0 {
              assert candidates[j] == candidates[1..][j - 1];
            }
          }
        }
      }
      assert c.None? ==> forall k :: 0 <= k < |candidates| ==> candidates[k] !in columns by {
        if c.None? {
          forall k | 0 < k < |candidates| ensures candidates[k] !in columns {
            assert candidates[k] == candidates[1..][k - 1];
          }
        }
      }
      c
  }

  /** `first_existing` */
  method FirstExisting(candidates: seq<string>, columns: seq<string>) returns (c: Option<string>)
    ensures c == FirstIn(candidates, columns)
  {
    for k := 0 to |candidates|
      invariant FirstIn(candidates[k..], columns) == FirstIn(candidates, columns)
    {
      if candidates[k] in columns {
        return Some(candidates[k]);
      }
      assert candidates[k..][1..] == candidates[k + 1..];
    }
    return None;
  }

  // ---------------------------------------------------------------- select and rename

  /** `(source, target)` pairs: the columns kept, in order, and their new names. */
  type Renaming = seq<(string, string)>

  function Targets(m: Renaming): (t: seq<string>)
    ensures |t| == |m| && forall k :: 0 <= k < |m| ==> t[k] == m[k].1
  {
    seq(|m|, k requires 0 <= k < |m| => m[k].1)
  }

  /** Every source column of `m` is a column of `df`. */
  predicate SourcesPresent(df: RawFrame, m: Renaming) {
    forall k :: 0 <= k < |m| ==> m[k].0 in df.columns
  }

  /** One row of `df[keep].rename(columns=rename_map)`. */
  function RenameRow(r: Row<Option<string>>, m: Renaming): (out: Row<Option<string>>)
    requires forall k :: 0 <= k < |m| ==> m[k].0 in r
    ensures out.Keys == ColumnSet(Targets(m))
    ensures Distinct(Targets(m)) ==> forall k :: 0 <= k < |m| ==> out[m[k].1] == r[m[k].0]
  {
    if m == [] then map[]
    else
      var init := m[..|m| - 1];
      var last := m[|m| - 1];
      assert Targets(m) == Targets(init) + [last.1];
      assert Distinct(Targets(m)) ==> Distinct(Targets(init)) by {
        if Distinct(Targets(m)) {
          forall i, j | 0 <= i < j < |init| ensures Targets(init)[i] != Targets(init)[j] {
            assert Targets(m)[i] != Targets(m)[j];
          }
        }
      }
      RenameRow(r, init)[last.1 := r[last.0]]
  }

  /** `df[keep].rename(columns=rename_map)`: the kept columns, in order, under
      their new names, with every row's values carried over. */
  function SelectRename(df: RawFrame, m: Renaming): (g: RawFrame)
    requires WellFormed(df) && SourcesPresent(df, m)
    ensures g.columns == Targets(m) && |g.rows| == |df.rows|
    ensures Distinct(Targets(m)) ==> WellFormed(g)
    ensures Distinct(Targets(m)) ==>
              forall i, k :: 0 <= i < |df.rows| && 0 <= k < |m| ==> g.rows[i][m[k].1] == df.rows[i][m[k].0]
  {
    Frame(Targets(m), seq(|df.rows|, i requires 0 <= i < |df.rows| => RenameRow(df.rows[i], m)))
  }

  /** The pair `(c, target)` when the column `c` was found. */
  function Found(c: Option<string>, target: string): Renaming {
    if c.Some? then [(c.value, target)] else []
  }

  // ---------------------------------------------------------------- Level 1 loader

  const LeiCandidates: seq<string> := ["LEI", "lei", "LegalEntityIdentifier"]
  const NameCandidates: seq<string> := ["LegalName", "EntityLegalName", "Entity.LegalName", "Entity_LegalName"]
  const StatusCandidates: seq<string> := ["EntityStatus", "Entity.EntityStatus", "Entity_Status"]

  datatype Failure = NoLeiColumn(columns: seq<string>)  // the `RuntimeError` of the Level 1 loader

  datatype Result<T> = Ok(value: T) | Err(failure: Failure)

  /** The columns kept by `load_and_normalize_lei_data` and their new names,
      given the three columns it found. */
  function LeiRenaming(lei: string, name: Option<string>, status: Option<string>): Renaming {
    [(lei, "lei")] + Found(name, "legal_name") + Found(status, "entity_status")
  }

  /** The selection and renaming of `load_and_normalize_lei_data`, over the
      loaded batch: fails when no LEI column is found, and otherwise keeps the
      LEI column as `lei` and, when found, the name and status columns as
      `legal_name` and `entity_status`. */
  method LoadLeiData(df: RawFrame) returns (r: Result<RawFrame>)
    requires WellFormed(df)
    ensures r.Err? <==> FirstIn(LeiCandidates, df.columns).None?
    ensures r.Err? ==> r.failure == NoLeiColumn(df.columns)
    ensures r.Ok? ==>
              var m := LeiRenaming(FirstIn(LeiCandidates, df.columns).value, FirstIn(NameCandidates, df.columns),
                                   FirstIn(StatusCandidates, df.columns));
              SourcesPresent(df, m) && r.value == SelectRename(df, m)
  {
    var leiCol := FirstExisting(LeiCandidates, df.columns);
    var nameCol := FirstExisting(NameCandidates, df.columns);
    var statusCol := FirstExisting(StatusCandidates, df.columns);
    if leiCol.None? {
      return Err(NoLeiColumn(df.columns));
    }
    var renaming := [(leiCol.value, "lei")];
    if nameCol.Some? {
      renaming := renaming + [(nameCol.value, "legal_name")];
    }
    if statusCol.Some? {
      renaming := renaming + [(statusCol.value, "entity_status")];
    }
    assert renaming == LeiRenaming(leiCol.value, nameCol, statusCol);
    LeiRenamingShape(df, leiCol.value, nameCol, statusCol);
    r := Ok(SelectRename(df, renaming));
  }

  /** The Level 1 renaming keeps the LEI column as `lei`, then the name and
      status columns found as `legal_name` and `entity_status`, under distinct
      names; so by `SelectRename` the output is well formed, keeps every row
      and carries each kept column's values. */
  lemma LeiRenamingShape(df: RawFrame, lei: string, name: Option<string>, status: Option<string>)
    requires lei in df.columns
    requires name.Some? ==> name.value in df.columns
    requires status.Some? ==> status.value in df.columns
    ensures var m := LeiRenaming(lei, name, status);
      SourcesPresent(df, m) && Distinct(Targets(m)) && m[0] == (lei, "lei") &&
      Targets(m) == ["lei"] + (if name.Some? then ["legal_name"] else []) +
                   (if status.Some? then ["entity_status"] else []) &&
      (name.Some? ==> m[1] == (name.value, "legal_name")) &&
      (status.Some? ==> m[|m| - 1] == (status.value, "entity_status"))
  {
    var m := LeiRenaming(lei, name, status);
    assert Targets(m) == ["lei"] + (if name.Some? then ["legal_name"] else []) +
                         (if status.Some? then ["entity_status"] else []);
  }

  // ---------------------------------------------------------------- Level 2 loader

  const StartCandidates: seq<string> := ["StartNodeID", "StartNode.NodeID", "StartNodeNodeID", "StartNode_ID"]
  const EndCandidates: seq<string> := ["EndNodeID", "EndNode.NodeID", "EndNodeNodeID", "EndNode_ID"]
  const TypeCandidates: seq<string> := ["RelationshipType", "Relationship.RelationshipType", "Relationship_Type"]
  const RelStatusCandidates: seq<string> :=
    ["RelationshipStatus", "RegistrationStatus", "Registration.RegistrationStatus", "Registration_Status"]

  /** The columns of the empty batch returned when the node columns are not found. */
  const RelationshipColumns: seq<string> := ["child_lei", "parent_lei", "relationship_type", "relationship_status"]

  /** The columns kept by `load_and_normalize_rr_data` and their new names. */
  function RrRenaming(start: string, end: string, relType: Option<string>, relStatus: Option<string>): Renaming {
    [(start, "child_lei"), (end, "parent_lei")] + Found(relType, "relationship_type") +
      Found(relStatus, "relationship_status")
  }

  /** The selection and renaming of `load_and_normalize_rr_data`: without a
      start-node or an end-node column the batch is empty, with the four
      standard columns; otherwise the start node becomes `child_lei`, the end
      node `parent_lei`, and the type and status columns are kept when found. */
  method LoadRrData(df: RawFrame) returns (g: RawFrame)
    requires WellFormed(df)
    ensures var start := FirstIn(StartCandidates, df.columns);
      var end := FirstIn(EndCandidates, df.columns);
      (start.None? || end.None? ==> g == Frame(RelationshipColumns, [])) &&
      (start.Some? && end.Some? ==>
         var m := RrRenaming(start.value, end.value, FirstIn(TypeCandidates, df.columns),
                             FirstIn(RelStatusCandidates, df.columns));
         SourcesPresent(df, m) && g == SelectRename(df, m))
  {
    var startCol := FirstExisting(StartCandidates, df.columns);
    var endCol := FirstExisting(EndCandidates, df.columns);
    var typeCol := FirstExisting(TypeCandidates, df.columns);
    var statusCol := FirstExisting(RelStatusCandidates, df.columns);
    if startCol.None? || endCol.None? {
      return Frame(RelationshipColumns, []);
    }
    var renaming := [(startCol.value, "child_lei"), (endCol.value, "parent_lei")];
    if typeCol.Some? {
      renaming := renaming + [(typeCol.value, "relationship_type")];
    }
    if statusCol.Some? {
      renaming := renaming + [(statusCol.value, "relationship_status")];
    }
    assert renaming == RrRenaming(startCol.value, endCol.value, typeCol, statusCol);
    RrRenamingShape(df, startCol.value, endCol.value, typeCol, statusCol);
    g := SelectRename(df, renaming);
  }

  /** The Level 2 renaming carries the start node as `child_lei` and the end
      node as `parent_lei`, then the type and status columns found, under
      distinct names; so by `SelectRename` the output is well formed, keeps
      every row and carries each kept column's values. */
  lemma RrRenamingShape(df: RawFrame, start: string, end: string, relType: Option<string>, relStatus: Option<string>)
    requires start in df.columns && end in df.columns
    requires relType.Some? ==> relType.value in df.columns
    requires relStatus.Some? ==> relStatus.value in df.columns
    ensures var m := RrRenaming(start, end, relType, relStatus);
      SourcesPresent(df, m) && Distinct(Targets(m)) &&
      m[0] == (start, "child_lei") && m[1] == (end, "parent_lei") &&
      Targets(m) == ["child_lei", "parent_lei"] + (if relType.Some? then ["relationship_type"] else []) +
                    (if relStatus.Some? then ["relationship_status"] else [])
  {
    var m := RrRenaming(start, end, relType, relStatus);
    assert Targets(m) == ["child_lei", "parent_lei"] + (if relType.Some? then ["relationship_type"] else []) +
                         (if relStatus.Some? then ["relationship_status"] else []);
  }

  /** The empty fallback batch is well formed. */
  lemma EmptyFallbackWellFormed()
    ensures WellFormed<Option<string>>(Frame(RelationshipColumns, []))
  {
  }

  // ---------------------------------------------------------------- XML records

  /** One element as `elem.iter()` yields it: its tag and its text, if any. */
  datatype Node = Node(tag: string, text: Option<string>)

  /** An element at its end event: its tag, and the nodes `elem.iter()` yields
      for it (the element itself, then its descendants in document order). */
  datatype Element = Element(tag: string, nodes: seq<Node>)

  type Record = map<string, string>

  /** The local name of a tag: what follows the last '}', or the whole tag. */
  function LocalName(tag: string): string {
    if tag == [] || tag[|tag| - 1] == '}' then [] else LocalName(tag[..|tag| - 1]) + [tag[|tag| - 1]]
  }

  /** The local name is the longest suffix of the tag without a '}': it is
      the part after the last '}', or the whole tag when there is none. */
  lemma {:induction false} LocalNameSuffix(tag: string)
    ensures var r := LocalName(tag);
      |r| <= |tag| && r == tag[|tag| - |r|..] && '}' !in r &&
      (|r| < |tag| ==> tag[|tag| - |r| - 1] == '}') &&
      ('}' !in tag ==> r == tag)
  {
    if tag != [] && tag[|tag| - 1] != '}' {
      var init := tag[..|tag| - 1];
      LocalNameSuffix(init);
      var r := LocalName(tag);
      assert init[|init| - (|r| - 1)..] + [tag[|tag| - 1]] == tag[|tag| - |r|..];
      if |r| < |tag| {
        assert tag[|tag| - |r| - 1] == init[|init| - (|r| - 1) - 1];
      }
    }
  }

  /** The node has a text that is not blank. */
  predicate HasText(n: Node) {
    n.text.Some? && Strip(n.text.value) != []
  }

  /** Non-blank text without surrounding whitespace. */
  predicate Clean(s: string) {
    s != [] && !IsSpace(s[0]) && !IsSpace(s[|s| - 1])
  }

  /** The record of one element: every local name with the stripped text of
      its last node with a non-blank text. */
  function RecordOf(nodes: seq<Node>): Record {
    if nodes == [] then map[]
    else
      var last := nodes[|nodes| - 1];
      var rec := RecordOf(nodes[..|nodes| - 1]);
      if HasText(last) then rec[LocalName(last.tag) := Strip(last.text.value)] else rec
  }

  /** Every value of a record is non-blank text without surrounding whitespace. */
  lemma {:induction false} RecordOfClean(nodes: seq<Node>)
    ensures forall k :: k in RecordOf(nodes) ==> Clean(RecordOf(nodes)[k])
  {
    if nodes != [] {
      RecordOfClean(nodes[..|nodes| - 1]);
      var last := nodes[|nodes| - 1];
      if HasText(last) {
        assert Clean(Strip(last.text.value));
      }
    }
  }

  /** An element yields no record exactly when none of its nodes has a
      non-blank text, as for a container whose records were all cleared
      before its own end event (`RecordsStep` then adds nothing). */
  lemma {:induction false} RecordOfEmpty(nodes: seq<Node>)
    ensures RecordOf(nodes) == map[] <==> forall k :: 0 <= k < |nodes| ==> !HasText(nodes[k])
  {
    if nodes != [] {
      var init := nodes[..|nodes| - 1];
      var last := nodes[|nodes| - 1];
      RecordOfEmpty(init);
      assert forall k :: 0 <= k < |init| ==> init[k] == nodes[k];
      if HasText(last) {
        assert LocalName(last.tag) in RecordOf(nodes);
      }
    }
  }

  /** Node `i` has a non-blank text and the local name `k`. */
  predicate Names(nodes: seq<Node>, i: int, k: string) {
    0 <= i < |nodes| && HasText(nodes[i]) && LocalName(nodes[i].tag) == k
  }

  /** Node `i` is the last node with a non-blank text and the local name `k`. */
  predicate LastNames(nodes: seq<Node>, i: int, k: string) {
    Names(nodes, i, k) && forall j :: i < j < |nodes| ==> !Names(nodes, j, k)
  }

  /** A record holds exactly the local names of the nodes with a non-blank text. */
  lemma {:induction false} RecordOfKeys(nodes: seq<Node>)
    ensures forall k :: k in RecordOf(nodes) <==> exists i :: Names(nodes, i, k)
  {
    if nodes != [] {
      var init := nodes[..|nodes| - 1];
      var last := |nodes| - 1;
      RecordOfKeys(init);
      forall k | k in RecordOf(nodes) ensures exists i :: Names(nodes, i, k) {
        RecordOfKeyFrom(nodes, k);
      }
      forall k | exists i :: Names(nodes, i, k) ensures k in RecordOf(nodes) {
        var i :| Names(nodes, i, k);
        if i < last {
          assert Names(init, i, k);
        }
        RecordOfKeyTo(nodes, i, k);
      }
    }
  }

  /** The other step of `RecordOfKeys`: a named node puts its name in the record. */
  lemma RecordOfKeyTo(nodes: seq<Node>, i: int, k: string)
    requires Names(nodes, i, k)
    requires i < |nodes| - 1 ==> k in RecordOf(nodes[..|nodes| - 1])
    ensures k in RecordOf(nodes)
  {
  }

  /** One step of `RecordOfKeys`: a key of the record comes from a node. */
  lemma RecordOfKeyFrom(nodes: seq<Node>, k: string)
    requires nodes != [] && k in RecordOf(nodes)
    requires var init := nodes[..|nodes| - 1]; forall x :: x in RecordOf(init) ==> exists i :: Names(init, i, x)
    ensures exists i :: Names(nodes, i, k)
  {
    var init := nodes[..|nodes| - 1];
    if k in RecordOf(init) {
      var i :| Names(init, i, k);
      assert Names(nodes, i, k);
    } else {
      assert Names(nodes, |nodes| - 1, k);
    }
  }

  /** Each name of a record holds the stripped text of its last node. */
  lemma {:induction false} RecordOfValues(nodes: seq<Node>, i: int, k: string)
    requires LastNames(nodes, i, k)
    ensures k in RecordOf(nodes) && RecordOf(nodes)[k] == Strip(nodes[i].text.value)
  {
    var init := nodes[..|nodes| - 1];
    if i < |init| {
      assert !Names(nodes, |nodes| - 1, k);
      forall j | i < j < |init| ensures !Names(init, j, k) {
        assert !Names(nodes, j, k);
      }
      RecordOfValues(init, i, k);
    }
  }

  /** The inner loop of `parse_xml_records`: one element's record. */
  method BuildRecord(nodes: seq<Node>) returns (rec: Record)
    ensures rec == RecordOf(nodes)
  {
    rec := map[];
    for k := 0 to |nodes|
      invariant rec == RecordOf(nodes[..k])
    {
      assert nodes[..k + 1][..k] == nodes[..k];
      var child := nodes[k];
      var tag := LocalName(child.tag);
      if child.text.Some? && Strip(child.text.value) != [] {
        rec := rec[tag := Strip(child.text.value)];
      }
    }
    assert nodes[..|nodes|] == nodes;
  }

  /** The tag test of `parse_xml_records`, as written: a substring or a suffix. */
  predicate IsRecordTag(tag: string, recordTag: string) {
    Contains(tag, recordTag) || EndsWith(tag, recordTag)
  }

  /** The suffix test adds nothing: an element is a record exactly when the
      record tag occurs in its tag. */
  lemma IsRecordTagIsSubstring(tag: string, recordTag: string)
    ensures IsRecordTag(tag, recordTag) <==> Contains(tag, recordTag)
  {
    if EndsWith(tag, recordTag) {
      EndsWithContains(tag, recordTag);
    }
  }

  /** The elements whose tag matches, in document order. */
  function Matched(es: seq<Element>, recordTag: string): (m: seq<Element>)
    ensures |m| <= |es|
  {
    if es == [] then []
    else
      var last := es[|es| - 1];
      Matched(es[..|es| - 1], recordTag) + (if IsRecordTag(last.tag, recordTag) then [last] else [])
  }

  /** Only elements with a matching tag are processed. */
  lemma {:induction false} MatchedOrigin(es: seq<Element>, recordTag: string)
    ensures forall e :: e in Matched(es, recordTag) ==> e in es && IsRecordTag(e.tag, recordTag)
  {
    if es != [] {
      MatchedOrigin(es[..|es| - 1], recordTag);
    }
  }

  lemma MatchedStep(es: seq<Element>, recordTag: string, i: nat)
    requires i < |es|
    ensures Matched(es[..i + 1], recordTag) ==
              Matched(es[..i], recordTag) + (if IsRecordTag(es[i].tag, recordTag) then [es[i]] else [])
  {
    assert es[..i + 1][..i] == es[..i];
  }

  /** The matches among the first `i` elements begin the matches of all. */
  lemma {:induction false} MatchedPrefix(es: seq<Element>, recordTag: string, i: nat)
    requires i <= |es|
    ensures Matched(es[..i], recordTag) <= Matched(es, recordTag)
    decreases |es| - i
  {
    if i < |es| {
      MatchedPrefix(es[..|es| - 1], recordTag, i);
      assert es[..|es| - 1][..i] == es[..i];
    } else {
      assert es[..i] == es;
    }
  }

  /** The non-empty records of the elements, in order. */
  function Records(es: seq<Element>): (rs: seq<Record>)
    ensures |rs| <= |es|
    ensures forall r :: r in rs ==> r != map[]
  {
    if es == [] then []
    else
      var rec := RecordOf(es[|es| - 1].nodes);
      Records(es[..|es| - 1]) + (if rec != map[] then [rec] else [])
  }

  lemma RecordsStep(es: seq<Element>, e: Element)
    ensures Records(es + [e]) == Records(es) + (if RecordOf(e.nodes) != map[] then [RecordOf(e.nodes)] else [])
  {
    assert (es + [e])[..|es|] == es;
  }

  /** Every record comes from one of the elements. */
  lemma {:induction false} RecordsOrigin(es: seq<Element>)
    ensures forall r :: r in Records(es) ==> exists e :: e in es && r == RecordOf(e.nodes)
  {
    if es != [] {
      var init := es[..|es| - 1];
      RecordsOrigin(init);
      forall r | r in Records(es) ensures exists e :: e in es && r == RecordOf(e.nodes) {
        if r in Records(init) {
          var e :| e in init && r == RecordOf(e.nodes);
          assert e in es;
        } else {
          assert r == RecordOf(es[|es| - 1].nodes);
        }
      }
    }
  }

  /** The number of matched elements processed under the `nrows` cap: all of
      them when `nrows` is missing or 0, none when it is negative, and at most
      `nrows` otherwise. */
  function Processed(nrows: Option<int>, matched: nat): (n: nat)
    ensures n <= matched
    ensures nrows.None? || nrows.value == 0 ==> n == matched
    ensures nrows.Some? && nrows.value > 0 ==> n == if nrows.value < matched then nrows.value else matched
    ensures nrows.Some? && nrows.value < 0 ==> n == 0
  {
    if nrows.None? || nrows.value == 0 then matched
    else if nrows.value < 0 then 0
    else if nrows.value < matched then nrows.value
    else matched
  }

  /** What `parse_xml_records` yields: the non-empty records of the first
      `Processed` matched elements. */
  function ParseRecords(es: seq<Element>, recordTag: string, nrows: Option<int>): seq<Record> {
    var m := Matched(es, recordTag);
    Records(m[..Processed(nrows, |m|)])
  }

  /** The bound the loop of `parse_xml_records` keeps its count under. */
  function Cap(nrows: Option<int>): int
    requires nrows.Some?
  {
    if nrows.value < 0 then 0 else nrows.value
  }

  /** Where the loop stops, the matches seen so far are the processed ones. */
  lemma ParseRecordsAt(es: seq<Element>, recordTag: string, nrows: Option<int>, i: nat)
    requires i <= |es|
    requires i == |es| || (nrows.Some? && nrows.value != 0 && |Matched(es[..i], recordTag)| >= nrows.value)
    requires nrows.Some? && nrows.value != 0 ==> |Matched(es[..i], recordTag)| <= Cap(nrows)
    ensures ParseRecords(es, recordTag, nrows) == Records(Matched(es[..i], recordTag))
  {
    var m := Matched(es, recordTag);
    var seen := Matched(es[..i], recordTag);
    MatchedPrefix(es, recordTag, i);
    if i == |es| {
      assert es[..i] == es;
    }
    assert Processed(nrows, |m|) == |seen|;
    assert m[..|seen|] == seen;
  }

  /** The body of the loop for one record element: its record is yielded
      when it is non-empty. */
  method YieldRecord(records: seq<Record>, ghost seen: seq<Element>, elem: Element) returns (out: seq<Record>)
    requires records == Records(seen)
    ensures out == Records(seen + [elem])
  {
    var rec := BuildRecord(elem.nodes);
    RecordsStep(seen, elem);
    out := if rec != map[] then records + [rec] else records;
  }

  /** `parse_xml_records` over the elements of the document in the order their
      end events arrive. */
  method ParseXmlRecords(es: seq<Element>, recordTag: string, nrows: Option<int>) returns (records: seq<Record>)
    ensures records == ParseRecords(es, recordTag, nrows)
  {
    var count := 0;
    records := [];
    var i := 0;
    var limited := nrows.Some? && nrows.value != 0;
    ghost var seen: seq<Element> := [];
    while i < |es|
      invariant 0 <= i <= |es|
      invariant seen == Matched(es[..i], recordTag)
      invariant count == |seen| && records == Records(seen)
      invariant limited ==> count <= Cap(nrows)
    {
      MatchedStep(es, recordTag, i);
      var elem := es[i];
      if IsRecordTag(elem.tag, recordTag) {
        if limited && count >= nrows.value {
          break;
        }
        records := YieldRecord(records, seen, elem);
        count := count + 1;
        seen := seen + [elem];
      }
      i := i + 1;
    }
    ParseRecordsAt(es, recordTag, nrows, i);
  }

  /** Every yielded record is non-empty and is the record of a matching
      element; with a positive `nrows` at most `nrows` records are yielded,
      and with a negative one none. */
  lemma ParseRecordsBounds(es: seq<Element>, recordTag: string, nrows: Option<int>)
    ensures var rs := ParseRecords(es, recordTag, nrows);
      (forall r :: r in rs ==> r != map[]) &&
      (forall r :: r in rs ==> exists e :: e in es && Contains(e.tag, recordTag) && r == RecordOf(e.nodes)) &&
      (nrows.Some? && nrows.value > 0 ==> |rs| <= nrows.value) &&
      (nrows.Some? && nrows.value < 0 ==> rs == [])
  {
    var m := Matched(es, recordTag);
    var rs := ParseRecords(es, recordTag, nrows);
    RecordsOrigin(m[..Processed(nrows, |m|)]);
    MatchedOrigin(es, recordTag);
    forall r | r in rs ensures exists e :: e in es && Contains(e.tag, recordTag) && r == RecordOf(e.nodes) {
      var e :| e in m[..Processed(nrows, |m|)] && r == RecordOf(e.nodes);
      IsRecordTagIsSubstring(e.tag, recordTag);
    }
  }

  // ---------------------------------------------------------------- join

  /** The relationship rows whose `child_lei` equals the entity's `lei`
      (two missing values match, as they do in a pandas merge): every
      matching row, each as often as it occurs, in the original order. */
  function ChildRows(l: Row<Option<string>>, rs: seq<Row<Option<string>>>): (m: seq<Row<Option<string>>>)
    requires "lei" in l && forall k :: 0 <= k < |rs| ==> "child_lei" in rs[k]
    ensures |m| <= |rs|
    ensures forall r :: r in m <==> r in rs && r["child_lei"] == l["lei"]
    ensures IsSubsequence(m, rs)
    ensures |m| == CountWhere(rs, r => "child_lei" in r && r["child_lei"] == l["lei"])
  {
    if rs == [] then []
    else
      var rest := ChildRows(l, rs[1..]);
      assert forall r :: r in rs[1..] ==> r in rs;
      if rs[0]["child_lei"] == l["lei"] then
        assert ([rs[0]] + rest)[1..] == rest;
        [rs[0]] + rest
      else rest
  }

  /** A row with every column of `columns` missing. */
  function NullRow(columns: seq<string>): (r: Row<Option<string>>)
    ensures r.Keys == ColumnSet(columns)
    ensures forall c :: c in r ==> r[c] == None
  {
    map c | c in ColumnSet(columns) :: None
  }

  /** The joined rows of one entity: one per matching relationship, or one
      with missing relationship fields when none matches. */
  function RowsFor(l: Row<Option<string>>, rs: seq<Row<Option<string>>>, rightColumns: seq<string>)
    : seq<Row<Option<string>>>
    requires "lei" in l && forall k :: 0 <= k < |rs| ==> "child_lei" in rs[k]
  {
    var m := ChildRows(l, rs);
    if m == [] then [l + NullRow(rightColumns)]
    else seq(|m|, k requires 0 <= k < |m| => l + m[k])
  }

  /** The rows of one entity: the entity merged with each matching
      relationship in order, or with missing values when none matches. */
  lemma RowsForShape(l: Row<Option<string>>, rs: seq<Row<Option<string>>>, rightColumns: seq<string>)
    requires "lei" in l && forall k :: 0 <= k < |rs| ==> "child_lei" in rs[k]
    ensures var out := RowsFor(l, rs, rightColumns);
      var m := ChildRows(l, rs);
      (m == [] ==> out == [l + NullRow(rightColumns)]) &&
      (m != [] ==> |out| == |m| && forall k :: 0 <= k < |m| ==> out[k] == l + m[k]) &&
      forall x :: x in out ==> (m == [] && x == l + NullRow(rightColumns)) || exists k :: 0 <= k < |m| && x == l + m[k]
  {
  }

  function JoinRows(ls: seq<Row<Option<string>>>, rs: seq<Row<Option<string>>>, rightColumns: seq<string>)
    : (out: seq<Row<Option<string>>>)
    requires forall i :: 0 <= i < |ls| ==> "lei" in ls[i]
    requires forall k :: 0 <= k < |rs| ==> "child_lei" in rs[k]
    ensures |out| >= |ls|
  {
    if ls == [] then [] else RowsFor(ls[0], rs, rightColumns) + JoinRows(ls[1..], rs, rightColumns)
  }

  /** `lei_df.merge(rr_df, how="left", left_on="lei", right_on="child_lei")`
      for batches without shared column names. */
  function LeftJoin(left: RawFrame, right: RawFrame): (j: RawFrame)
    requires WellFormed(left) && WellFormed(right)
    requires "lei" in left.columns && "child_lei" in right.columns
    ensures j.columns == left.columns + right.columns
    ensures |j.rows| >= |left.rows|
  {
    Frame(left.columns + right.columns, JoinRows(left.rows, right.rows, right.columns))
  }

  /** Every row has exactly the keys `keys`. */
  predicate RowsHave(rows: seq<Row<Option<string>>>, keys: set<string>) {
    forall r :: r in rows ==> r.Keys == keys
  }

  /** The join holds the rows of each entity and nothing else. */
  lemma {:induction false} JoinRowsMembers(ls: seq<Row<Option<string>>>, rs: seq<Row<Option<string>>>,
                                           rightColumns: seq<string>)
    requires forall i :: 0 <= i < |ls| ==> "lei" in ls[i]
    requires forall k :: 0 <= k < |rs| ==> "child_lei" in rs[k]
    ensures forall x :: x in JoinRows(ls, rs, rightColumns) <==>
              exists i :: 0 <= i < |ls| && x in RowsFor(ls[i], rs, rightColumns)
  {
    if ls != [] {
      var tail := ls[1..];
      JoinRowsMembers(tail, rs, rightColumns);
      assert JoinRows(ls, rs, rightColumns) == RowsFor(ls[0], rs, rightColumns) + JoinRows(tail, rs, rightColumns);
      forall x | x in JoinRows(ls, rs, rightColumns)
        ensures exists i :: 0 <= i < |ls| && x in RowsFor(ls[i], rs, rightColumns)
      {
        if x !in RowsFor(ls[0], rs, rightColumns) {
          var i :| 0 <= i < |tail| && x in RowsFor(tail[i], rs, rightColumns);
          assert tail[i] == ls[i + 1];
        }
      }
      forall x | exists i :: 0 <= i < |ls| && x in RowsFor(ls[i], rs, rightColumns)
        ensures x in JoinRows(ls, rs, rightColumns)
      {
        var i :| 0 <= i < |ls| && x in RowsFor(ls[i], rs, rightColumns);
        if i > 0 {
          assert ls[i] == tail[i - 1];
        }
      }
    }
  }

  /** Each joined row of an entity has the entity's keys and the
      relationship keys. */
  lemma JoinRowKeys(l: Row<Option<string>>, rs: seq<Row<Option<string>>>, rightColumns: seq<string>,
                    right: set<string>)
    requires "lei" in l && RowsHave(rs, right) && "child_lei" in right && right == ColumnSet(rightColumns)
    ensures forall x :: x in RowsFor(l, rs, rightColumns) ==> x.Keys == l.Keys + right
  {
    RowsForShape(l, rs, rightColumns);
    var m := ChildRows(l, rs);
    forall x | x in RowsFor(l, rs, rightColumns) ensures x.Keys == l.Keys + right {
      if m != [] {
        var k :| 0 <= k < |m| && x == l + m[k];
        assert m[k] in rs;
      }
    }
  }

  /** The joined rows of an entity keep the entity's own fields. */
  lemma JoinKeepsEntity(l: Row<Option<string>>, rs: seq<Row<Option<string>>>, rightColumns: seq<string>,
                        right: set<string>)
    requires "lei" in l && RowsHave(rs, right) && "child_lei" in right && right == ColumnSet(rightColumns)
    requires l.Keys !! right
    ensures var out := RowsFor(l, rs, rightColumns);
      |out| == (if ChildRows(l, rs) == [] then 1 else |ChildRows(l, rs)|) &&
      forall x, c :: x in out && c in l ==> c in x && x[c] == l[c]
  {
    RowsForShape(l, rs, rightColumns);
    var m := ChildRows(l, rs);
    forall x, c | x in RowsFor(l, rs, rightColumns) && c in l ensures c in x && x[c] == l[c] {
      if m != [] {
        var k :| 0 <= k < |m| && x == l + m[k];
        assert m[k] in rs;
      }
    }
  }

  /** The joined rows of an entity carry each matching relationship's fields,
      or missing values when none matches. */
  lemma JoinAddsRelationships(l: Row<Option<string>>, rs: seq<Row<Option<string>>>, rightColumns: seq<string>,
                              right: set<string>)
    requires "lei" in l && RowsHave(rs, right) && "child_lei" in right && right == ColumnSet(rightColumns)
    ensures var out := RowsFor(l, rs, rightColumns);
      var m := ChildRows(l, rs);
      (m == [] ==> forall c :: c in right ==> c in out[0] && out[0][c] == None) &&
      (forall k, c :: 0 <= k < |m| && c in right ==> c in out[k] && out[k][c] == m[k][c])
  {
    RowsForShape(l, rs, rightColumns);
    var m := ChildRows(l, rs);
    forall k | 0 <= k < |m| ensures m[k].Keys == right {
      assert m[k] in rs;
    }
  }

  /** The join of well-formed batches without shared column names is well formed. */
  lemma LeftJoinWellFormed(left: RawFrame, right: RawFrame)
    requires WellFormed(left) && WellFormed(right)
    requires "lei" in left.columns && "child_lei" in right.columns
    requires forall c :: c in left.columns ==> c !in right.columns
    ensures WellFormed(LeftJoin(left, right))
  {
    var j := LeftJoin(left, right);
    var leftKeys, rightKeys := ColumnSet(left.columns), ColumnSet(right.columns);
    assert forall i :: 0 <= i < |left.rows| ==> "lei" in left.rows[i];
    JoinRowsMembers(left.rows, right.rows, right.columns);
    forall r | r in right.rows ensures r.Keys == rightKeys {
      var k :| 0 <= k < |right.rows| && right.rows[k] == r;
    }
    forall i | 0 <= i < |left.rows| ensures forall x :: x in RowsFor(left.rows[i], right.rows, right.columns) ==>
                                              x.Keys == leftKeys + rightKeys {
      JoinRowKeys(left.rows[i], right.rows, right.columns, rightKeys);
    }
    assert ColumnSet(j.columns) == leftKeys + rightKeys;
    forall a, b | 0 <= a < b < |j.columns| ensures j.columns[a] != j.columns[b] {
      if b < |left.columns| {
        assert left.columns[a] != left.columns[b];
      } else if a >= |left.columns| {
        assert right.columns[a - |left.columns|] != right.columns[b - |left.columns|];
      } else {
        assert j.columns[a] in left.columns && j.columns[b] in right.columns;
      }
    }
    forall i | 0 <= i < |j.rows| ensures j.rows[i].Keys == ColumnSet(j.columns) {
      var x := j.rows[i];
      assert x in j.rows;
      var e :| 0 <= e < |left.rows| && x in RowsFor(left.rows[e], right.rows, right.columns);
    }
  }

  /** When no entity has more than one matching relationship, the join has
      exactly one row per entity. */
  lemma {:induction false} JoinRowCount(ls: seq<Row<Option<string>>>, rs: seq<Row<Option<string>>>,
                                        rightColumns: seq<string>)
    requires forall i :: 0 <= i < |ls| ==> "lei" in ls[i]
    requires forall k :: 0 <= k < |rs| ==> "child_lei" in rs[k]
    requires forall i :: 0 <= i < |ls| ==> |ChildRows(ls[i], rs)| <= 1
    ensures |JoinRows(ls, rs, rightColumns)| == |ls|
  {
    if ls != [] {
      JoinRowCount(ls[1..], rs, rightColumns);
      RowsForShape(ls[0], rs, rightColumns);
    }
  }
}
