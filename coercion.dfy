/**
  Per-column type coercion (`_convert_types` of both normalizers): text
  columns are stringified and trimmed or upper-cased, date columns parsed,
  and the ownership percentage parsed and clipped to [0, 100]. The parsers
  and the hash are library routines and enter the model as parameters.
 */
module Coercion {
  import opened Tables
  import opened Text

  /** The library routines the pipeline calls, taken as given: pandas'
      date-time and numeric parsers with `errors="coerce"` (None where the text
      does not parse) and the hexadecimal MD5 digest. */
  datatype Library = Library(
    toDatetime: string -> Option<int>,
    toNumeric: string -> Option<real>,
    md5Hex: string -> string)

  /** `str(x)` of a missing value: pandas turns it into the literal text "nan"
      (or "None"); either way a fixed, non-empty string. */
  const NullText: string := "nan"

  /** `astype(str)` on one cell. */
  function AsText(v: Option<string>): string {
    if v.Some? then v.value else NullText
  }

  /** A cell left as loaded. */
  function Plain(v: Option<string>): Cell {
    if v.Some? then Text(v.value) else Null
  }

  predicate Trimmed(s: string) {
    s == [] || (!IsSpace(s[0]) && !IsSpace(s[|s| - 1]))
  }

  /** Stripping text that is already trimmed changes nothing. */
  lemma StripKeepsTrimmed(s: string)
    ensures Trimmed(s) ==> Strip(s) == s
  {
    if Trimmed(s) {
      assert StripLeft(s) == s;
      assert StripRight(s) == s;
    }
  }

  /** `pd.to_datetime(..., errors="coerce")` on one cell: a date where the
      parser succeeds, null otherwise. */
  function ToDate(lib: Library, v: Option<string>): (c: Cell)
    ensures c == Null || c.Date?
    ensures c == Null <==> v.None? || lib.toDatetime(v.value).None?
    ensures c.Date? ==> v.Some? && lib.toDatetime(v.value) == Some(c.instant)
  {
    if v.None? then Null
    else match lib.toDatetime(v.value)
      case None => Null
      case Some(d) => Date(d)
  }

  /** `Series.clip(lo, hi)` on one number. */
  function Clip(x: real, lo: real, hi: real): (r: real)
    requires lo <= hi
    ensures lo <= r <= hi
    ensures lo <= x <= hi ==> r == x
    ensures x < lo ==> r == lo
    ensures hi < x ==> r == hi
  {
    if x < lo then lo else if hi < x then hi else x
  }

  /** `pd.to_numeric(..., errors="coerce").clip(0, 100)` on one cell: null
      where the text does not parse, otherwise the parsed number moved into
      [0, 100] (a negative number becomes 0, one above 100 becomes 100). */
  function ToPercentage(lib: Library, v: Option<string>): (c: Cell)
    ensures c == Null || (c.Number? && 0.0 <= c.x <= 100.0)
    ensures c == Null <==> v.None? || lib.toNumeric(v.value).None?
    ensures v.Some? && lib.toNumeric(v.value).Some? ==> c == Number(Clip(lib.toNumeric(v.value).value, 0.0, 100.0))
    ensures v.Some? && lib.toNumeric(v.value).Some? && 0.0 <= lib.toNumeric(v.value).value <= 100.0 ==>
              c == Number(lib.toNumeric(v.value).value)
    ensures v.Some? && lib.toNumeric(v.value).Some? && lib.toNumeric(v.value).value < 0.0 ==> c == Number(0.0)
    ensures v.Some? && lib.toNumeric(v.value).Some? && lib.toNumeric(v.value).value > 100.0 ==> c == Number(100.0)
  {
    if v.None? then Null
    else match lib.toNumeric(v.value)
      case None => Null
      case Some(x) => Number(Clip(x, 0.0, 100.0))
  }

  /** `astype(str).str.strip()`: the cell's text with its surrounding
      whitespace cut, never null; a missing value becomes the non-empty
      `NullText`; text that is already trimmed is kept. */
  function TrimmedText(v: Option<string>): (c: Cell)
    ensures v.Some? ==> c == Text(Strip(v.value))
    ensures v.None? ==> c == Text(NullText)
    ensures c.Text? && Trimmed(c.text)
    ensures v.Some? && Trimmed(v.value) ==> c == Text(v.value)
  {
    if v.None? then
      assert Trimmed(NullText);  // "nan" has no surrounding whitespace to strip
      Text(NullText)
    else
      StripKeepsTrimmed(v.value);
      Text(Strip(v.value))
  }

  /** `str(x).upper()` of a missing value. */
  lemma UpperNullText()
    ensures Upper(NullText) == "NAN"
  {
  }

  /** Upper-casing keeps text trimmed. */
  lemma UpperKeepsTrimmed(s: string)
    requires Trimmed(s)
    ensures Trimmed(Upper(s))
  {
  }

  /** `astype(str).str.upper()`: the cell's text upper-cased, never null;
      text without lower-case letters is kept. */
  function UpperText(v: Option<string>): (c: Cell)
    ensures c == Text(Upper(AsText(v)))
    ensures c.Text? && forall k :: 0 <= k < |c.text| ==> !IsLowerAscii(c.text[k])
    ensures v.None? ==> c == Text("NAN")
    ensures v.Some? && (forall k :: 0 <= k < |v.value| ==> !IsLowerAscii(v.value[k])) ==> c == Text(v.value)
  {
    if v.Some? && forall k :: 0 <= k < |v.value| ==> !IsLowerAscii(v.value[k]) then
      UpperOfUpper(v.value);
      Text(Upper(v.value))
    else
      Text(Upper(AsText(v)))
  }

  /** `astype(str).str.strip().str.upper()`: the cell's text trimmed and
      upper-cased; a trimmed upper-case LEI is kept. */
  function CanonicalLei(v: Option<string>): (c: Cell)
    ensures v.Some? ==> c == Text(Upper(Strip(v.value)))
    ensures c.Text? && Trimmed(c.text)
    ensures forall k :: 0 <= k < |c.text| ==> !IsLowerAscii(c.text[k])
    ensures v.None? ==> c == Text("NAN")
    ensures v.Some? && Trimmed(v.value) && (forall k :: 0 <= k < |v.value| ==> !IsLowerAscii(v.value[k])) ==>
              c == Text(v.value)
  {
    if v.None? then
      UpperNullText();
      Text("NAN")
    else
      var s := v.value;
      StripKeepsTrimmed(s);
      var t := Strip(s);
      UpperKeepsTrimmed(t);
      assert Trimmed(s) && (forall k :: 0 <= k < |s| ==> !IsLowerAscii(s[k])) ==> Upper(t) == s by {
        if Trimmed(s) && forall k :: 0 <= k < |s| ==> !IsLowerAscii(s[k]) {
          UpperOfUpper(s);
        }
      }
      Text(Upper(t))
  }

  /** The entity date columns. */
  predicate EntityDateColumn(c: string) {
    c == "latestUpdateDate" || c == "registrationDate" || c == "nextRenewalDate"
  }

  /** The entity text columns that are trimmed. */
  predicate EntityStringColumn(c: string) {
    c == "legalName" || c == "city" || c == "country" || c == "addressLine1" || c == "postalCode"
  }

  /** The two LEI columns of a relationship. */
  predicate RelationshipLeiColumn(c: string) {
    c == "childLei" || c == "parentLei"
  }

  /** The relationship date columns. */
  predicate RelationshipDateColumn(c: string) {
    c == "relationshipStartDate" || c == "relationshipEndDate"
  }

  /** The entity coercion of one cell of column `column`: `lei` becomes its
      trimmed text (a missing one the non-empty `NullText`), the status its
      upper-cased text, the date columns the parsed date or null, and the
      listed string columns their trimmed text; any other column is left as
      loaded. */
  function ConvertEntityCell(lib: Library, column: string, v: Option<string>): (r: Cell)
    ensures column == "lei" ==> r == TrimmedText(v)
    ensures column == "entityStatus" ==> r == UpperText(v)
    ensures EntityDateColumn(column) ==> r == ToDate(lib, v)
    ensures EntityStringColumn(column) ==> r == TrimmedText(v)
    ensures column != "lei" && column != "entityStatus" && !EntityDateColumn(column) && !EntityStringColumn(column) ==>
              r == Plain(v)
  {
    if EntityDateColumn(column) then
      assert column != "lei" && column != "entityStatus" && !EntityStringColumn(column);
      ToDate(lib, v)
    else if column == "lei" then
      assert !EntityStringColumn(column);
      TrimmedText(v)
    else if column == "entityStatus" then
      assert !EntityStringColumn(column);
      UpperText(v)
    else if EntityStringColumn(column) then TrimmedText(v)
    else Plain(v)
  }

  /** The relationship coercion of one cell of column `column`: both LEIs
      become their trimmed, upper-cased text, the status its upper-cased
      text, the dates the parsed date or null, and the ownership percentage
      the parsed number clipped to [0, 100] or null; any other column is left
      as loaded. */
  function ConvertRelationshipCell(lib: Library, column: string, v: Option<string>): (r: Cell)
    ensures RelationshipLeiColumn(column) ==> r == CanonicalLei(v)
    ensures column == "relationshipStatus" ==> r == UpperText(v)
    ensures RelationshipDateColumn(column) ==> r == ToDate(lib, v)
    ensures column == "ownershipPercentage" ==> r == ToPercentage(lib, v)
    ensures !RelationshipLeiColumn(column) && !RelationshipDateColumn(column) &&
            column != "relationshipStatus" && column != "ownershipPercentage" ==>
              r == Plain(v)
  {
    if RelationshipLeiColumn(column) then CanonicalLei(v)
    else if RelationshipDateColumn(column) then ToDate(lib, v)
    else if column == "relationshipStatus" then UpperText(v)
    else if column == "ownershipPercentage" then ToPercentage(lib, v)
    else Plain(v)
  }

  /** `_convert_types` of the entity normalizer: same columns, same rows in the
      same order, each cell coerced by its column. */
  function ConvertEntityTypes(lib: Library, f: RawFrame): (g: Frame<Cell>)
    ensures g.columns == f.columns && |g.rows| == |f.rows|
    ensures WellFormed(f) ==> WellFormed(g)
    ensures forall i :: 0 <= i < |f.rows| ==> g.rows[i].Keys == f.rows[i].Keys
    ensures forall i, c :: 0 <= i < |f.rows| && c in f.rows[i] ==>
              g.rows[i][c] == ConvertEntityCell(lib, c, f.rows[i][c])
  {
    Frame(f.columns, seq(|f.rows|, i requires 0 <= i < |f.rows| =>
      map c | c in f.rows[i] :: ConvertEntityCell(lib, c, f.rows[i][c])))
  }

  /** `_convert_types` of the relationship normalizer. */
  function ConvertRelationshipTypes(lib: Library, f: RawFrame): (g: Frame<Cell>)
    ensures g.columns == f.columns && |g.rows| == |f.rows|
    ensures WellFormed(f) ==> WellFormed(g)
    ensures forall i :: 0 <= i < |f.rows| ==> g.rows[i].Keys == f.rows[i].Keys
    ensures forall i, c :: 0 <= i < |f.rows| && c in f.rows[i] ==>
              g.rows[i][c] == ConvertRelationshipCell(lib, c, f.rows[i][c])
  {
    Frame(f.columns, seq(|f.rows|, i requires 0 <= i < |f.rows| =>
      map c | c in f.rows[i] :: ConvertRelationshipCell(lib, c, f.rows[i][c])))
  }
}
