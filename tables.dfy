/**
  Tabular batches. A batch is a list of column labels and a list of rows; each
  row maps every column label to a cell. Raw batches, as read from the source
  files, hold `Option<string>` cells (None for a missing value); normalized
  batches hold typed `Cell`s.
 */
module Tables {

  datatype Option<+T> = None | Some(value: T)

  /** A normalized value: missing, text, a parsed date-time (an opaque instant)
      or a number. */
  datatype Cell = Null | Text(text: string) | Date(instant: int) | Number(x: real)

  type Row<C> = map<string, C>

  datatype Frame<C> = Frame(columns: seq<string>, rows: seq<Row<C>>)

  /** A batch as loaded from a source file: text cells, None where a value is missing. */
  type RawFrame = Frame<Option<string>>

  function ColumnSet(columns: seq<string>): set<string> {
    set c | c in columns
  }

  predicate Distinct<T(==)>(s: seq<T>) {
    forall i, j :: 0 <= i < j < |s| ==> s[i] != s[j]
  }

  /** Column labels are unique and every row has exactly those labels. */
  predicate WellFormed<C>(f: Frame<C>) {
    Distinct(f.columns) &&
    forall i :: 0 <= i < |f.rows| ==> f.rows[i].Keys == ColumnSet(f.columns)
  }

  /** The rows of `s` that satisfy `keep`, in their original order. */
  function Filter<T(==)>(s: seq<T>, keep: T -> bool): (r: seq<T>)
    ensures |r| <= |s|
    ensures forall x :: x in r ==> x in s && keep(x)
    ensures forall x :: x in s && keep(x) ==> x in r
  {
    if s == [] then []
    else if keep(s[0]) then [s[0]] + Filter(s[1..], keep)
    else Filter(s[1..], keep)
  }

  /** The number of elements of `s` that fail `keep`: pandas `(~mask).sum()`. */
  function CountFailing<T>(s: seq<T>, keep: T -> bool): nat {
    if s == [] then 0
    else (if keep(s[0]) then 0 else 1) + CountFailing(s[1..], keep)
  }

  /** The number of elements of `s` that satisfy `p`: pandas `mask.sum()`. */
  function CountWhere<T>(s: seq<T>, p: T -> bool): (n: nat)
    ensures n <= |s|
  {
    if s == [] then 0
    else (if p(s[0]) then 1 else 0) + CountWhere(s[1..], p)
  }

  /** Exactly the failing elements are removed by a filter. */
  lemma {:induction false} FilterRemovesFailing<T>(s: seq<T>, keep: T -> bool)
    ensures |Filter(s, keep)| + CountFailing(s, keep) == |s|
  {
    if s != [] {
      FilterRemovesFailing(s[1..], keep);
    }
  }

  /** A filter changes nothing exactly when no element fails it. */
  lemma FilterIdentity<T>(s: seq<T>, keep: T -> bool)
    ensures Filter(s, keep) == s <==> CountFailing(s, keep) == 0
  {
    FilterRemovesFailing(s, keep);
    if CountFailing(s, keep) == 0 {
      NoFailingKeepsAll(s, keep);
    }
  }

  lemma {:induction false} NoFailingKeepsAll<T>(s: seq<T>, keep: T -> bool)
    requires CountFailing(s, keep) == 0
    ensures Filter(s, keep) == s
  {
    if s != [] {
      NoFailingKeepsAll(s[1..], keep);
    }
  }

  /** `CountFailing` is zero exactly when every element passes. */
  lemma {:induction false} CountFailingZero<T>(s: seq<T>, keep: T -> bool)
    ensures CountFailing(s, keep) == 0 <==> forall x :: x in s ==> keep(x)
  {
    if s != [] {
      CountFailingZero(s[1..], keep);
      assert forall x :: x in s ==> x == s[0] || x in s[1..];
    }
  }

  /** `a` is an order-preserving subsequence of `b`. */
  predicate IsSubsequence<T(==)>(a: seq<T>, b: seq<T>)
    decreases |b|
  {
    if a == [] then true
    else if b == [] then false
    else (a[0] == b[0] && IsSubsequence(a[1..], b[1..])) || IsSubsequence(a, b[1..])
  }

  lemma {:induction false} SubsequenceReflexive<T>(s: seq<T>)
    ensures IsSubsequence(s, s)
  {
    if s != [] {
      SubsequenceReflexive(s[1..]);
    }
  }

  lemma {:induction false} SubsequenceTransitive<T>(a: seq<T>, b: seq<T>, c: seq<T>)
    requires IsSubsequence(a, b) && IsSubsequence(b, c)
    ensures IsSubsequence(a, c)
    decreases |c|
  {
    if a != [] {
      assert b != [] && c != [];
      if IsSubsequence(b, c[1..]) {
        SubsequenceTransitive(a, b, c[1..]);
      } else if a[0] == b[0] && IsSubsequence(a[1..], b[1..]) {
        SubsequenceTransitive(a[1..], b[1..], c[1..]);
      } else {
        SubsequenceTransitive(a, b[1..], c[1..]);
      }
    }
  }

  /** A filter keeps an order-preserving subsequence. */
  lemma {:induction false} FilterIsSubsequence<T>(s: seq<T>, keep: T -> bool)
    ensures IsSubsequence(Filter(s, keep), s)
  {
    if s != [] {
      FilterIsSubsequence(s[1..], keep);
    }
  }

  /** A filter of a list without repeats has no repeats. */
  lemma {:induction false} FilterDistinct<T>(s: seq<T>, keep: T -> bool)
    requires Distinct(s)
    ensures Distinct(Filter(s, keep))
  {
    if s != [] {
      assert Distinct(s[1..]);
      FilterDistinct(s[1..], keep);
      assert s[0] !in s[1..];
    }
  }

  /** `CountWhere` reaches the length exactly when every element satisfies `p`,
      and is positive exactly when some element does. */
  lemma {:induction false} CountWhereBounds<T>(s: seq<T>, p: T -> bool)
    ensures CountWhere(s, p) == |s| <==> forall x :: x in s ==> p(x)
    ensures CountWhere(s, p) > 0 <==> exists x :: x in s && p(x)
  {
    if s != [] {
      CountWhereBounds(s[1..], p);
      assert forall x :: x in s ==> x == s[0] || x in s[1..];
    }
  }
}
