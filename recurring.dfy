/**
 * The recurring-compounds query on the table as read: group the rows by
 * `Chemical formula`, keep the groups with more than one row, drop rows
 * that repeat an earlier row's (formula, band gap) pair, and sort by
 * formula.
 */
module Recurring {
  import opened Wrappers
  import Seqs
  import Sorting
  import Table

  type RawRow = Table.RawRow

  /** The `subset=['Chemical formula', 'Band gap']` of `drop_duplicates`; two missing cells are equal there. */
  type Key = (Option<string>, Option<string>)

  function KeyOf(row: RawRow): Key {
    (row.formula, row.bandGap)
  }

  function Keys(rows: seq<RawRow>): (ks: seq<Key>)
    ensures |ks| == |rows|
    ensures forall i :: 0 <= i < |rows| ==> ks[i] == KeyOf(rows[i])
  {
    seq(|rows|, i requires 0 <= i < |rows| => KeyOf(rows[i]))
  }

  /** The size of the group of formula `f`. */
  function Occurrences(rows: seq<RawRow>, f: string): nat {
    |Seqs.Filter(rows, (row: RawRow) => row.formula == Some(f))|
  }

  /**
   * The row belongs to a group of more than one row.  A row whose formula
   * is missing belongs to no group: `groupby` leaves such rows out.
   */
  predicate Recurs(raw: seq<RawRow>, row: RawRow) {
    row.formula.Some? && Occurrences(raw, row.formula.value) > 1
  }

  /** The mask of `filter(lambda group: len(group) > 1)`; it looks at the formula only. */
  function IsRecurring(raw: seq<RawRow>): RawRow -> bool {
    (row: RawRow) => Recurs(raw, row)
  }

  /** `groupby('Chemical formula').filter(lambda group: len(group) > 1)`: the rows of recurring formulas, in table order. */
  function KeepRecurring(raw: seq<RawRow>): (r: seq<RawRow>)
    ensures forall i :: 0 <= i < |r| ==> r[i] in raw && Recurs(raw, r[i])
    ensures forall k :: 0 <= k < |raw| && Recurs(raw, raw[k]) ==> raw[k] in r
  {
    Seqs.Filter(raw, IsRecurring(raw))
  }

  /** Row `j` is the first row with its (formula, band gap) pair. */
  predicate First(rows: seq<RawRow>, j: nat)
    requires j < |rows|
  {
    KeyOf(rows[j]) !in Keys(rows[..j])
  }

  /** `drop_duplicates(subset=[...], keep='first')`: the rows that are first with their pair, in table order. */
  function DropDuplicates(rows: seq<RawRow>): (r: seq<RawRow>)
    ensures |r| <= |rows|
    ensures forall i :: 0 <= i < |r| ==> r[i] in rows
  {
    if rows == [] then []
    else
      var n := |rows| - 1;
      DropDuplicates(rows[..n]) + (if First(rows, n) then [rows[n]] else [])
  }

  /** Whether a row is first with its pair does not depend on the rows after it. */
  lemma {:induction false} FirstPrefix(rows: seq<RawRow>, j: nat)
    requires j < |rows| - 1
    ensures First(rows, j) == First(rows[..|rows| - 1], j)
  {
    assert rows[..|rows| - 1][..j] == rows[..j];
  }

  lemma {:induction false} DropDuplicatesLast(rows: seq<RawRow>, x: RawRow)
    ensures DropDuplicates(rows + [x]) == DropDuplicates(rows) + (if KeyOf(x) in Keys(rows) then [] else [x])
  {
    assert (rows + [x])[..|rows|] == rows;
  }

  /** An index at which a row of the table occurs. */
  lemma {:induction false} IndexOfRow(rows: seq<RawRow>, x: RawRow) returns (m: nat)
    requires x in rows
    ensures m < |rows| && rows[m] == x
  {
    m :| 0 <= m < |rows| && rows[m] == x;
  }

  /** An index of a row that has the pair `k`. */
  lemma {:induction false} IndexOfKey(rows: seq<RawRow>, k: Key) returns (m: nat)
    requires k in Keys(rows)
    ensures m < |rows| && KeyOf(rows[m]) == k
  {
    m :| 0 <= m < |Keys(rows)| && Keys(rows)[m] == k;
  }

  lemma {:induction false} KeyIn(rows: seq<RawRow>, m: nat)
    requires m < |rows|
    ensures KeyOf(rows[m]) in Keys(rows)
  {
    assert Keys(rows)[m] == KeyOf(rows[m]);
  }

  /** The kept row at `i` is the table's row `j`, which is first with its pair. */
  lemma {:induction false} DropDuplicatesSoundAt(rows: seq<RawRow>, i: nat) returns (j: nat)
    requires i < |DropDuplicates(rows)|
    ensures j < |rows| && rows[j] == DropDuplicates(rows)[i] && First(rows, j)
    decreases |rows|
  {
    var n := |rows| - 1;
    var init := rows[..n];
    var r0 := DropDuplicates(init);
    if i < |r0| {
      j := DropDuplicatesSoundAt(init, i);
      FirstPrefix(rows, j);
    } else {
      j := n;
    }
  }

  /** `x` is a row of the table, at an index where it is first with its pair. */
  ghost predicate FirstOccurrence(rows: seq<RawRow>, x: RawRow) {
    exists j :: 0 <= j < |rows| && rows[j] == x && First(rows, j)
  }

  /** Every kept row is a row of the table that is first with its pair. */
  lemma {:induction false} DropDuplicatesSound(rows: seq<RawRow>)
    ensures forall i :: 0 <= i < |DropDuplicates(rows)| ==> FirstOccurrence(rows, DropDuplicates(rows)[i])
  {
    forall i | 0 <= i < |DropDuplicates(rows)| ensures FirstOccurrence(rows, DropDuplicates(rows)[i]) {
      var j := DropDuplicatesSoundAt(rows, i);
    }
  }

  /** A row that is first with its pair is kept. */
  lemma {:induction false} DropDuplicatesCompleteAt(rows: seq<RawRow>, j: nat)
    requires j < |rows| && First(rows, j)
    ensures rows[j] in DropDuplicates(rows)
    decreases |rows|
  {
    var n := |rows| - 1;
    if j < n {
      var init := rows[..n];
      FirstPrefix(rows, j);
      DropDuplicatesCompleteAt(init, j);
      assert DropDuplicates(rows)[..|DropDuplicates(init)|] == DropDuplicates(init);
    }
  }

  /** Every row that is first with its pair is kept. */
  lemma {:induction false} DropDuplicatesComplete(rows: seq<RawRow>)
    ensures forall j :: 0 <= j < |rows| && First(rows, j) ==> rows[j] in DropDuplicates(rows)
  {
    forall j | 0 <= j < |rows| && First(rows, j) ensures rows[j] in DropDuplicates(rows) {
      DropDuplicatesCompleteAt(rows, j);
    }
  }

  /** The pair of row `j` is the pair of a kept row: of the first row with that pair. */
  lemma {:induction false} DropDuplicatesKeepsPairAt(rows: seq<RawRow>, j: nat)
    requires j < |rows|
    ensures KeyOf(rows[j]) in Keys(DropDuplicates(rows))
    decreases j
  {
    if First(rows, j) {
      DropDuplicatesCompleteAt(rows, j);
      var i := IndexOfRow(DropDuplicates(rows), rows[j]);
      KeyIn(DropDuplicates(rows), i);
    } else {
      var m := IndexOfKey(rows[..j], KeyOf(rows[j]));
      assert rows[..j][m] == rows[m];
      DropDuplicatesKeepsPairAt(rows, m);
    }
  }

  /** Every pair of the table is the pair of a kept row. */
  lemma {:induction false} DropDuplicatesKeepsPairs(rows: seq<RawRow>)
    ensures forall j :: 0 <= j < |rows| ==> KeyOf(rows[j]) in Keys(DropDuplicates(rows))
  {
    forall j | 0 <= j < |rows| ensures KeyOf(rows[j]) in Keys(DropDuplicates(rows)) {
      DropDuplicatesKeepsPairAt(rows, j);
    }
  }

  lemma {:induction false} DropDuplicatesDistinctAt(rows: seq<RawRow>, i: nat, j: nat)
    requires i < j < |DropDuplicates(rows)|
    ensures KeyOf(DropDuplicates(rows)[i]) != KeyOf(DropDuplicates(rows)[j])
    decreases |rows|
  {
    var n := |rows| - 1;
    var init := rows[..n];
    var r0 := DropDuplicates(init);
    if j < |r0| {
      DropDuplicatesDistinctAt(init, i, j);
    } else {
      var m := IndexOfRow(init, r0[i]);
      KeyIn(init, m);
    }
  }

  /** No two kept rows share a pair. */
  lemma {:induction false} DropDuplicatesDistinct(rows: seq<RawRow>)
    ensures forall i, j :: 0 <= i < j < |DropDuplicates(rows)| ==>
      KeyOf(DropDuplicates(rows)[i]) != KeyOf(DropDuplicates(rows)[j])
  {
    forall i, j | 0 <= i < j < |DropDuplicates(rows)|
      ensures KeyOf(DropDuplicates(rows)[i]) != KeyOf(DropDuplicates(rows)[j])
    {
      DropDuplicatesDistinctAt(rows, i, j);
    }
  }

  /** For a recurring row, an earlier row with the same pair is itself recurring. */
  lemma {:induction false} RecurringKeyIn(raw: seq<RawRow>, rows: seq<RawRow>, x: RawRow)
    requires Recurs(raw, x)
    ensures KeyOf(x) in Keys(Seqs.Filter(rows, IsRecurring(raw))) <==> KeyOf(x) in Keys(rows)
  {
    var f := Seqs.Filter(rows, IsRecurring(raw));
    if KeyOf(x) in Keys(rows) {
      var m := IndexOfKey(rows, KeyOf(x));
      assert IsRecurring(raw)(rows[m]);
      var i := IndexOfRow(f, rows[m]);
      KeyIn(f, i);
    }
    if KeyOf(x) in Keys(f) {
      var i := IndexOfKey(f, KeyOf(x));
      var m := IndexOfRow(rows, f[i]);
      KeyIn(rows, m);
    }
  }

  /** Because the mask looks at the formula only, filtering the groups and dropping repeated pairs can be done in either order. */
  lemma {:induction false} DropDuplicatesKeepRecurringCommute(raw: seq<RawRow>, rows: seq<RawRow>)
    ensures DropDuplicates(Seqs.Filter(rows, IsRecurring(raw))) == Seqs.Filter(DropDuplicates(rows), IsRecurring(raw))
    decreases |rows|
  {
    if rows != [] {
      var p := IsRecurring(raw);
      var n := |rows| - 1;
      var init, x := rows[..n], rows[n];
      var f := Seqs.Filter(init, p);
      var tail := if KeyOf(x) in Keys(init) then [] else [x];
      assert rows == init + [x];
      DropDuplicatesKeepRecurringCommute(raw, init);
      FilterOne(x, p);
      Seqs.FilterAppend(init, [x], p);
      DropDuplicatesLast(init, x);
      Seqs.FilterAppend(DropDuplicates(init), tail, p);
      if p(x) {
        RecurringKeyIn(raw, init, x);
        calc {
          DropDuplicates(Seqs.Filter(rows, p));
          DropDuplicates(f + [x]);
          { DropDuplicatesLast(f, x); }
          DropDuplicates(f) + tail;
          Seqs.Filter(DropDuplicates(init), p) + tail;
          { if tail != [] { FilterOne(x, p); } }
          Seqs.Filter(DropDuplicates(init), p) + Seqs.Filter(tail, p);
          Seqs.Filter(DropDuplicates(rows), p);
        }
      } else {
        calc {
          DropDuplicates(Seqs.Filter(rows, p));
          { assert f + [] == f; }
          DropDuplicates(f);
          Seqs.Filter(DropDuplicates(init), p);
          { if tail != [] { FilterOne(x, p); } else { assert Seqs.Filter(tail, p) == []; } }
          Seqs.Filter(DropDuplicates(init), p) + Seqs.Filter(tail, p);
          Seqs.Filter(DropDuplicates(rows), p);
        }
      }
    }
  }

  lemma {:induction false} FilterOne(x: RawRow, p: RawRow -> bool)
    ensures Seqs.Filter([x], p) == if p(x) then [x] else []
  {
    assert [x][1..] == [];
  }

  /** `sort_values(by='Chemical formula')`: by formula in `str` order, missing formulas last. */
  predicate FormulaLe(a: RawRow, b: RawRow) {
    match (a.formula, b.formula)
    case (Some(x), Some(y)) => Sorting.LexLe(x, y)
    case (Some(_), None) => true
    case (None, _) => b.formula.None?
  }

  lemma {:induction false} FormulaLeTotalPreorder()
    ensures Sorting.TotalPreorder(FormulaLe)
  {
    Sorting.LexLeTotalPreorder();
    forall a, b ensures FormulaLe(a, b) || FormulaLe(b, a) {
      if a.formula.Some? && b.formula.Some? {
        assert Sorting.LexLe(a.formula.value, b.formula.value) || Sorting.LexLe(b.formula.value, a.formula.value);
      }
    }
    forall a, b, c | FormulaLe(a, b) && FormulaLe(b, c) ensures FormulaLe(a, c) {
      if a.formula.Some? && b.formula.Some? && c.formula.Some? {
        var x, y, z := a.formula.value, b.formula.value, c.formula.value;
        assert Sorting.LexLe(x, y) && Sorting.LexLe(y, z) ==> Sorting.LexLe(x, z);
      }
    }
  }

  /** `reoccurring_compounds`.  Rows with equal formulas may come out in any order in pandas; this model keeps table order. */
  function RecurringCompounds(raw: seq<RawRow>): (r: seq<RawRow>)
    ensures |r| <= |raw|
  {
    var kept := DropDuplicates(KeepRecurring(raw));
    var sorted := Sorting.SortBy(kept, FormulaLe);
    assert |sorted| == |multiset(sorted)| == |multiset(kept)| == |kept|;
    sorted
  }

  /** Every listed row is a row of the table whose formula occurs at least twice. */
  lemma {:induction false} RecurringRowsRecur(raw: seq<RawRow>)
    ensures forall i :: 0 <= i < |RecurringCompounds(raw)| ==>
      RecurringCompounds(raw)[i] in raw
      && RecurringCompounds(raw)[i].formula.Some?
      && Occurrences(raw, RecurringCompounds(raw)[i].formula.value) >= 2
  {
    var u := DropDuplicates(KeepRecurring(raw));
    var r := RecurringCompounds(raw);
    forall i | 0 <= i < |r| ensures r[i] in raw && Recurs(raw, r[i]) {
      assert r[i] in multiset(u);
      assert r[i] in KeepRecurring(raw);
    }
  }

  /** The listed rows are ordered by formula. */
  lemma {:induction false} RecurringSortedByFormula(raw: seq<RawRow>)
    ensures forall i, j :: 0 <= i < j < |RecurringCompounds(raw)| ==>
      FormulaLe(RecurringCompounds(raw)[i], RecurringCompounds(raw)[j])
  {
    FormulaLeTotalPreorder();
    Sorting.SortBySorted(DropDuplicates(KeepRecurring(raw)), FormulaLe);
  }

  predicate KeyApart(a: RawRow, b: RawRow) {
    KeyOf(a) != KeyOf(b)
  }

  /** No (formula, band gap) pair is listed twice. */
  lemma {:induction false} RecurringNoRepeatedPair(raw: seq<RawRow>)
    ensures forall i, j :: 0 <= i < j < |RecurringCompounds(raw)| ==>
      KeyOf(RecurringCompounds(raw)[i]) != KeyOf(RecurringCompounds(raw)[j])
  {
    var u := DropDuplicates(KeepRecurring(raw));
    DropDuplicatesDistinct(KeepRecurring(raw));
    assert Sorting.Sorted(u, KeyApart);
    Sorting.SortByPairwise(u, FormulaLe, KeyApart);
  }

  /** A row is listed exactly when it is kept by `drop_duplicates` on the whole table and recurs. */
  lemma {:induction false} RecurringMember(raw: seq<RawRow>, x: RawRow)
    ensures x in RecurringCompounds(raw) <==> x in DropDuplicates(raw) && Recurs(raw, x)
  {
    DropDuplicatesKeepRecurringCommute(raw, raw);
    Sorting.SortByMember(DropDuplicates(KeepRecurring(raw)), FormulaLe, x);
    Seqs.FilterMember(DropDuplicates(raw), IsRecurring(raw), x);
  }

  /**
   * Of the rows sharing a pair, the first in the table is the one listed:
   * every listed row is first with its pair, and every recurring row that
   * is first with its pair is listed.
   */
  lemma {:induction false} RecurringKeepsFirst(raw: seq<RawRow>)
    ensures forall i :: 0 <= i < |RecurringCompounds(raw)| ==> FirstOccurrence(raw, RecurringCompounds(raw)[i])
    ensures forall k :: 0 <= k < |raw| && Recurs(raw, raw[k]) && First(raw, k) ==> raw[k] in RecurringCompounds(raw)
  {
    var r := RecurringCompounds(raw);
    forall i | 0 <= i < |r| ensures FirstOccurrence(raw, r[i]) {
      RecurringMember(raw, r[i]);
      var m := IndexOfRow(DropDuplicates(raw), r[i]);
      var j := DropDuplicatesSoundAt(raw, m);
    }
    forall k | 0 <= k < |raw| && Recurs(raw, raw[k]) && First(raw, k) ensures raw[k] in r {
      DropDuplicatesCompleteAt(raw, k);
      RecurringMember(raw, raw[k]);
    }
  }

  /** Every (formula, band gap) pair of a recurring row is listed. */
  lemma {:induction false} RecurringKeepsEveryPair(raw: seq<RawRow>)
    ensures forall k :: 0 <= k < |raw| && Recurs(raw, raw[k]) ==> KeyOf(raw[k]) in Keys(RecurringCompounds(raw))
  {
    var r := RecurringCompounds(raw);
    forall k | 0 <= k < |raw| && Recurs(raw, raw[k]) ensures KeyOf(raw[k]) in Keys(r) {
      var d := DropDuplicates(raw);
      DropDuplicatesKeepsPairAt(raw, k);
      var m := IndexOfKey(d, KeyOf(raw[k]));
      RecurringMember(raw, d[m]);
      var i := IndexOfRow(r, d[m]);
      KeyIn(r, i);
    }
  }
}
