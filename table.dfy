/**
 * The compound table and the column and row operations the script applies
 * to it before parsing: dropping the `Color` column, coercing `Band gap`
 * to a number, stripping markup characters from `Chemical formula`,
 * removing rows with a missing field, and cleaning the formula column.
 *
 * A missing cell (pandas' NaN) is `None`.  A band gap after coercion is a
 * value of an opaque type `G`; the coercion itself is the parameter
 * `toNumber`, `None` where the text is not a number.
 */
module Table {
  import opened Wrappers
  import Seqs
  import Formula

  /** A row as read from the CSV file: every cell is text or missing. */
  datatype RawRow = RawRow(
    formula: Option<string>,
    bandGap: Option<string>,
    color: Option<string>,
    others: seq<Option<string>>)

  /** A row without the `Color` column; `B` is the type of the band gap cell. */
  datatype Row<B> = Row(formula: Option<string>, bandGap: Option<B>, others: seq<Option<string>>)

  /** `drop(columns=['Color'])`: every row stays; only the colour cell goes. */
  function DropColor(raw: seq<RawRow>): (rows: seq<Row<string>>)
    ensures |rows| == |raw|
    ensures forall i :: 0 <= i < |raw| ==>
      rows[i].formula == raw[i].formula && rows[i].bandGap == raw[i].bandGap && rows[i].others == raw[i].others
  {
    seq(|raw|, i requires 0 <= i < |raw| => Row(raw[i].formula, raw[i].bandGap, raw[i].others))
  }

  /** The coercion of one band-gap cell: missing stays missing, text that is no number becomes missing. */
  function CoerceCell<G>(cell: Option<string>, toNumber: string -> Option<G>): (r: Option<G>)
    ensures r.Some? ==> cell.Some? && toNumber(cell.value) == r
    ensures cell.Some? && toNumber(cell.value).Some? ==> r == toNumber(cell.value)
  {
    match cell
    case None => None
    case Some(text) => toNumber(text)
  }

  /** `pd.to_numeric(df['Band gap'], errors='coerce')`: only the band-gap column changes, row by row. */
  function CoerceBandGap<G>(rows: seq<Row<string>>, toNumber: string -> Option<G>): (r: seq<Row<G>>)
    ensures |r| == |rows|
    ensures forall i :: 0 <= i < |rows| ==>
      r[i].formula == rows[i].formula && r[i].others == rows[i].others
      && r[i].bandGap == CoerceCell(rows[i].bandGap, toNumber)
  {
    seq(|rows|, i requires 0 <= i < |rows| =>
      Row(rows[i].formula, CoerceCell(rows[i].bandGap, toNumber), rows[i].others))
  }

  /** `df['Chemical formula'].str.replace(r'[$_{}]', '')`: a missing formula stays missing. */
  function StripFormulas<G>(rows: seq<Row<G>>): (r: seq<Row<G>>)
    ensures |r| == |rows|
    ensures forall i :: 0 <= i < |rows| ==>
      r[i].bandGap == rows[i].bandGap && r[i].others == rows[i].others
      && r[i].formula.Some? == rows[i].formula.Some?
    ensures forall i :: 0 <= i < |rows| && rows[i].formula.Some? ==>
      Formula.NoMarkup(r[i].formula.value) && r[i].formula.value == Formula.Strip(rows[i].formula.value)
  {
    seq(|rows|, i requires 0 <= i < |rows| =>
      Row(StripCell(rows[i].formula), rows[i].bandGap, rows[i].others))
  }

  function StripCell(cell: Option<string>): Option<string> {
    match cell
    case None => None
    case Some(f) => Some(Formula.Strip(f))
  }

  /** No field of the row is missing. */
  predicate Complete<G>(row: Row<G>) {
    row.formula.Some? && row.bandGap.Some? && forall k :: 0 <= k < |row.others| ==> row.others[k].Some?
  }

  /** `dropna()`: the rows without a missing field, in their original order. */
  function DropMissing<G>(rows: seq<Row<G>>): (r: seq<Row<G>>)
    ensures |r| <= |rows|
    ensures forall i :: 0 <= i < |r| ==> Complete(r[i]) && r[i] in rows
    ensures forall i :: 0 <= i < |rows| && Complete(rows[i]) ==> rows[i] in r
  {
    Seqs.Filter(rows, (row: Row<G>) => Complete(row))
  }

  /** `df[df['Band gap'].isna()]`: the rows whose band gap is missing. */
  function MissingBandGap<G>(rows: seq<Row<G>>): (r: seq<Row<G>>)
    ensures forall i :: 0 <= i < |r| ==> r[i].bandGap.None? && r[i] in rows
    ensures forall i :: 0 <= i < |rows| && rows[i].bandGap.None? ==> rows[i] in r
  {
    Seqs.Filter(rows, (row: Row<G>) => row.bandGap.None?)
  }

  /** `dropna` keeps the order of the rows: it distributes over consecutive blocks of rows. */
  lemma {:induction false} DropMissingAppend<G>(a: seq<Row<G>>, b: seq<Row<G>>)
    ensures DropMissing(a + b) == DropMissing(a) + DropMissing(b)
  {
    Seqs.FilterAppend(a, b, (row: Row<G>) => Complete(row));
  }

  /** A single row survives `dropna` exactly when it is complete. */
  lemma {:induction false} DropMissingOne<G>(row: Row<G>)
    ensures DropMissing([row]) == if Complete(row) then [row] else []
  {
    assert [row][1..] == [];
  }

  /** After `dropna` no band gap is missing, so the selection of rows with an invalid band gap is empty. */
  lemma {:induction false} InvalidSelectionEmpty<G>(rows: seq<Row<G>>)
    ensures MissingBandGap(DropMissing(rows)) == []
  {
    var kept := DropMissing(rows);
    Seqs.FilterNone(kept, (row: Row<G>) => row.bandGap.None?);
  }

  /** The second `dropna` finds nothing left to drop. */
  lemma {:induction false} SecondDropMissingNoOp<G>(rows: seq<Row<G>>)
    ensures DropMissing(DropMissing(rows)) == DropMissing(rows)
  {
    Seqs.FilterIdempotent(rows, (row: Row<G>) => Complete(row));
  }

  /**
   * `df['Chemical formula'].apply(clean_chemical_formula)`.  The regex
   * substitution raises on a missing cell, so the column must be complete,
   * as it is after `dropna`.
   */
  function CleanFormulas<G>(rows: seq<Row<G>>): (r: seq<Row<G>>)
    requires forall i :: 0 <= i < |rows| ==> rows[i].formula.Some?
    ensures |r| == |rows|
    ensures forall i :: 0 <= i < |rows| ==>
      r[i].bandGap == rows[i].bandGap && r[i].others == rows[i].others
      && r[i].formula == Some(Formula.Clean(rows[i].formula.value))
  {
    seq(|rows|, i requires 0 <= i < |rows| =>
      Row(Some(Formula.Clean(rows[i].formula.value)), rows[i].bandGap, rows[i].others))
  }

  /** Every formula present is free of `$`, as the strip leaves it. */
  ghost predicate FormulasStripped<G>(rows: seq<Row<G>>) {
    forall i :: 0 <= i < |rows| && rows[i].formula.Some? ==> '$' !in rows[i].formula.value
  }

  /** The strip leaves no `$`, and dropping rows keeps that so. */
  lemma {:induction false} StrippedAfterDrop<G>(rows: seq<Row<G>>)
    ensures FormulasStripped(DropMissing(StripFormulas(rows)))
  {
    var s := StripFormulas(rows);
    var d := DropMissing(s);
    forall i | 0 <= i < |d| && d[i].formula.Some? ensures '$' !in d[i].formula.value {
      var j :| 0 <= j < |s| && s[j] == d[i];
      assert '$' !in Formula.Strip(rows[j].formula.value);
    }
  }

  /** On a stripped table `clean_chemical_formula` changes no formula: the application at line 214 is a no-op. */
  lemma {:induction false} CleanFormulasNoOp<G>(rows: seq<Row<G>>)
    requires forall i :: 0 <= i < |rows| ==> rows[i].formula.Some?
    requires FormulasStripped(rows)
    ensures CleanFormulas(rows) == rows
  {
    var r := CleanFormulas(rows);
    forall i | 0 <= i < |rows| ensures r[i] == rows[i] {
      Formula.CleanNoDollar(rows[i].formula.value);
    }
  }

  /** The formula column of a table whose formulas are all present. */
  function FormulaColumn<G>(rows: seq<Row<G>>): (fs: seq<string>)
    requires forall i :: 0 <= i < |rows| ==> rows[i].formula.Some?
    ensures |fs| == |rows| && forall i :: 0 <= i < |rows| ==> Some(fs[i]) == rows[i].formula
  {
    seq(|rows|, i requires 0 <= i < |rows| => rows[i].formula.value)
  }
}
