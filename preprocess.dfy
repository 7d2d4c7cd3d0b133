/**
 * The preprocessing script from the table as read to the element
 * frequency table, in the order the script runs.  The dataframe is a value
 * that each step replaces, as the script rebinds its variables and
 * reassigns whole columns.
 */
module Preprocess {
  import opened Wrappers
  import Table
  import Parsing
  import Frequency
  import Recurring
  import Sorting

  /**
   * The script, step by step.  `toNumber` is `pd.to_numeric` on one cell
   * and `parse` is pymatgen's composition parser.
   */
  method Run<G, E(==, !new)>(raw: seq<Table.RawRow>, toNumber: string -> Option<G>, parse: string -> Option<seq<E>>)
    returns (clean: seq<Table.Row<G>>, invalidBandGap: seq<Table.Row<G>>,
             elementList: seq<E>, failedFormulas: seq<string>, parsedElements: seq<E>,
             elementTable: seq<(E, nat)>, recurring: seq<Table.RawRow>)
    ensures clean == Table.DropMissing(Table.StripFormulas(Table.CoerceBandGap(Table.DropColor(raw), toNumber)))
    ensures invalidBandGap == []
    ensures forall i :: 0 <= i < |clean| ==> Table.Complete(clean[i]) && '$' !in clean[i].formula.value
    ensures elementList == Parsing.Elements(Table.FormulaColumn(clean), parse)
    ensures failedFormulas == Parsing.Failures(Table.FormulaColumn(clean), parse)
    ensures parsedElements == elementList
    ensures elementTable == Frequency.SortedTable(elementList)
    ensures forall i, j :: 0 <= i < j < |elementTable| ==> elementTable[i].1 >= elementTable[j].1
    ensures recurring == Recurring.RecurringCompounds(raw)
  {
    var read := Table.DropColor(raw);
    // the band-gap column changes type here, so the frame gets a new name
    var filtered := Table.CoerceBandGap(read, toNumber);
    filtered := Table.StripFormulas(filtered);
    var stripped := filtered;
    filtered := Table.DropMissing(filtered);
    invalidBandGap := Table.MissingBandGap(filtered);
    Table.InvalidSelectionEmpty(stripped);
    clean := Table.DropMissing(filtered);
    Table.SecondDropMissingNoOp(stripped);

    recurring := Recurring.RecurringCompounds(raw);

    Table.StrippedAfterDrop(Table.CoerceBandGap(Table.DropColor(raw), toNumber));
    Table.CleanFormulasNoOp(clean);
    clean := Table.CleanFormulas(clean);

    var formulas := Table.FormulaColumn(clean);
    elementList, failedFormulas := Parsing.ParseAndCollect(formulas, parse);
    parsedElements := Parsing.CollectParsed(formulas, parse);
    Parsing.ReparseAgrees(formulas, parse);

    var counts := Frequency.CountElements(elementList);
    elementTable := Sorting.SortBy(counts, Frequency.CountGe);
    Frequency.SortedTableSpec(elementList);
  }
}
