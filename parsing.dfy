/**
 * The two loops that hand formulas to the composition parser.  The parser
 * (pymatgen's `Composition(formula).elements`) is the parameter `parse`:
 * the elements of the formula when it parses, `None` where it raises.
 */
module Parsing {
  import opened Wrappers
  import Seqs
  import Formula

  /** What one formula adds to the element list: its elements when it parses, nothing when it fails. */
  function Contribution<E>(f: string, parse: string -> Option<seq<E>>): (r: seq<E>)
    ensures parse(f).None? ==> r == []
    ensures parse(f).Some? ==> r == parse(f).value
  {
    match parse(f)
    case Some(elements) => elements
    case None => []
  }

  /** `element_list` once the loop has visited the formulas `fs`, in row order. */
  function Elements<E>(fs: seq<string>, parse: string -> Option<seq<E>>): (r: seq<E>)
    ensures (forall i :: 0 <= i < |fs| ==> parse(fs[i]).None?) ==> r == []
  {
    if fs == [] then [] else Elements(fs[..|fs| - 1], parse) + Contribution(fs[|fs| - 1], parse)
  }

  /** `failed_formulas` once the loop has visited `fs`: the formulas that fail, in row order. */
  function Failures<E>(fs: seq<string>, parse: string -> Option<seq<E>>): (r: seq<string>)
    ensures forall i :: 0 <= i < |r| ==> parse(r[i]).None? && r[i] in fs
    ensures forall i :: 0 <= i < |fs| && parse(fs[i]).None? ==> fs[i] in r
  {
    Seqs.Filter(fs, (f: string) => parse(f).None?)
  }

  /** The formulas that parse, in row order. */
  function Successes<E>(fs: seq<string>, parse: string -> Option<seq<E>>): (r: seq<string>)
    ensures forall i :: 0 <= i < |r| ==> parse(r[i]).Some? && r[i] in fs
    ensures forall i :: 0 <= i < |fs| && parse(fs[i]).Some? ==> fs[i] in r
  {
    Seqs.Filter(fs, (f: string) => parse(f).Some?)
  }

  /**
   * The loop over the cleaned table: a formula that parses extends
   * `element_list` with its elements, one that fails is appended to
   * `failed_formulas`, and the loop goes on with the next row either way.
   */
  method ParseAndCollect<E>(formulas: seq<string>, parse: string -> Option<seq<E>>)
    returns (elementList: seq<E>, failedFormulas: seq<string>)
    ensures elementList == Elements(formulas, parse)
    ensures failedFormulas == Failures(formulas, parse)
  {
    elementList := [];
    failedFormulas := [];
    var i := 0;
    while i < |formulas|
      invariant 0 <= i <= |formulas|
      invariant elementList == Elements(formulas[..i], parse)
      invariant failedFormulas == Failures(formulas[..i], parse)
    {
      var formula := formulas[i];
      assert formulas[..i + 1] == formulas[..i] + [formula];
      assert formulas[..i + 1][..i] == formulas[..i];
      FailuresAppendOne(formulas[..i], formula, parse);
      match parse(formula) {
        case Some(elements) =>
          elementList := elementList + elements;
        case None =>
          failedFormulas := failedFormulas + [formula];
      }
      i := i + 1;
    }
    assert formulas[..i] == formulas;
  }

  lemma {:induction false} FailuresAppendOne<E>(fs: seq<string>, f: string, parse: string -> Option<seq<E>>)
    ensures Failures(fs + [f], parse) == Failures(fs, parse) + (if parse(f).None? then [f] else [])
  {
    Seqs.FilterAppend(fs, [f], (g: string) => parse(g).None?);
    assert [f][1..] == [];
  }

  /** Rows are handled independently: the element list of two blocks of rows is the two lists one after the other. */
  lemma {:induction false} ElementsAppend<E>(a: seq<string>, b: seq<string>, parse: string -> Option<seq<E>>)
    ensures Elements(a + b, parse) == Elements(a, parse) + Elements(b, parse)
    decreases |b|
  {
    if b == [] {
      assert a + b == a;
    } else {
      var c := b[..|b| - 1];
      assert (a + b)[..|a + b| - 1] == a + c;
      assert (a + b)[|a + b| - 1] == b[|b| - 1];
      ElementsAppend(a, c, parse);
      Seqs.AppendAssoc(Elements(a, parse), Elements(c, parse), Contribution(b[|b| - 1], parse));
    }
  }

  lemma {:induction false} ElementsAppendOne<E>(fs: seq<string>, f: string, parse: string -> Option<seq<E>>)
    ensures Elements(fs + [f], parse) == Elements(fs, parse) + Contribution(f, parse)
  {
    assert (fs + [f])[..|fs|] == fs;
  }

  /**
   * Each row has exactly one outcome: a row that parses contributes its
   * elements and is not listed as failed; a row that fails contributes no
   * element and is listed, after the failures of the rows before it and
   * before those of the rows after it.
   */
  lemma {:induction false} RowOutcome<E>(fs: seq<string>, i: nat, parse: string -> Option<seq<E>>)
    requires i < |fs|
    ensures Elements(fs, parse) == Elements(fs[..i], parse) + Contribution(fs[i], parse) + Elements(fs[i + 1..], parse)
    ensures Failures(fs, parse) == Failures(fs[..i], parse) + (if parse(fs[i]).None? then [fs[i]] else []) + Failures(fs[i + 1..], parse)
  {
    var before, f, after := fs[..i], fs[i], fs[i + 1..];
    assert fs == before + [f] + after;
    ElementsAround(before, f, after, parse);
    FailuresAround(before, f, after, parse);
  }

  lemma {:induction false} ElementsAround<E>(before: seq<string>, f: string, after: seq<string>, parse: string -> Option<seq<E>>)
    ensures Elements(before + [f] + after, parse) == Elements(before, parse) + Contribution(f, parse) + Elements(after, parse)
  {
    calc {
      Elements(before + [f] + after, parse);
      { ElementsAppend(before + [f], after, parse); }
      Elements(before + [f], parse) + Elements(after, parse);
      { ElementsAppendOne(before, f, parse); }
      Elements(before, parse) + Contribution(f, parse) + Elements(after, parse);
    }
  }

  lemma {:induction false} FailuresAround<E>(before: seq<string>, f: string, after: seq<string>, parse: string -> Option<seq<E>>)
    ensures Failures(before + [f] + after, parse) == Failures(before, parse) + (if parse(f).None? then [f] else []) + Failures(after, parse)
  {
    calc {
      Failures(before + [f] + after, parse);
      { Seqs.FilterAppend(before + [f], after, (g: string) => parse(g).None?); }
      Failures(before + [f], parse) + Failures(after, parse);
      { FailuresAppendOne(before, f, parse); }
      Failures(before, parse) + (if parse(f).None? then [f] else []) + Failures(after, parse);
    }
  }

  /** Failing rows contribute nothing: the element list is that of the rows that parse. */
  lemma {:induction false} ElementsOfSuccesses<E>(fs: seq<string>, parse: string -> Option<seq<E>>)
    ensures Elements(fs, parse) == Elements(Successes(fs, parse), parse)
    decreases |fs|
  {
    if fs != [] {
      var init, last := fs[..|fs| - 1], fs[|fs| - 1];
      assert fs == init + [last];
      ElementsOfSuccesses(init, parse);
      Seqs.FilterAppend(init, [last], (f: string) => parse(f).Some?);
      assert [last][1..] == [];
      ElementsAppend(Successes(init, parse), if parse(last).Some? then [last] else [], parse);
      assert [last][..0] == [];
    }
  }

  /** Every row is either a success or a failure. */
  lemma {:induction false} SuccessesAndFailuresPartition<E>(fs: seq<string>, parse: string -> Option<seq<E>>)
    ensures |Successes(fs, parse)| + |Failures(fs, parse)| == |fs|
  {
    if fs != [] {
      SuccessesAndFailuresPartition(fs[1..], parse);
    }
  }

  /** `clean_and_parse_formula`: the bare subscript pass, then the parser; `None` when the parser raises. */
  function CleanAndParse<E>(f: string, parse: string -> Option<seq<E>>): (r: Option<seq<E>>)
    ensures '$' !in f ==> r == parse(f)
  {
    Formula.BarePassNoDollar(f);
    parse(Formula.BarePass(f))
  }

  /** The example of the documentation: `Bi$_{0.85}$Sb$_{0.15}$` is parsed as `Bi0.85Sb0.15`. */
  lemma {:induction false} CleanAndParseDocExample<E>(parse: string -> Option<seq<E>>)
    ensures CleanAndParse("Bi" + Formula.Subscripted("0.85") + "Sb" + Formula.Subscripted("0.15"), parse)
         == parse("Bi" + "0.85" + "Sb" + "0.15")
  {
    var d, e := "0.85", "0.15";
    Formula.BarePassTwoSubscripts("Bi", d, "Sb", e);
    assert "Bi" + Formula.Subscripted(d) + "Sb" + Formula.Subscripted(e)
        == "Bi" + (Formula.Subscripted(d) + ("Sb" + Formula.Subscripted(e)));
    assert "Bi" + d + "Sb" + e == "Bi" + (d + ("Sb" + e));
  }

  /**
   * The second loop: each formula goes through `clean_and_parse_formula`,
   * and `parsed_elements` is extended when the result is a non-empty
   * element list (`if elements:` is false for `None` and for `[]`).
   */
  method CollectParsed<E>(formulas: seq<string>, parse: string -> Option<seq<E>>)
    returns (parsedElements: seq<E>)
    ensures parsedElements == Elements(formulas, (f: string) => CleanAndParse(f, parse))
  {
    parsedElements := [];
    var i := 0;
    while i < |formulas|
      invariant 0 <= i <= |formulas|
      invariant parsedElements == Elements(formulas[..i], (f: string) => CleanAndParse(f, parse))
    {
      var formula := formulas[i];
      assert formulas[..i + 1][..i] == formulas[..i];
      var elements := CleanAndParse(formula, parse);
      if elements.Some? && elements.value != [] {
        parsedElements := parsedElements + elements.value;
      }
      i := i + 1;
    }
    assert formulas[..i] == formulas;
  }

  /** On formulas without `$` (the stripped column) the second loop collects exactly the first loop's element list. */
  lemma {:induction false} ReparseAgrees<E>(fs: seq<string>, parse: string -> Option<seq<E>>)
    requires forall i :: 0 <= i < |fs| ==> '$' !in fs[i]
    ensures Elements(fs, (f: string) => CleanAndParse(f, parse)) == Elements(fs, parse)
    decreases |fs|
  {
    if fs != [] {
      ReparseAgrees(fs[..|fs| - 1], parse);
    }
  }
}
