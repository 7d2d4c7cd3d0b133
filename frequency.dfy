/**
 * The element frequency table: `Counter(element_list)`, zipped into
 * (Element, Count) rows and sorted by Count, largest first.
 */
module Frequency {
  import opened Wrappers
  import Seqs
  import Sorting
  import Parsing

  /** The distinct values of `s` in the order of their first occurrence, the key order of a `Counter`. */
  function Distinct<E(==)>(s: seq<E>): seq<E>
  {
    if s == [] then []
    else
      var d := Distinct(s[..|s| - 1]);
      if s[|s| - 1] in d then d else d + [s[|s| - 1]]
  }

  /** The keys are the values of `s`, each once. */
  lemma {:induction false} DistinctSpec<E>(s: seq<E>)
    ensures forall i :: 0 <= i < |Distinct(s)| ==> Distinct(s)[i] in s
    ensures forall i :: 0 <= i < |s| ==> s[i] in Distinct(s)
    ensures forall i, j :: 0 <= i < j < |Distinct(s)| ==> Distinct(s)[i] != Distinct(s)[j]
  {
    if s != [] {
      var init := s[..|s| - 1];
      DistinctSpec(init);
      assert s == init + [s[|s| - 1]];
      forall i | 0 <= i < |s| ensures s[i] in Distinct(s) {
        if i < |s| - 1 {
          assert s[i] == init[i];
        }
      }
    }
  }

  /** One (key, count) row per key, counting the occurrences of the key in `s`. */
  function Tabulate<E(==)>(keys: seq<E>, s: seq<E>): (t: seq<(E, nat)>)
    ensures |t| == |keys|
    ensures forall i :: 0 <= i < |keys| ==> t[i].0 == keys[i] && t[i].1 == multiset(s)[keys[i]]
  {
    seq(|keys|, i requires 0 <= i < |keys| => (keys[i], multiset(s)[keys[i]]))
  }

  /** `list(zip(counter.keys(), counter.values()))` for `Counter(s)`. */
  function CountTable<E(==)>(s: seq<E>): (t: seq<(E, nat)>)
    ensures forall i :: 0 <= i < |t| ==> t[i].0 in s && t[i].1 == multiset(s)[t[i].0] && t[i].1 > 0
    ensures forall k :: 0 <= k < |s| ==> exists i :: 0 <= i < |t| && t[i].0 == s[k]
    ensures forall i, j :: 0 <= i < j < |t| ==> t[i].0 != t[j].0
  {
    DistinctSpec(s);
    var t := Tabulate(Distinct(s), s);
    assert forall k :: 0 <= k < |s| ==> t[IndexOf(Distinct(s), s[k])].0 == s[k];
    t
  }

  function IndexOf<E(==)>(s: seq<E>, x: E): (i: nat)
    requires x in s
    ensures i < |s| && s[i] == x
  {
    if s[0] == x then 0 else 1 + IndexOf(s[1..], x)
  }

  /**
   * `Counter(elements)`, one element at a time: a value seen for the first
   * time becomes a new key with count 1, a known key has its count raised.
   * `keys` records the dictionary's key order.
   */
  method Accumulate<E(==, !new)>(elements: seq<E>) returns (keys: seq<E>, counts: map<E, nat>)
    ensures keys == Distinct(elements)
    ensures counts == Counts(elements)
  {
    keys := [];
    counts := map[];
    var i := 0;
    CountStart(elements);
    while i < |elements|
      invariant 0 <= i <= |elements|
      invariant keys == Distinct(elements[..i])
      invariant counts == Counts(elements[..i])
    {
      var x := elements[i];
      CountStep(elements, i);
      if x in counts {
        counts := counts[x := counts[x] + 1];
      } else {
        keys := keys + [x];
        counts := counts[x := 1];
      }
      i := i + 1;
    }
    assert elements[..i] == elements;
  }

  /** The frequency table: the counter's keys zipped with its counts, in key order. */
  method CountElements<E(==, !new)>(elements: seq<E>) returns (table: seq<(E, nat)>)
    ensures table == CountTable(elements)
  {
    var keys, counts := Accumulate(elements);
    DistinctSpec(elements);
    table := [];
    var j := 0;
    while j < |keys|
      invariant 0 <= j <= |keys|
      invariant table == Tabulate(keys[..j], elements)
    {
      TabulateSnoc(keys, elements, j);
      table := table + [(keys[j], counts[keys[j]])];
      j := j + 1;
    }
    assert keys[..j] == keys;
  }

  /** The counter's dictionary: each value of `s` mapped to its number of occurrences. */
  function Counts<E(==, !new)>(s: seq<E>): map<E, nat>
  {
    map x | x in s :: multiset(s)[x]
  }

  lemma {:induction false} CountsSnoc<E(!new)>(s: seq<E>, x: E)
    ensures x in Counts(s) <==> x in s
    ensures Counts(s + [x]) == if x in s then Counts(s)[x := Counts(s)[x] + 1] else Counts(s)[x := 1]
  {
    assert multiset(s + [x]) == multiset(s) + multiset{x};
  }

  lemma {:induction false} CountStart<E(!new)>(s: seq<E>)
    ensures Distinct(s[..0]) == [] && Counts(s[..0]) == map[]
  {
    assert s[..0] == [];
  }

  /** One step of the counter: the key order and the counts after one more element. */
  lemma {:induction false} CountStep<E(!new)>(s: seq<E>, i: nat)
    requires i < |s|
    ensures s[i] in Counts(s[..i]) ==> Distinct(s[..i + 1]) == Distinct(s[..i]) && Counts(s[..i + 1]) == Counts(s[..i])[s[i] := Counts(s[..i])[s[i]] + 1]
    ensures s[i] !in Counts(s[..i]) ==> Distinct(s[..i + 1]) == Distinct(s[..i]) + [s[i]] && Counts(s[..i + 1]) == Counts(s[..i])[s[i] := 1]
  {
    assert s[..i + 1] == s[..i] + [s[i]];
    DistinctSnoc(s[..i], s[i]);
    CountsSnoc(s[..i], s[i]);
  }

  lemma {:induction false} DistinctSnoc<E>(s: seq<E>, x: E)
    ensures Distinct(s + [x]) == if x in s then Distinct(s) else Distinct(s) + [x]
  {
    assert (s + [x])[..|s|] == s;
    DistinctMembers(s, x);
  }

  lemma {:induction false} DistinctMembers<E>(s: seq<E>, x: E)
    ensures x in Distinct(s) <==> x in s
  {
    DistinctSpec(s);
    if x in s {
      var k :| 0 <= k < |s| && s[k] == x;
    }
    if x in Distinct(s) {
      var k :| 0 <= k < |Distinct(s)| && Distinct(s)[k] == x;
    }
  }

  lemma {:induction false} TabulateSnoc<E>(keys: seq<E>, s: seq<E>, j: nat)
    requires j < |keys|
    ensures Tabulate(keys[..j + 1], s) == Tabulate(keys[..j], s) + [(keys[j], multiset(s)[keys[j]])]
  {
  }

  /** The total of the Count column. */
  function Sum<E>(t: seq<(E, nat)>): nat {
    if t == [] then 0 else t[0].1 + Sum(t[1..])
  }

  lemma {:induction false} TabulateTail<E>(keys: seq<E>, s: seq<E>)
    requires keys != []
    ensures Tabulate(keys, s)[1..] == Tabulate(keys[1..], s)
  {
  }

  lemma {:induction false} SumTabulateEmpty<E>(keys: seq<E>)
    ensures Sum(Tabulate(keys, [])) == 0
    decreases |keys|
  {
    if keys != [] {
      TabulateTail(keys, []);
      SumTabulateEmpty(keys[1..]);
    }
  }

  /** One more element raises the total of distinct keys by one exactly when the element is a key. */
  lemma {:induction false} SumTabulateSnoc<E>(keys: seq<E>, s: seq<E>, x: E)
    requires forall i, j :: 0 <= i < j < |keys| ==> keys[i] != keys[j]
    ensures Sum(Tabulate(keys, s + [x])) == Sum(Tabulate(keys, s)) + (if x in keys then 1 else 0)
    decreases |keys|
  {
    if keys != [] {
      TabulateTail(keys, s + [x]);
      TabulateTail(keys, s);
      SumTabulateSnoc(keys[1..], s, x);
      assert multiset(s + [x]) == multiset(s) + multiset{x};
      if x == keys[0] {
        assert x !in keys[1..] by {
          forall k | 0 <= k < |keys[1..]| ensures keys[1..][k] != x {
            assert keys[1..][k] == keys[k + 1];
          }
        }
      } else {
        assert x in keys[1..] <==> x in keys by {
          assert keys == [keys[0]] + keys[1..];
        }
      }
    }
  }

  lemma {:induction false} SumTabulate<E>(keys: seq<E>, s: seq<E>)
    requires forall i, j :: 0 <= i < j < |keys| ==> keys[i] != keys[j]
    requires forall i :: 0 <= i < |s| ==> s[i] in keys
    ensures Sum(Tabulate(keys, s)) == |s|
    decreases |s|
  {
    if s == [] {
      SumTabulateEmpty(keys);
    } else {
      var init := s[..|s| - 1];
      assert s == init + [s[|s| - 1]];
      SumTabulate(keys, init);
      SumTabulateSnoc(keys, init, s[|s| - 1]);
    }
  }

  /** The counts add up to the length of the element list: every occurrence is counted once. */
  lemma {:induction false} CountsSumToLength<E>(s: seq<E>)
    ensures Sum(CountTable(s)) == |s|
  {
    DistinctSpec(s);
    SumTabulate(Distinct(s), s);
  }

  /** The order of `sort_values(by=["Count"], ascending=False)`. */
  predicate CountGe<E>(a: (E, nat), b: (E, nat)) {
    a.1 >= b.1
  }

  lemma {:induction false} CountGeTotalPreorder<E(!new)>()
    ensures Sorting.TotalPreorder(CountGe<E>)
  {
  }

  /** `element_df_sorted`; pandas does not promise an order among equal counts, this model keeps the counter's order. */
  function SortedTable<E(==)>(s: seq<E>): (r: seq<(E, nat)>)
    ensures multiset(r) == multiset(CountTable(s))
  {
    Sorting.SortBy(CountTable(s), CountGe)
  }

  /** The sorted table has the same rows as the counter's table, with counts never increasing down the table. */
  lemma {:induction false} SortedTableSpec<E(!new)>(s: seq<E>)
    ensures multiset(SortedTable(s)) == multiset(CountTable(s))
    ensures forall i, j :: 0 <= i < j < |SortedTable(s)| ==> SortedTable(s)[i].1 >= SortedTable(s)[j].1
  {
    CountGeTotalPreorder<E>();
    Sorting.SortBySorted(CountTable(s), CountGe);
  }

  /** The rows whose formula parses to a composition containing `x`. */
  function RowsContaining<E(==)>(fs: seq<string>, parse: string -> Option<seq<E>>, x: E): (r: seq<string>)
    ensures forall i :: 0 <= i < |r| ==> parse(r[i]).Some? && x in parse(r[i]).value
  {
    Seqs.Filter(fs, (f: string) => parse(f).Some? && x in parse(f).value)
  }

  lemma {:induction false} ContributionCount<E>(f: string, parse: string -> Option<seq<E>>, x: E)
    requires parse(f).Some? ==> Seqs.NoDuplicates(parse(f).value)
    ensures multiset(Parsing.Contribution(f, parse))[x] == if parse(f).Some? && x in parse(f).value then 1 else 0
  {
    if parse(f).Some? {
      Seqs.NoDuplicatesOccursOnce(parse(f).value, x);
    }
  }

  /**
   * When a parsed composition lists each of its elements once, the number
   * of occurrences of an element in `element_list` is the number of rows
   * whose formula contains it.
   */
  lemma {:induction false} OccurrencesAreRows<E>(fs: seq<string>, parse: string -> Option<seq<E>>, x: E)
    requires forall i :: 0 <= i < |fs| && parse(fs[i]).Some? ==> Seqs.NoDuplicates(parse(fs[i]).value)
    ensures multiset(Parsing.Elements(fs, parse))[x] == |RowsContaining(fs, parse, x)|
    decreases |fs|
  {
    if fs != [] {
      var init, f := fs[..|fs| - 1], fs[|fs| - 1];
      assert fs == init + [f];
      OccurrencesAreRows(init, parse, x);
      ContributionCount(f, parse, x);
      Seqs.FilterAppend(init, [f], (g: string) => parse(g).Some? && x in parse(g).value);
      assert [f][1..] == [];
    }
  }

  /** Each Count of the counter's table is the number of rows whose composition contains that Element. */
  lemma {:induction false} CountIsRowCount<E>(fs: seq<string>, parse: string -> Option<seq<E>>)
    requires forall i :: 0 <= i < |fs| && parse(fs[i]).Some? ==> Seqs.NoDuplicates(parse(fs[i]).value)
    ensures forall i :: 0 <= i < |CountTable(Parsing.Elements(fs, parse))| ==>
      CountTable(Parsing.Elements(fs, parse))[i].1
        == |RowsContaining(fs, parse, CountTable(Parsing.Elements(fs, parse))[i].0)|
  {
    var t := CountTable(Parsing.Elements(fs, parse));
    forall i | 0 <= i < |t| ensures t[i].1 == |RowsContaining(fs, parse, t[i].0)| {
      OccurrencesAreRows(fs, parse, t[i].0);
    }
  }
}
