/**
 * Ordering of table rows: a stable insertion sort by a caller-given
 * "may precede" relation, and Python's ordering of `str` values.
 */
module Sorting {

  /** `le` is total and transitive, as a sort key comparison is. */
  ghost predicate TotalPreorder<T(!new)>(le: (T, T) -> bool) {
    && (forall a, b :: le(a, b) || le(b, a))
    && (forall a, b, c :: le(a, b) && le(b, c) ==> le(a, c))
  }

  ghost predicate Sorted<T>(s: seq<T>, le: (T, T) -> bool) {
    forall i, j :: 0 <= i < j < |s| ==> le(s[i], s[j])
  }

  /** Puts `x` in front of the first element it may precede. */
  function Insert<T>(x: T, s: seq<T>, le: (T, T) -> bool): (r: seq<T>)
    ensures |r| == |s| + 1
    ensures multiset(r) == multiset(s) + multiset{x}
  {
    if s == [] || le(x, s[0]) then [x] + s
    else
      assert s == [s[0]] + s[1..];
      [s[0]] + Insert(x, s[1..], le)
  }

  /** The rows of `s` ordered by `le`; rows that tie keep their relative order. */
  function SortBy<T>(s: seq<T>, le: (T, T) -> bool): (r: seq<T>)
    ensures multiset(r) == multiset(s)
  {
    if s == [] then []
    else
      assert s == [s[0]] + s[1..];
      Insert(s[0], SortBy(s[1..], le), le)
  }

  /** Sorting keeps exactly the rows it is given. */
  lemma SortByMember<T>(s: seq<T>, le: (T, T) -> bool, x: T)
    ensures x in SortBy(s, le) <==> x in s
  {
    assert x in SortBy(s, le) <==> x in multiset(SortBy(s, le));
  }

  /** The tail of a sorted sequence is sorted. */
  lemma SortedTail<T>(s: seq<T>, le: (T, T) -> bool)
    requires s != [] && Sorted(s, le)
    ensures Sorted(s[1..], le)
  {
    forall i, j | 0 <= i < j < |s[1..]| ensures le(s[1..][i], s[1..][j]) {
      assert s[1..][i] == s[i + 1] && s[1..][j] == s[j + 1];
    }
  }

  /** An element that may precede every element of a sorted sequence can be put in front of it. */
  lemma SortedCons<T>(y: T, t: seq<T>, le: (T, T) -> bool)
    requires Sorted(t, le) && forall z :: z in t ==> le(y, z)
    ensures Sorted([y] + t, le)
  {
    var r := [y] + t;
    forall i, j | 0 <= i < j < |r| ensures le(r[i], r[j]) {
      if i == 0 {
        assert r[j] == t[j - 1] && t[j - 1] in t;
      } else {
        assert r[i] == t[i - 1] && r[j] == t[j - 1];
      }
    }
  }

  /** A total preorder relates every element to itself. */
  lemma Reflexive<T(!new)>(le: (T, T) -> bool, a: T)
    requires TotalPreorder(le)
    ensures le(a, a)
  {
    assert le(a, a) || le(a, a);
  }

  /** The head of a sorted sequence may precede every element of it. */
  lemma SortedHeadFirst<T(!new)>(s: seq<T>, le: (T, T) -> bool)
    requires TotalPreorder(le) && s != [] && Sorted(s, le)
    ensures forall z :: z in s ==> le(s[0], z)
  {
    Reflexive(le, s[0]);
    assert forall j :: 0 <= j < |s| ==> le(s[0], s[j]);
  }

  lemma {:induction false} InsertSorted<T(!new)>(x: T, s: seq<T>, le: (T, T) -> bool)
    requires TotalPreorder(le) && Sorted(s, le)
    ensures Sorted(Insert(x, s, le), le)
  {
    if s == [] {
    } else if le(x, s[0]) {
      SortedHeadFirst(s, le);
      SortedCons(x, s, le);
    } else {
      var t := Insert(x, s[1..], le);
      SortedTail(s, le);
      InsertSorted(x, s[1..], le);
      SortedHeadFirst(s, le);
      forall y | y in t ensures le(s[0], y) {
        assert y in multiset(t);
        if y != x {
          assert y in multiset(s[1..]);
          assert y in s;
        }
      }
      SortedCons(s[0], t, le);
    }
  }

  /** The sort orders its output and keeps exactly its input rows. */
  lemma {:induction false} SortBySorted<T(!new)>(s: seq<T>, le: (T, T) -> bool)
    requires TotalPreorder(le)
    ensures Sorted(SortBy(s, le), le)
    ensures multiset(SortBy(s, le)) == multiset(s)
  {
    if s != [] {
      SortBySorted(s[1..], le);
      InsertSorted(s[0], SortBy(s[1..], le), le);
    }
  }

  /** `apart` holds in both directions or in neither. */
  ghost predicate Symmetric<T(!new)>(apart: (T, T) -> bool) {
    forall a, b :: apart(a, b) ==> apart(b, a)
  }

  lemma {:induction false} InsertPairwise<T(!new)>(x: T, s: seq<T>, le: (T, T) -> bool, apart: (T, T) -> bool)
    requires Symmetric(apart) && Sorted(s, apart)
    requires forall z :: z in s ==> apart(x, z)
    ensures Sorted(Insert(x, s, le), apart)
  {
    if s == [] {
    } else if le(x, s[0]) {
      SortedCons(x, s, apart);
    } else {
      var t := Insert(x, s[1..], le);
      SortedTail(s, apart);
      assert forall z :: z in s[1..] ==> z in s;
      InsertPairwise(x, s[1..], le, apart);
      forall y | y in t ensures apart(s[0], y) {
        assert y in multiset(t);
        if y == x {
          assert apart(x, s[0]);
        } else {
          assert y in multiset(s[1..]);
          var k :| 0 <= k < |s[1..]| && s[1..][k] == y;
          assert s[k + 1] == y;
        }
      }
      SortedCons(s[0], t, apart);
    }
  }

  /**
   * A symmetric relation that holds between every two rows of the input
   * (two rows have different keys, say) holds between every two rows of
   * the sorted output.
   */
  lemma {:induction false} SortByPairwise<T(!new)>(s: seq<T>, le: (T, T) -> bool, apart: (T, T) -> bool)
    requires Symmetric(apart) && Sorted(s, apart)
    ensures Sorted(SortBy(s, le), apart)
  {
    if s != [] {
      var t := SortBy(s[1..], le);
      SortedTail(s, apart);
      SortByPairwise(s[1..], le, apart);
      forall z | z in t ensures apart(s[0], z) {
        assert z in multiset(s[1..]);
        var k :| 0 <= k < |s[1..]| && s[1..][k] == z;
        assert s[k + 1] == z;
      }
      InsertPairwise(s[0], t, le, apart);
    }
  }

  /** Python's ordering of `str`: code point by code point, a proper prefix first. */
  predicate LexLe(a: string, b: string)
  {
    if a == [] then true
    else if b == [] then false
    else if a[0] != b[0] then a[0] < b[0]
    else LexLe(a[1..], b[1..])
  }

  lemma {:induction false} LexLeTotal(a: string, b: string)
    ensures LexLe(a, b) || LexLe(b, a)
  {
    if a != [] && b != [] && a[0] == b[0] {
      LexLeTotal(a[1..], b[1..]);
    }
  }

  lemma {:induction false} LexLeTransitive(a: string, b: string, c: string)
    requires LexLe(a, b) && LexLe(b, c)
    ensures LexLe(a, c)
  {
    if a != [] && b != [] && c != [] && a[0] == b[0] && b[0] == c[0] {
      LexLeTransitive(a[1..], b[1..], c[1..]);
    }
  }

  /** String comparison is a total preorder, so sorting by it is well defined. */
  lemma LexLeTotalPreorder()
    ensures TotalPreorder(LexLe)
  {
    forall a, b ensures LexLe(a, b) || LexLe(b, a) {
      LexLeTotal(a, b);
    }
    forall a, b, c | LexLe(a, b) && LexLe(b, c) ensures LexLe(a, c) {
      LexLeTransitive(a, b, c);
    }
  }
}
