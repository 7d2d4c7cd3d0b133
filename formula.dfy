/**
 * String rewriting of chemical formulas: the character-class strip of the
 * whole formula column and the two subscript substitutions of
 * `clean_chemical_formula`.  A regex substitution scans left to right; at
 * each position it either matches (and resumes after the match) or copies
 * one character.
 */
module Formula {
  import opened Wrappers
  import Seqs

  /** The class `[$_{}]`. */
  predicate IsMarkup(c: char) { c == '$' || c == '_' || c == '{' || c == '}' }

  /** The class `[0-9.]`. */
  predicate IsSubscriptChar(c: char) { '0' <= c <= '9' || c == '.' }

  /** The class `[A-Za-z]`. */
  predicate IsLetter(c: char) { 'A' <= c <= 'Z' || 'a' <= c <= 'z' }

  predicate NoMarkup(s: string) { forall i :: 0 <= i < |s| ==> !IsMarkup(s[i]) }

  // ---------------------------------------------------------------------
  // The strip `str.replace(r'[$_{}]', '')`

  /** Deletes every match of the one-character class `[$_{}]`. */
  function Strip(s: string): (r: string)
    ensures |r| <= |s|
    ensures NoMarkup(r)
  {
    if s == [] then [] else (if IsMarkup(s[0]) then [] else [s[0]]) + Strip(s[1..])
  }

  /** The strip is exactly the deletion of markup characters: every other character stays, in order. */
  lemma {:induction false} StripKeepsOthersInOrder(s: string)
    ensures Strip(s) == Seqs.Filter(s, c => !IsMarkup(c))
  {
    if s != [] {
      StripKeepsOthersInOrder(s[1..]);
    }
  }

  lemma {:induction false} StripAppend(a: string, b: string)
    ensures Strip(a + b) == Strip(a) + Strip(b)
  {
    if a == [] {
      assert a + b == b;
    } else {
      Seqs.AppendTail(a, b);
      StripAppend(a[1..], b);
      Seqs.AppendAssoc(if IsMarkup(a[0]) then [] else [a[0]], Strip(a[1..]), Strip(b));
    }
  }

  /** A string without markup is left as it is. */
  lemma {:induction false} StripNoMarkup(s: string)
    requires NoMarkup(s)
    ensures Strip(s) == s
  {
    if s != [] {
      StripNoMarkup(s[1..]);
    }
  }

  lemma StripIdempotent(s: string)
    ensures Strip(Strip(s)) == Strip(s)
  {
    StripNoMarkup(Strip(s));
  }

  // ---------------------------------------------------------------------
  // The subscript pattern `\$_\{([0-9.]+)\}\$`

  /** The pattern matches at the start of `s` with a group of `n` characters. */
  predicate SubscriptMatch(s: string, n: nat) {
    && 0 < n && n + 5 <= |s|
    && s[0] == '$' && s[1] == '_' && s[2] == '{'
    && (forall i :: 3 <= i < n + 3 ==> IsSubscriptChar(s[i]))
    && s[n + 3] == '}' && s[n + 4] == '$'
  }

  /** Length of the longest prefix of `s` in `[0-9.]`: how far `[0-9.]+` reaches. */
  function SubscriptRun(s: string): (n: nat)
    ensures n <= |s|
  {
    if s != [] && IsSubscriptChar(s[0]) then 1 + SubscriptRun(s[1..]) else 0
  }

  /** The run is the longest prefix of subscript characters: all of it is in the class, the next character is not. */
  lemma {:induction false} SubscriptRunSpec(s: string)
    ensures forall i :: 0 <= i < SubscriptRun(s) ==> IsSubscriptChar(s[i])
    ensures SubscriptRun(s) < |s| ==> !IsSubscriptChar(s[SubscriptRun(s)])
  {
    if s != [] && IsSubscriptChar(s[0]) {
      SubscriptRunSpec(s[1..]);
      forall i | 0 < i < SubscriptRun(s) ensures IsSubscriptChar(s[i]) {
        assert s[i] == s[1..][i - 1];
      }
    }
  }

  /** The group length of the subscript pattern matched at the start of `s`, if it matches there. */
  function SubscriptAt(s: string): (m: Option<nat>)
    ensures m.Some? ==> 0 < m.value && m.value + 5 <= |s|
  {
    if 3 <= |s| && s[0] == '$' && s[1] == '_' && s[2] == '{' then
      var n := SubscriptRun(s[3..]);
      if 0 < n && n + 5 <= |s| && s[n + 3] == '}' && s[n + 4] == '$' then Some(n) else None
    else None
  }

  /** What SubscriptAt finds is a match of the pattern. */
  lemma SubscriptAtSound(s: string)
    ensures SubscriptAt(s).Some? ==> SubscriptMatch(s, SubscriptAt(s).value)
  {
    if SubscriptAt(s).Some? {
      var n := SubscriptAt(s).value;
      SubscriptRunSpec(s[3..]);
      forall i | 3 <= i < n + 3 ensures IsSubscriptChar(s[i]) {
        assert s[i] == s[3..][i - 3];
      }
    }
  }

  /** Whenever the pattern can match at the start of `s`, SubscriptAt finds that match: the match is unique. */
  lemma SubscriptAtComplete(s: string, n: nat)
    requires SubscriptMatch(s, n)
    ensures SubscriptAt(s) == Some(n)
  {
    var t := s[3..];
    assert t[n] == s[n + 3];
    SubscriptRunIs(t, n);
  }

  /** A run of exactly `n` subscript characters, ended by the end of `s` or by another character. */
  lemma {:induction false} SubscriptRunIs(s: string, n: nat)
    requires n <= |s| && forall i :: 0 <= i < n ==> IsSubscriptChar(s[i])
    requires n < |s| ==> !IsSubscriptChar(s[n])
    ensures SubscriptRun(s) == n
  {
    if n > 0 {
      assert s[1..][n - 1..] == s[n..];
      SubscriptRunIs(s[1..], n - 1);
    }
  }

  // ---------------------------------------------------------------------
  // The letter-prefixed pattern `([A-Za-z]+)\$_\{([0-9.]+)\}\$`

  /** The pattern matches at the start of `s` with `k` letters and a group of `n` characters. */
  predicate LetterMatch(s: string, k: nat, n: nat) {
    && 0 < k <= |s|
    && (forall i :: 0 <= i < k ==> IsLetter(s[i]))
    && SubscriptMatch(s[k..], n)
  }

  /** Length of the longest prefix of `s` in `[A-Za-z]`. */
  function LetterRun(s: string): (k: nat)
    ensures k <= |s|
  {
    if s != [] && IsLetter(s[0]) then 1 + LetterRun(s[1..]) else 0
  }

  /** The run is the longest prefix of letters. */
  lemma {:induction false} LetterRunSpec(s: string)
    ensures forall i :: 0 <= i < LetterRun(s) ==> IsLetter(s[i])
    ensures LetterRun(s) < |s| ==> !IsLetter(s[LetterRun(s)])
  {
    if s != [] && IsLetter(s[0]) {
      LetterRunSpec(s[1..]);
      forall i | 0 < i < LetterRun(s) ensures IsLetter(s[i]) {
        assert s[i] == s[1..][i - 1];
      }
    }
  }

  /** A run of exactly `k` letters, ended by the end of `s` or by another character. */
  lemma {:induction false} LetterRunIs(s: string, k: nat)
    requires k <= |s| && forall i :: 0 <= i < k ==> IsLetter(s[i])
    requires k < |s| ==> !IsLetter(s[k])
    ensures LetterRun(s) == k
  {
    if k > 0 {
      assert s[1..][k - 1..] == s[k..];
      LetterRunIs(s[1..], k - 1);
    }
  }

  /** The letter count and group length of the letter-prefixed pattern matched at the start of `s`, if any. */
  function LetterSubscriptAt(s: string): (m: Option<(nat, nat)>)
    ensures m.Some? ==> 0 < m.value.0 && 0 < m.value.1 && m.value.0 + m.value.1 + 5 <= |s|
  {
    var k := LetterRun(s);
    if 0 < k then
      match SubscriptAt(s[k..])
      case Some(n) => Some((k, n))
      case None => None
    else None
  }

  /** What LetterSubscriptAt finds is a match of the pattern. */
  lemma LetterSubscriptAtSound(s: string)
    ensures LetterSubscriptAt(s).Some? ==> LetterMatch(s, LetterSubscriptAt(s).value.0, LetterSubscriptAt(s).value.1)
  {
    LetterRunSpec(s);
    SubscriptAtSound(s[LetterRun(s)..]);
  }

  /** Whenever the letter-prefixed pattern can match at the start of `s`, LetterSubscriptAt finds that match. */
  lemma LetterSubscriptAtComplete(s: string, k: nat, n: nat)
    requires LetterMatch(s, k, n)
    ensures LetterSubscriptAt(s) == Some((k, n))
  {
    assert s[k] == s[k..][0];
    LetterRunIs(s, k);
    SubscriptAtComplete(s[k..], n);
  }

  // ---------------------------------------------------------------------
  // The two passes of clean_chemical_formula

  /**
   * One scanning step of the bare substitution on a non-empty string: the
   * text emitted and the rest still to scan.  At a match the group is
   * emitted and scanning resumes after the match; elsewhere one character
   * is copied.
   */
  function BareStep(s: string): (r: (string, string))
    requires s != []
    ensures |r.1| < |s| && |r.0| + |r.1| <= |s|
  {
    match SubscriptAt(s)
    case Some(n) => (s[3..n + 3], s[n + 5..])
    case None => ([s[0]], s[1..])
  }

  /** `re.sub(r'\$_\{([0-9.]+)\}\$', r'\1', s)`: each bare subscript becomes its digits. */
  function BarePass(s: string): (r: string)
    ensures |r| <= |s|
    decreases |s|
  {
    if s == [] then [] else BareStep(s).0 + BarePass(BareStep(s).1)
  }

  /** One scanning step of the letter-prefixed substitution: letters and group at a match, one character elsewhere. */
  function LetterStep(s: string): (r: (string, string))
    requires s != []
    ensures |r.1| < |s| && |r.0| + |r.1| <= |s|
  {
    match LetterSubscriptAt(s)
    case Some((k, n)) => (s[..k] + s[k + 3..k + n + 3], s[k + n + 5..])
    case None => ([s[0]], s[1..])
  }

  /** `re.sub(r'([A-Za-z]+)\$_\{([0-9.]+)\}\$', r'\1\2', s)`: letters then subscript become letters then digits. */
  function LetterPass(s: string): (r: string)
    ensures |r| <= |s|
    decreases |s|
  {
    if s == [] then [] else LetterStep(s).0 + LetterPass(LetterStep(s).1)
  }

  /** `clean_chemical_formula`: the bare pass, then the letter-prefixed pass; never lengthens the formula. */
  function Clean(s: string): (r: string)
    ensures |r| <= |s|
  {
    LetterPass(BarePass(s))
  }

  // ---------------------------------------------------------------------
  // Properties of the passes

  /** Without a `$` neither pattern can match, so the bare pass is the identity. */
  lemma {:induction false} BarePassNoDollar(s: string)
    ensures '$' !in s ==> BarePass(s) == s
  {
    if s != [] && '$' !in s {
      assert SubscriptAt(s).None?;
      BarePassNoMatch(s);
      BarePassNoDollar(s[1..]);
    }
  }

  lemma {:induction false} LetterPassNoDollar(s: string)
    ensures '$' !in s ==> LetterPass(s) == s
  {
    if s != [] && '$' !in s {
      LetterSubscriptAtSound(s);
      LetterPassNoMatch(s);
      LetterPassNoDollar(s[1..]);
    }
  }

  /** Without letters the letter-prefixed pattern cannot match. */
  lemma {:induction false} LetterPassNoLetter(s: string)
    requires forall i :: 0 <= i < |s| ==> !IsLetter(s[i])
    ensures LetterPass(s) == s
  {
    if s != [] {
      assert LetterRun(s) == 0;
      LetterPassNoMatch(s);
      LetterPassNoLetter(s[1..]);
    }
  }

  /** `clean_chemical_formula` leaves every formula without a `$` unchanged. */
  lemma CleanNoDollar(s: string)
    requires '$' !in s
    ensures Clean(s) == s
  {
    BarePassNoDollar(s);
    LetterPassNoDollar(s);
  }

  /** Applied after the strip (the column is stripped before it is cleaned), the cleaning changes nothing. */
  lemma CleanAfterStrip(s: string)
    ensures Clean(Strip(s)) == Strip(s)
  {
    assert '$' !in Strip(s);
    CleanNoDollar(Strip(s));
  }

  /** Where the subscript pattern matches, the bare pass emits the group and resumes after the match. */
  lemma BarePassAtMatch(s: string, n: nat)
    requires SubscriptMatch(s, n)
    ensures BarePass(s) == s[3..n + 3] + BarePass(s[n + 5..])
  {
    SubscriptAtComplete(s, n);
    assert BareStep(s) == (s[3..n + 3], s[n + 5..]);
  }

  /** Where the letter-prefixed pattern matches, the letter pass emits letters and group and resumes after the match. */
  lemma LetterPassAtMatch(s: string, k: nat, n: nat)
    requires LetterMatch(s, k, n)
    ensures LetterPass(s) == s[..k] + s[k + 3..k + n + 3] + LetterPass(s[k + n + 5..])
  {
    LetterSubscriptAtComplete(s, k, n);
    LetterPassAt(s, k, n);
  }

  lemma LetterPassAt(s: string, k: nat, n: nat)
    requires LetterSubscriptAt(s) == Some((k, n))
    ensures LetterPass(s) == s[..k] + s[k + 3..k + n + 3] + LetterPass(s[k + n + 5..])
  {
    assert LetterStep(s) == (s[..k] + s[k + 3..k + n + 3], s[k + n + 5..]);
  }

  /** The bare pass copies a prefix without `$` and resumes after it. */
  lemma {:induction false} BarePassPrefix(p: string, s: string)
    requires '$' !in p
    ensures BarePass(p + s) == p + BarePass(s)
  {
    if p != [] {
      var t := p + s;
      Seqs.AppendTail(p, s);
      assert SubscriptAt(t).None?;
      BarePassNoMatch(t);
      BarePassPrefix(p[1..], s);
      Seqs.ConsAppend(p, BarePass(s));
    } else {
      assert p + s == s;
    }
  }

  /** The LaTeX subscript markup `$_{d}$` around a group `d`. */
  function Subscripted(d: string): (r: string)
    ensures |r| == |d| + 5
  {
    "$_{" + d + "}$"
  }

  /** `$_{d}$` followed by anything is a subscript match whose group is `d`. */
  lemma SubscriptedMatches(d: string, rest: string)
    requires d != [] && forall i :: 0 <= i < |d| ==> IsSubscriptChar(d[i])
    ensures SubscriptMatch(Subscripted(d) + rest, |d|)
    ensures (Subscripted(d) + rest)[3..|d| + 3] == d
    ensures (Subscripted(d) + rest)[|d| + 5..] == rest
  {
    var t := Subscripted(d) + rest;
    forall i | 3 <= i < |d| + 3 ensures t[i] == d[i - 3] {
    }
  }

  /** The bare pass turns a leading `$_{d}$` into `d`. */
  lemma BarePassSubscripted(d: string, rest: string)
    requires d != [] && forall i :: 0 <= i < |d| ==> IsSubscriptChar(d[i])
    ensures BarePass(Subscripted(d) + rest) == d + BarePass(rest)
  {
    var t := Subscripted(d) + rest;
    SubscriptedMatches(d, rest);
    SubscriptAtComplete(t, |d|);
    assert BareStep(t) == (d, rest);
  }

  /** `L$_{d}$` followed by anything is a letter-prefixed match whose letters are `L` and whose group is `d`. */
  lemma LetterSubscriptedMatches(l: string, d: string, rest: string)
    requires l != [] && forall i :: 0 <= i < |l| ==> IsLetter(l[i])
    requires d != [] && forall i :: 0 <= i < |d| ==> IsSubscriptChar(d[i])
    ensures LetterMatch(l + Subscripted(d) + rest, |l|, |d|)
    ensures (l + Subscripted(d) + rest)[..|l|] == l
    ensures (l + Subscripted(d) + rest)[|l| + 3..|l| + |d| + 3] == d
    ensures (l + Subscripted(d) + rest)[|l| + |d| + 5..] == rest
  {
    var t := l + Subscripted(d) + rest;
    var u := Subscripted(d) + rest;
    assert t == l + u;
    assert t[|l|..] == u;
    SubscriptedMatches(d, rest);
    assert t[|l| + 3..|l| + |d| + 3] == u[3..|d| + 3];
    assert t[|l| + |d| + 5..] == u[|d| + 5..];
  }

  /** The letter pass turns a leading `L$_{d}$` into `Ld`. */
  lemma LetterPassSubscripted(l: string, d: string, rest: string)
    requires l != [] && forall i :: 0 <= i < |l| ==> IsLetter(l[i])
    requires d != [] && forall i :: 0 <= i < |d| ==> IsSubscriptChar(d[i])
    ensures LetterPass(l + Subscripted(d) + rest) == l + d + LetterPass(rest)
  {
    var t := l + Subscripted(d) + rest;
    var k, n := |l|, |d|;
    LetterSubscriptedMatches(l, d, rest);
    LetterSubscriptAtComplete(t, k, n);
    assert LetterStep(t) == (l + d, rest);
  }

  /** A subscript group holds no `$`. */
  lemma SubscriptCharsNoDollar(d: string)
    requires forall i :: 0 <= i < |d| ==> IsSubscriptChar(d[i])
    ensures '$' !in d
  {
    forall i | 0 <= i < |d| ensures d[i] != '$' {
      assert IsSubscriptChar(d[i]);
    }
  }

  /** The bare pass turns a trailing `$_{d}$` after a prefix without `$` into `d`. */
  lemma BarePassTrailingSubscript(p: string, d: string)
    requires '$' !in p
    requires d != [] && forall i :: 0 <= i < |d| ==> IsSubscriptChar(d[i])
    ensures BarePass(p + Subscripted(d)) == p + d
  {
    var m := Subscripted(d);
    BarePassPrefix(p, m);
    assert m == m + [];
    BarePassSubscripted(d, []);
  }

  /** A formula `p$_{d}$` with `p` free of `$` (an element symbol, say) cleans to `pd`. */
  lemma CleanTrailingSubscript(p: string, d: string)
    requires '$' !in p
    requires d != [] && forall i :: 0 <= i < |d| ==> IsSubscriptChar(d[i])
    ensures Clean(p + Subscripted(d)) == p + d
  {
    BarePassTrailingSubscript(p, d);
    SubscriptCharsNoDollar(d);
    assert '$' !in p + d;
    LetterPassNoDollar(p + d);
  }

  /** Stripping a prefix made only of markup removes it. */
  lemma {:induction false} StripSkip(s: string, k: nat)
    requires k <= |s| && forall i :: 0 <= i < k ==> IsMarkup(s[i])
    ensures Strip(s) == Strip(s[k..])
  {
    if k > 0 {
      assert s[1..][k - 1..] == s[k..];
      StripSkip(s[1..], k - 1);
    }
  }

  /** Stripping a string that starts with a subscript match leaves the group and strips the rest. */
  lemma StripAtMatch(s: string, n: nat)
    requires SubscriptMatch(s, n)
    ensures Strip(s) == s[3..n + 3] + Strip(s[n + 5..])
  {
    var g := s[3..n + 3];
    StripSkip(s, 3);
    Seqs.DropSplit(s, 3, n + 3);
    StripAppend(g, s[n + 3..]);
    SubscriptGroupNoMarkup(s, n);
    StripNoMarkup(g);
    Seqs.DropDrop(s, n + 3, 2);
    StripSkip(s[n + 3..], 2);
  }

  /** The group of a subscript match holds no markup. */
  lemma SubscriptGroupNoMarkup(s: string, n: nat)
    requires SubscriptMatch(s, n)
    ensures NoMarkup(s[3..n + 3])
  {
    var g := s[3..n + 3];
    forall i | 0 <= i < |g| ensures !IsMarkup(g[i]) {
      assert g[i] == s[i + 3] && IsSubscriptChar(s[i + 3]);
    }
  }

  lemma StripSingle(c: char)
    ensures Strip([c]) == if IsMarkup(c) then [] else [c]
  {
    assert [c][1..] == [];
  }

  /** Stripping a string that starts with one character. */
  lemma StripCons(s: string)
    requires s != []
    ensures Strip(s) == (if IsMarkup(s[0]) then [] else [s[0]]) + Strip(s[1..])
  {
  }

  /** A scanning step of the bare pass emits a stripped-equivalent of what it consumes. */
  lemma StripBareStep(s: string)
    requires s != []
    ensures Strip(s) == Strip(BareStep(s).0) + Strip(BareStep(s).1)
  {
    match SubscriptAt(s)
    case Some(n) =>
      assert BareStep(s) == (s[3..n + 3], s[n + 5..]);
      SubscriptAtSound(s);
      StripAtMatch(s, n);
      SubscriptGroupNoMarkup(s, n);
      StripNoMarkup(s[3..n + 3]);
    case None =>
      assert BareStep(s) == ([s[0]], s[1..]);
      StripCons(s);
      StripSingle(s[0]);
  }

  /** The strip sees no difference between a formula and its bare-pass rewrite. */
  lemma {:induction false} StripBarePass(s: string)
    ensures Strip(BarePass(s)) == Strip(s)
    decreases |s|
  {
    if s != [] {
      var (out, rest) := BareStep(s);
      StripAppend(out, BarePass(rest));
      StripBarePass(rest);
      StripBareStep(s);
    }
  }

  /** Stripping keeps a prefix of letters. */
  lemma {:induction false} StripLetters(s: string, k: nat)
    requires k <= |s| && forall i :: 0 <= i < k ==> IsLetter(s[i])
    ensures Strip(s) == s[..k] + Strip(s[k..])
  {
    var l, rest := s[..k], s[k..];
    assert NoMarkup(l) by {
      forall i | 0 <= i < k ensures !IsMarkup(l[i]) {
        assert IsLetter(s[i]);
      }
    }
    assert s == l + rest;
    StripAppend(l, rest);
    StripNoMarkup(l);
  }

  /** Stripping a string that starts with a letter-prefixed match leaves the letters, the group and the stripped rest. */
  lemma StripAtLetterMatch(s: string, k: nat, n: nat)
    requires LetterMatch(s, k, n)
    ensures Strip(s) == s[..k] + s[k + 3..k + n + 3] + Strip(s[k + n + 5..])
  {
    StripLetters(s, k);
    StripAtMatch(s[k..], n);
    assert s[k..][3..n + 3] == s[k + 3..k + n + 3];
    assert s[k..][n + 5..] == s[k + n + 5..];
  }

  /** A scanning step of the letter pass emits a stripped-equivalent of what it consumes. */
  lemma StripLetterStep(s: string)
    requires s != []
    ensures Strip(s) == Strip(LetterStep(s).0) + Strip(LetterStep(s).1)
  {
    match LetterSubscriptAt(s)
    case Some((k, n)) =>
      assert LetterStep(s) == (s[..k] + s[k + 3..k + n + 3], s[k + n + 5..]);
      LetterSubscriptAtSound(s);
      StripAtLetterMatch(s, k, n);
      LetterMatchNoMarkup(s, k, n);
      StripNoMarkup(s[..k] + s[k + 3..k + n + 3]);
    case None =>
      assert LetterStep(s) == ([s[0]], s[1..]);
      StripCons(s);
      StripSingle(s[0]);
  }

  /** The letters and the group of a letter-prefixed match hold no markup. */
  lemma LetterMatchNoMarkup(s: string, k: nat, n: nat)
    requires LetterMatch(s, k, n)
    ensures NoMarkup(s[..k] + s[k + 3..k + n + 3])
  {
    var lg := s[..k] + s[k + 3..k + n + 3];
    forall i | 0 <= i < |lg| ensures !IsMarkup(lg[i]) {
      if i < k {
        assert lg[i] == s[i] && IsLetter(s[i]);
      } else {
        assert lg[i] == s[k..][i - k + 3] && IsSubscriptChar(s[k..][i - k + 3]);
      }
    }
  }

  lemma {:induction false} StripLetterPass(s: string)
    ensures Strip(LetterPass(s)) == Strip(s)
    decreases |s|
  {
    if s != [] {
      var (out, rest) := LetterStep(s);
      StripAppend(out, LetterPass(rest));
      StripLetterPass(rest);
      StripLetterStep(s);
    }
  }

  /** `clean_chemical_formula` only deletes markup: stripping its input and its output gives the same string. */
  lemma StripClean(s: string)
    ensures Strip(Clean(s)) == Strip(s)
  {
    StripLetterPass(BarePass(s));
    StripBarePass(s);
  }

  /** The bare pass on `p$_{d}$q$_{e}$`, with `p` and `q` free of `$`. */
  lemma BarePassTwoSubscripts(p: string, d: string, q: string, e: string)
    requires '$' !in p && '$' !in q
    requires d != [] && forall i :: 0 <= i < |d| ==> IsSubscriptChar(d[i])
    requires e != [] && forall i :: 0 <= i < |e| ==> IsSubscriptChar(e[i])
    ensures BarePass(p + (Subscripted(d) + (q + Subscripted(e)))) == p + (d + (q + e))
  {
    var tail := q + Subscripted(e);
    BarePassTrailingSubscript(q, e);
    BarePassSubscripted(d, tail);
    BarePassPrefix(p, Subscripted(d) + tail);
  }

  /** Two element symbols with subscripts, `p$_{d}$q$_{e}$`, clean to `pdqe`. */
  lemma CleanTwoSubscripts(p: string, d: string, q: string, e: string)
    requires '$' !in p && '$' !in q
    requires d != [] && forall i :: 0 <= i < |d| ==> IsSubscriptChar(d[i])
    requires e != [] && forall i :: 0 <= i < |e| ==> IsSubscriptChar(e[i])
    ensures Clean(p + (Subscripted(d) + (q + Subscripted(e)))) == p + (d + (q + e))
  {
    BarePassTwoSubscripts(p, d, q, e);
    SubscriptCharsNoDollar(d);
    SubscriptCharsNoDollar(e);
    LetterPassNoDollar(p + (d + (q + e)));
  }

  /** The example of the function's own documentation: `Bi$_{0.85}$Sb$_{0.15}$` cleans to `Bi0.85Sb0.15`. */
  lemma CleanDocExample()
    ensures Clean("Bi" + Subscripted("0.85") + "Sb" + Subscripted("0.15")) == "Bi" + "0.85" + "Sb" + "0.15"
  {
    var d, e := "0.85", "0.15";
    CleanTwoSubscripts("Bi", d, "Sb", e);
    assert "Bi" + Subscripted(d) + "Sb" + Subscripted(e) == "Bi" + (Subscripted(d) + ("Sb" + Subscripted(e)));
    assert "Bi" + d + "Sb" + e == "Bi" + (d + ("Sb" + e));
  }

  /** An opening `$_{` followed by a `$` is not a match: the bare pass copies it. */
  lemma BarePassOpener(v: string)
    requires v != [] && v[0] == '$'
    ensures BarePass("$_{" + v) == "$_{" + BarePass(v)
  {
    var s := "$_{" + v;
    OpenerNoMatch(v);
    BarePassNoMatch(s);
    OpenerSplit(v);
    OpenerSplit(BarePass(v));
    BarePassPrefix("_{", v);
  }

  /** `$_{w` is `$` followed by `_{w`. */
  lemma OpenerSplit(w: string)
    ensures ("$_{" + w)[0] == '$' && ("$_{" + w)[1..] == "_{" + w
    ensures ['$'] + ("_{" + w) == "$_{" + w
  {
  }

  /** Where the subscript pattern does not match, the bare pass copies one character. */
  lemma BarePassNoMatch(s: string)
    requires s != [] && SubscriptAt(s).None?
    ensures BarePass(s) == [s[0]] + BarePass(s[1..])
  {
    assert BareStep(s) == ([s[0]], s[1..]);
  }

  /** `$_{` followed by `$` is not a subscript match. */
  lemma OpenerNoMatch(v: string)
    requires v != [] && v[0] == '$'
    ensures SubscriptAt("$_{" + v).None?
  {
    var s := "$_{" + v;
    assert s[3..] == v;
    assert SubscriptRun(v) == 0;
  }

  /** A closing `}$` alone is not a match. */
  lemma BarePassCloser()
    ensures BarePass("}$") == "}$"
  {
    BarePassPrefix("}", "$");
  }

  /** `$_{$_{d}$}$`: the outer markup is not a match (a `$` follows `{`), the inner one is. */
  lemma BarePassNested(d: string)
    requires d != [] && forall i :: 0 <= i < |d| ==> IsSubscriptChar(d[i])
    ensures BarePass(Subscripted(Subscripted(d))) == Subscripted(d)
  {
    var inner := Subscripted(d);
    var v := inner + "}$";
    SubscriptedSplit(inner);
    SubscriptedSplit(d);
    BarePassOpener(v);
    BarePassSubscripted(d, "}$");
    BarePassCloser();
  }

  /** Letters followed by something that neither starts with a letter nor matches are copied by the letter pass. */
  lemma {:induction false} LetterPassLettersNoMatch(l: string, u: string)
    requires forall i :: 0 <= i < |l| ==> IsLetter(l[i])
    requires u != [] && !IsLetter(u[0]) && SubscriptAt(u).None?
    ensures LetterPass(l + u) == l + LetterPass(u)
  {
    if l == [] {
      assert l + u == u;
    } else {
      LetterPassLettersStep(l, u);
      LetterPassLettersNoMatch(l[1..], u);
      Seqs.ConsAppend(l, LetterPass(u));
    }
  }

  /** One step of the above: the first letter is copied. */
  lemma LetterPassLettersStep(l: string, u: string)
    requires l != [] && forall i :: 0 <= i < |l| ==> IsLetter(l[i])
    requires u != [] && !IsLetter(u[0]) && SubscriptAt(u).None?
    ensures LetterPass(l + u) == [l[0]] + LetterPass(l[1..] + u)
  {
    var t := l + u;
    assert t[|l|] == u[0];
    LetterRunIs(t, |l|);
    Seqs.AppendDrop(l, u);
    assert LetterSubscriptAt(t).None?;
    LetterPassNoMatch(t);
    Seqs.AppendTail(l, u);
  }

  /** Where the letter-prefixed pattern does not match, the letter pass copies one character. */
  lemma LetterPassNoMatch(s: string)
    requires s != [] && LetterSubscriptAt(s).None?
    ensures LetterPass(s) == [s[0]] + LetterPass(s[1..])
  {
    assert LetterStep(s) == ([s[0]], s[1..]);
  }

  /** The markup `$_{x}$` adds no letter. */
  lemma SubscriptedNoLetter(x: string)
    requires forall i :: 0 <= i < |x| ==> !IsLetter(x[i])
    ensures forall i :: 0 <= i < |Subscripted(x)| ==> !IsLetter(Subscripted(x)[i])
  {
    var u := Subscripted(x);
    forall i | 0 <= i < |u| ensures !IsLetter(u[i]) {
      if i < 3 {
        assert u[i] == "$_{"[i];
      } else if i < |x| + 3 {
        assert u[i] == x[i - 3];
      } else {
        assert u[i] == "}$"[i - |x| - 3];
      }
    }
  }

  /** Letters hold no `$`. */
  lemma LettersNoDollar(l: string)
    requires forall i :: 0 <= i < |l| ==> IsLetter(l[i])
    ensures '$' !in l
  {
    forall i | 0 <= i < |l| ensures l[i] != '$' {
      assert IsLetter(l[i]);
    }
  }

  /** Subscript characters are no letters. */
  lemma SubscriptCharsNoLetter(d: string)
    requires forall i :: 0 <= i < |d| ==> IsSubscriptChar(d[i])
    ensures forall i :: 0 <= i < |d| ==> !IsLetter(d[i])
  {
    forall i | 0 <= i < |d| ensures !IsLetter(d[i]) {
      assert IsSubscriptChar(d[i]);
    }
  }

  /** Nested markup `L$_{$_{d}$}$` cleans to `Ld`: the bare pass leaves a new `L$_{d}$`, which the letter pass removes. */
  lemma CleanNested(l: string, d: string)
    requires l != [] && forall i :: 0 <= i < |l| ==> IsLetter(l[i])
    requires d != [] && forall i :: 0 <= i < |d| ==> IsSubscriptChar(d[i])
    ensures Clean(l + Subscripted(Subscripted(d))) == l + d
  {
    var inner := Subscripted(d);
    LettersNoDollar(l);
    BarePassPrefix(l, Subscripted(inner));
    BarePassNested(d);
    assert l + inner == l + inner + [];
    LetterPassSubscripted(l, d, []);
    assert l + d + LetterPass([]) == l + d;
  }

  /** `$_{x}$` as the opener followed by the rest. */
  lemma SubscriptedSplit(x: string)
    ensures Subscripted(x) == "$_{" + (x + "}$")
  {
  }

  /** The letter pass leaves `L$_{$_{d}$}$` as it is: after the letters comes `$_{$`, which does not match. */
  lemma LetterPassNested(l: string, d: string)
    requires l != [] && forall i :: 0 <= i < |l| ==> IsLetter(l[i])
    requires d != [] && forall i :: 0 <= i < |d| ==> IsSubscriptChar(d[i])
    ensures LetterPass(l + Subscripted(Subscripted(d))) == l + Subscripted(Subscripted(d))
  {
    var inner := Subscripted(d);
    var u := Subscripted(inner);
    OpenerNoMatch(inner + "}$");
    SubscriptedSplit(inner);
    LetterPassLettersNoMatch(l, u);
    SubscriptCharsNoLetter(d);
    SubscriptedNoLetter(d);
    SubscriptedNoLetter(inner);
    LetterPassNoLetter(u);
  }

  /** Running the passes the other way round, letter pass first, would leave `L$_{d}$` behind. */
  lemma PassOrderMatters(l: string, d: string)
    requires l != [] && forall i :: 0 <= i < |l| ==> IsLetter(l[i])
    requires d != [] && forall i :: 0 <= i < |d| ==> IsSubscriptChar(d[i])
    ensures BarePass(LetterPass(l + Subscripted(Subscripted(d)))) == l + Subscripted(d)
    ensures Clean(l + Subscripted(Subscripted(d))) != BarePass(LetterPass(l + Subscripted(Subscripted(d))))
  {
    LetterPassNested(l, d);
    LettersNoDollar(l);
    BarePassPrefix(l, Subscripted(Subscripted(d)));
    BarePassNested(d);
    CleanNested(l, d);
  }
}
