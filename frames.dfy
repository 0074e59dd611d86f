/** Sequence operations standing for the pandas idioms both dashboards are
    built from: boolean-mask selection (`df[mask]`, `df.query(...)`),
    `Series.unique()` and "the first row such that" (`iloc[0]`,
    `groupby(...).first()`). A data frame is a sequence of rows in index
    order. */
module Frames {

  datatype Option<T> = None | Some(value: T)

  /** The rows of `s` that `keep` admits, in their original order. */
  function Where<T>(s: seq<T>, keep: T -> bool): seq<T>
  {
    if s == [] then []
    else (if keep(s[0]) then [s[0]] else []) + Where(s[1..], keep)
  }

  /** Selection keeps every admitted row exactly as often as it occurs, and
      no other row: the result is the input with the rejected rows removed. */
  lemma {:induction false} WhereCounts<T>(s: seq<T>, keep: T -> bool, x: T)
    ensures multiset(Where(s, keep))[x] == if keep(x) then multiset(s)[x] else 0
  {
    if s != [] {
      WhereCounts(s[1..], keep, x);
      assert s == [s[0]] + s[1..];
    }
  }

  lemma WhereMembership<T>(s: seq<T>, keep: T -> bool, x: T)
    ensures x in Where(s, keep) <==> x in s && keep(x)
  {
    WhereCounts(s, keep, x);
    assert x in Where(s, keep) <==> x in multiset(Where(s, keep));
    assert x in s <==> x in multiset(s);
  }

  /** Every row of a selection is admitted, and every admitted row of the
      input is in the selection. */
  lemma WhereCharacterized<T>(s: seq<T>, keep: T -> bool)
    ensures forall x :: x in Where(s, keep) <==> x in s && keep(x)
  {
    forall x ensures x in Where(s, keep) <==> x in s && keep(x) {
      WhereMembership(s, keep, x);
    }
  }

  lemma {:induction false} WhereLength<T>(s: seq<T>, keep: T -> bool)
    ensures |Where(s, keep)| <= |s|
  {
    if s != [] {
      WhereLength(s[1..], keep);
    }
  }

  /** Selecting again with the same mask changes nothing. */
  lemma {:induction false} WhereIdempotent<T>(s: seq<T>, keep: T -> bool)
    ensures Where(Where(s, keep), keep) == Where(s, keep)
  {
    if s != [] {
      WhereIdempotent(s[1..], keep);
      WhereAppend(if keep(s[0]) then [s[0]] else [], Where(s[1..], keep), keep);
    }
  }

  /** Two masks that agree on every row of `s` select the same rows. */
  lemma {:induction false} WhereCongruent<T>(s: seq<T>, p: T -> bool, q: T -> bool)
    requires forall i :: 0 <= i < |s| ==> p(s[i]) == q(s[i])
    ensures Where(s, p) == Where(s, q)
  {
    if s != [] {
      WhereCongruent(s[1..], p, q);
    }
  }

  lemma {:induction false} WhereAppend<T>(a: seq<T>, b: seq<T>, keep: T -> bool)
    ensures Where(a + b, keep) == Where(a, keep) + Where(b, keep)
  {
    if a == [] {
      assert a + b == b;
    } else {
      var head := if keep(a[0]) then [a[0]] else [];
      assert (a + b)[0] == a[0];
      assert (a + b)[1..] == a[1..] + b;
      assert Where(a + b, keep) == head + Where(a[1..] + b, keep);
      WhereAppend(a[1..], b, keep);
      assert Where(a, keep) == head + Where(a[1..], keep);
      assert head + (Where(a[1..], keep) + Where(b, keep)) == (head + Where(a[1..], keep)) + Where(b, keep);
    }
  }

  /** The first row of `s` that both `keep` and `also` admit is, in the
      selection by `keep`, the first row that `also` admits: selection keeps
      the rows' order. */
  lemma {:induction false} FirstOfSelection<T>(s: seq<T>, keep: T -> bool, also: T -> bool, i: nat) returns (m: nat)
    requires i < |s| && keep(s[i]) && also(s[i])
    requires forall j :: 0 <= j < i ==> !(keep(s[j]) && also(s[j]))
    ensures m < |Where(s, keep)| && Where(s, keep)[m] == s[i]
    ensures forall j :: 0 <= j < m ==> !also(Where(s, keep)[j])
  {
    var w := Where(s, keep);
    if i == 0 {
      assert w[0] == s[0];
      m := 0;
    } else {
      var rest := Where(s[1..], keep);
      forall j | 0 <= j < i - 1 ensures !(keep(s[1..][j]) && also(s[1..][j])) {
        assert s[1..][j] == s[j + 1];
      }
      var n := FirstOfSelection(s[1..], keep, also, i - 1);
      if keep(s[0]) {
        assert !also(s[0]);
        assert w == [s[0]] + rest;
        m := n + 1;
        assert forall j :: 0 <= j < m ==> !also(w[j]) by {
          forall j | 0 <= j < m ensures !also(w[j]) {
            if j > 0 { assert w[j] == rest[j - 1]; }
          }
        }
      } else {
        assert w == rest;
        m := n;
      }
    }
  }

  /** `a` is `b` with some elements left out, the rest in their order. */
  ghost predicate IsSubsequence<T>(a: seq<T>, b: seq<T>)
  {
    if a == [] then true
    else if b == [] then false
    else if a[0] == b[0] then IsSubsequence(a[1..], b[1..])
    else IsSubsequence(a, b[1..])
  }

  /** A selection keeps the order of the rows it admits. */
  lemma {:induction false} WhereSubsequence<T>(s: seq<T>, keep: T -> bool)
    ensures IsSubsequence(Where(s, keep), s)
  {
    if s != [] {
      WhereSubsequence(s[1..], keep);
      if keep(s[0]) {
        assert Where(s, keep)[1..] == Where(s[1..], keep);
      } else {
        var w := Where(s[1..], keep);
        assert Where(s, keep) == w;
        if w != [] {
          WhereMembership(s[1..], keep, w[0]);
          assert w[0] != s[0];
        }
      }
    }
  }

  /** Position of the first occurrence of `x` in `s`. */
  function FirstIndex<T(==)>(s: seq<T>, x: T): (i: nat)
    requires x in s
    ensures i < |s| && s[i] == x && x !in s[..i]
  {
    if s[0] == x then 0 else 1 + FirstIndex(s[1..], x)
  }

  lemma {:induction false} FirstIndexOfPrefix<T>(s: seq<T>, t: seq<T>, x: T)
    requires x in s
    ensures x in s + t && FirstIndex(s + t, x) == FirstIndex(s, x)
  {
    if s[0] != x {
      assert (s + t)[1..] == s[1..] + t;
      FirstIndexOfPrefix(s[1..], t, x);
    }
  }

  ghost predicate NoDuplicates<T>(s: seq<T>)
  {
    forall i, j :: 0 <= i < j < |s| ==> s[i] != s[j]
  }

  /** `Series.unique()`: each distinct value once, in order of first
      appearance. */
  function Unique<T(==)>(s: seq<T>): (r: seq<T>)
    ensures NoDuplicates(r)
    ensures forall i :: 0 <= i < |r| ==> r[i] in s
    ensures forall i :: 0 <= i < |s| ==> s[i] in r
    ensures forall i, j :: 0 <= i < j < |r| ==> FirstIndex(s, r[i]) < FirstIndex(s, r[j])
  {
    if s == [] then []
    else
      var init := s[..|s| - 1];
      var last := s[|s| - 1];
      var d := Unique(init);
      assert s == init + [last];
      if last in d then
        UniqueSeen(init, last, d);
        d
      else
        UniqueUnseen(init, last, d);
        d + [last]
  }

  /** Appending a value already seen leaves the distinct values as they
      were. */
  lemma UniqueSeen<T>(init: seq<T>, last: T, d: seq<T>)
    requires last in d
    requires forall i :: 0 <= i < |d| ==> d[i] in init
    requires forall i :: 0 <= i < |init| ==> init[i] in d
    requires forall i, j :: 0 <= i < j < |d| ==> FirstIndex(init, d[i]) < FirstIndex(init, d[j])
    ensures forall i :: 0 <= i < |d| ==> d[i] in init + [last]
    ensures forall i :: 0 <= i < |init + [last]| ==> (init + [last])[i] in d
    ensures forall i, j :: 0 <= i < j < |d| ==> FirstIndex(init + [last], d[i]) < FirstIndex(init + [last], d[j])
  {
    var s := init + [last];
    forall i | 0 <= i < |d| ensures FirstIndex(s, d[i]) == FirstIndex(init, d[i]) {
      FirstIndexOfPrefix(init, [last], d[i]);
    }
    forall i | 0 <= i < |s| ensures s[i] in d {
      if i < |init| { assert s[i] == init[i]; }
    }
  }

  /** Appending a new value adds it, last, to the distinct values. */
  lemma UniqueUnseen<T>(init: seq<T>, last: T, d: seq<T>)
    requires last !in d
    requires NoDuplicates(d)
    requires forall i :: 0 <= i < |d| ==> d[i] in init
    requires forall i :: 0 <= i < |init| ==> init[i] in d
    requires forall i, j :: 0 <= i < j < |d| ==> FirstIndex(init, d[i]) < FirstIndex(init, d[j])
    ensures NoDuplicates(d + [last])
    ensures forall i :: 0 <= i < |d + [last]| ==> (d + [last])[i] in init + [last]
    ensures forall i :: 0 <= i < |init + [last]| ==> (init + [last])[i] in d + [last]
    ensures forall i, j :: 0 <= i < j < |d + [last]| ==>
      FirstIndex(init + [last], (d + [last])[i]) < FirstIndex(init + [last], (d + [last])[j])
  {
    var s := init + [last];
    var r := d + [last];
    assert last !in init;
    FirstIndexOfFresh(init, last);
    forall i | 0 <= i < |d| ensures FirstIndex(s, d[i]) == FirstIndex(init, d[i]) < |init| {
      FirstIndexOfPrefix(init, [last], d[i]);
    }
    forall i | 0 <= i < |s| ensures s[i] in r {
      if i < |init| { assert s[i] == init[i]; }
    }
    forall i, j | 0 <= i < j < |r| ensures FirstIndex(s, r[i]) < FirstIndex(s, r[j]) {
      assert r[i] == d[i];
      if j < |d| { assert r[j] == d[j]; }
    }
  }

  /** An element appended after a prefix that lacks it first occurs at the
      end. */
  lemma FirstIndexOfFresh<T>(init: seq<T>, last: T)
    requires last !in init
    ensures last in init + [last] && FirstIndex(init + [last], last) == |init|
  {
    var s := init + [last];
    assert s[|init|] == last;
    assert forall k :: 0 <= k < |init| ==> s[k] == init[k];
  }
}
