/** Sorting loaded JARs by file name, ignoring case, the way
    `jarFiles.sort((f1, f2) -> f1.getFileName().compareToIgnoreCase(f2.getFileName()))`
    does: `List.sort` is a stable sort, so JARs with names that are equal up to
    case keep the order in which they were loaded. */
module JarSort {
  import opened JavaStrings
  import opened JarModel

  /** The comparator of the source, as "x may come before y". */
  predicate NameLe(x: JarFile, y: JarFile) {
    CompareToIgnoreCase(x.fileName, y.fileName) <= 0
  }

  /** The sort key: two JARs compare equal exactly when their keys agree. */
  function Key(x: JarFile): string {
    Fold(x.fileName)
  }

  predicate SortedByName(s: seq<JarFile>) {
    forall i, j :: 0 <= i < j < |s| ==> NameLe(s[i], s[j])
  }

  /** Inserts `x` behind every element that does not compare greater than it. */
  function InsertByName(s: seq<JarFile>, x: JarFile): seq<JarFile>
  {
    if |s| == 0 then [x]
    else if NameLe(s[|s| - 1], x) then s + [x]
    else InsertByName(s[..|s| - 1], x) + [s[|s| - 1]]
  }

  /** The stable sort by case-insensitive file name (insertion sort). */
  function SortByName(s: seq<JarFile>): seq<JarFile>
  {
    if |s| == 0 then [] else InsertByName(SortByName(s[..|s| - 1]), s[|s| - 1])
  }

  lemma {:induction false} InsertByNamePermutation(s: seq<JarFile>, x: JarFile)
    ensures multiset(InsertByName(s, x)) == multiset(s) + multiset{x}
  {
    if |s| > 0 && !NameLe(s[|s| - 1], x) {
      InsertByNamePermutation(s[..|s| - 1], x);
      assert s == s[..|s| - 1] + [s[|s| - 1]];
    }
  }

  /** The sort neither loses nor invents JARs. */
  lemma {:induction false} SortByNamePermutation(s: seq<JarFile>)
    ensures multiset(SortByName(s)) == multiset(s)
  {
    if |s| > 0 {
      var init, last := s[..|s| - 1], s[|s| - 1];
      SortByNameSnoc(s);
      SortByNamePermutation(init);
      InsertByNamePermutation(SortByName(init), last);
      MultisetSnoc(s);
    }
  }

  lemma SortByNameSnoc(s: seq<JarFile>)
    requires |s| > 0
    ensures SortByName(s) == InsertByName(SortByName(s[..|s| - 1]), s[|s| - 1])
  {
  }

  lemma MultisetSnoc(s: seq<JarFile>)
    requires |s| > 0
    ensures multiset(s) == multiset(s[..|s| - 1]) + multiset{s[|s| - 1]}
  {
    assert s == s[..|s| - 1] + [s[|s| - 1]];
  }

  /** The JARs of `s` whose key is `k`, in their order in `s`. */
  function KeyFilter(s: seq<JarFile>, k: string): seq<JarFile>
  {
    if |s| == 0 then []
    else KeyFilter(s[..|s| - 1], k) + (if Key(s[|s| - 1]) == k then [s[|s| - 1]] else [])
  }

  /** `t` lists the JARs of each key in the same order as `s` does. */
  ghost predicate SameKeyOrder(t: seq<JarFile>, s: seq<JarFile>) {
    forall k :: KeyFilter(t, k) == KeyFilter(s, k)
  }

  lemma NameLeTotal(x: JarFile, y: JarFile)
    ensures NameLe(x, y) || NameLe(y, x)
  {
    CompareToIgnoreCaseAntisymmetric(x.fileName, y.fileName);
  }

  lemma NameLeBoth(x: JarFile, y: JarFile)
    requires NameLe(x, y) && NameLe(y, x)
    ensures Key(x) == Key(y)
  {
    CompareToIgnoreCaseAntisymmetric(x.fileName, y.fileName);
    CompareToIgnoreCaseZero(x.fileName, y.fileName);
  }

  lemma NotNameLeKeys(x: JarFile, y: JarFile)
    requires !NameLe(x, y)
    ensures Key(x) != Key(y)
  {
    CompareToIgnoreCaseZero(x.fileName, y.fileName);
  }

  lemma NameLeTransitive(x: JarFile, y: JarFile, z: JarFile)
    requires NameLe(x, y) && NameLe(y, z)
    ensures NameLe(x, z)
  {
    CompareToIgnoreCaseTransitive(x.fileName, y.fileName, z.fileName);
  }

  lemma {:induction false} InsertByNameSorted(s: seq<JarFile>, x: JarFile)
    requires SortedByName(s)
    ensures SortedByName(InsertByName(s, x))
  {
    if |s| == 0 {
    } else if NameLe(s[|s| - 1], x) {
      var r := s + [x];
      forall i, j | 0 <= i < j < |r| ensures NameLe(r[i], r[j]) {
        if j == |s| && i < |s| - 1 {
          NameLeTransitive(s[i], s[|s| - 1], x);
        }
      }
    } else {
      var init, last := s[..|s| - 1], s[|s| - 1];
      assert SortedByName(init);
      InsertByNameSorted(init, x);
      var p := InsertByName(init, x);
      InsertByNamePermutation(init, x);
      NameLeTotal(last, x);
      forall y | y in p ensures NameLe(y, last) {
        assert y in multiset(init) + multiset{x};
        if y != x {
          assert y in init;
          var i :| 0 <= i < |init| && init[i] == y;
          assert s[i] == y;
        }
      }
      var r := p + [last];
      forall i, j | 0 <= i < j < |r| ensures NameLe(r[i], r[j]) {
        if j == |p| {
          assert r[i] in p;
        }
      }
    }
  }

  /** The result of the sort is in non-decreasing case-insensitive order. */
  lemma {:induction false} SortByNameSorted(s: seq<JarFile>)
    ensures SortedByName(SortByName(s))
  {
    if |s| > 0 {
      SortByNameSorted(s[..|s| - 1]);
      InsertByNameSorted(SortByName(s[..|s| - 1]), s[|s| - 1]);
    }
  }

  lemma KeyFilterSnoc(s: seq<JarFile>, x: JarFile, k: string)
    ensures KeyFilter(s + [x], k) == KeyFilter(s, k) + (if Key(x) == k then [x] else [])
    ensures Key(x) != k ==> KeyFilter(s + [x], k) == KeyFilter(s, k)
  {
    assert (s + [x])[..|s|] == s;
    assert KeyFilter(s, k) + [] == KeyFilter(s, k);
  }

  lemma {:induction false} KeyFilterConcat(a: seq<JarFile>, b: seq<JarFile>, k: string)
    ensures KeyFilter(a + b, k) == KeyFilter(a, k) + KeyFilter(b, k)
  {
    if |b| > 0 {
      var bi, bl := b[..|b| - 1], b[|b| - 1];
      assert a + b == (a + bi) + [bl];
      assert b == bi + [bl];
      KeyFilterSnoc(a + bi, bl, k);
      KeyFilterSnoc(bi, bl, k);
      KeyFilterConcat(a, bi, k);
    } else {
      assert a + b == a;
    }
  }

  lemma KeyFilterPastGreater(init: seq<JarFile>, p: seq<JarFile>, last: JarFile, x: JarFile, k: string)
    requires KeyFilter(p, k) == KeyFilter(init + [x], k)
    requires !NameLe(last, x)
    ensures KeyFilter(p + [last], k) == KeyFilter(init + [last] + [x], k)
  {
    KeyFilterSnoc(p, last, k);
    KeyFilterSnoc(init, x, k);
    KeyFilterSnoc(init, last, k);
    KeyFilterSnoc(init + [last], x, k);
    NotNameLeKeys(last, x);
  }

  /** Insertion only moves `x` past elements that compare strictly greater, so it
      never overtakes an element with the same key. */
  lemma {:induction false} InsertByNameKeyFilter(s: seq<JarFile>, x: JarFile, k: string)
    ensures KeyFilter(InsertByName(s, x), k) == KeyFilter(s + [x], k)
  {
    if |s| > 0 && !NameLe(s[|s| - 1], x) {
      var init, last := s[..|s| - 1], s[|s| - 1];
      InsertByNameKeyFilter(init, x, k);
      KeyFilterPastGreater(init, InsertByName(init, x), last, x, k);
      assert s == init + [last];
    }
  }

  /** Stability: among JARs with equal keys the sorted order is the input order. */
  lemma {:induction false} SortByNameStable(s: seq<JarFile>, k: string)
    ensures KeyFilter(SortByName(s), k) == KeyFilter(s, k)
  {
    if |s| > 0 {
      var init, last := s[..|s| - 1], s[|s| - 1];
      SortByNameSnoc(s);
      InsertByNameKeyFilter(SortByName(init), last, k);
      KeyFilterSnoc(SortByName(init), last, k);
      SortByNameStable(init, k);
    }
  }

  lemma {:induction false} SortedLast(u: seq<JarFile>, y: JarFile)
    requires SortedByName(u) && y in u
    ensures NameLe(y, u[|u| - 1])
  {
    var i :| 0 <= i < |u| && u[i] == y;
    if i == |u| - 1 {
      NameLeTotal(y, y);
    }
  }

  lemma {:induction false} KeyFilterMember(s: seq<JarFile>, k: string, x: JarFile)
    requires x in KeyFilter(s, k)
    ensures x in s && Key(x) == k
  {
    if |s| > 0 {
      var init, last := s[..|s| - 1], s[|s| - 1];
      KeyFilterSnoc(init, last, k);
      assert s == init + [last];
      if x in KeyFilter(init, k) {
        KeyFilterMember(init, k, x);
      }
    }
  }

  lemma LastInOwnKeyFilter(s: seq<JarFile>, x: JarFile)
    ensures x in KeyFilter(s + [x], Key(x))
  {
    KeyFilterSnoc(s, x, Key(x));
  }

  lemma SameKeyFiltersDropLast(ti: seq<JarFile>, a: JarFile, ui: seq<JarFile>, b: JarFile)
    requires Key(a) == Key(b)
    requires SameKeyOrder(ti + [a], ui + [b])
    ensures a == b && SameKeyOrder(ti, ui)
  {
    var kk := Key(a);
    KeyFilterSnoc(ti, a, kk);
    KeyFilterSnoc(ui, b, kk);
    var ft, fu := KeyFilter(ti, kk), KeyFilter(ui, kk);
    assert ft + [a] == fu + [b];
    assert (ft + [a])[|ft|] == a;
    assert a == b;
    assert ft == (ft + [a])[..|ft|] && fu == (fu + [b])[..|fu|];
    assert ft == fu;
    forall k ensures KeyFilter(ti, k) == KeyFilter(ui, k) {
      if k != kk {
        assert KeyFilter(ti + [a], k) == KeyFilter(ui + [b], k);
        KeyFilterSnoc(ti, a, k);
        KeyFilterSnoc(ui, b, k);
      } else {
        assert KeyFilter(ti, k) == ft;
      }
    }
  }

  /** Two sorted sequences with the same per-key subsequences are equal. */
  lemma {:induction false} SortedKeyFiltersDetermine(t: seq<JarFile>, u: seq<JarFile>)
    requires SortedByName(t) && SortedByName(u)
    requires SameKeyOrder(t, u)
    ensures t == u
    decreases |t|
  {
    if |t| == 0 && |u| > 0 {
      var ui, b := u[..|u| - 1], u[|u| - 1];
      assert u == ui + [b];
      LastInOwnKeyFilter(ui, b);
    } else if |t| > 0 && |u| == 0 {
      var ti, a := t[..|t| - 1], t[|t| - 1];
      assert t == ti + [a];
      LastInOwnKeyFilter(ti, a);
    } else if |t| > 0 && |u| > 0 {
      var ti, a := t[..|t| - 1], t[|t| - 1];
      var ui, b := u[..|u| - 1], u[|u| - 1];
      assert t == ti + [a] && u == ui + [b];
      LastInOwnKeyFilter(ti, a);
      LastInOwnKeyFilter(ui, b);
      KeyFilterMember(u, Key(a), a);
      KeyFilterMember(t, Key(b), b);
      SortedLast(u, a);
      SortedLast(t, b);
      NameLeBoth(a, b);
      SameKeyFiltersDropLast(ti, a, ui, b);
      assert SortedByName(ti) && SortedByName(ui);
      SortedKeyFiltersDetermine(ti, ui);
    }
  }

  /** The sorted result keeps the input order among equal keys. */
  lemma SortByNameStableAll(s: seq<JarFile>)
    ensures SameKeyOrder(SortByName(s), s)
  {
    forall k ensures KeyFilter(SortByName(s), k) == KeyFilter(s, k) {
      SortByNameStable(s, k);
    }
  }

  lemma StableSortedIsSortByName(s: seq<JarFile>, t: seq<JarFile>)
    requires SortedByName(t) && SameKeyOrder(t, s)
    ensures t == SortByName(s)
  {
    SortByNameSorted(s);
    SortByNameStableAll(s);
    SortedKeyFiltersDetermine(t, SortByName(s));
  }

  /** `SortByName(s)` is THE stable case-insensitive sort of `s`: a sequence is
      sorted and keeps the input order among equal keys exactly when it is
      `SortByName(s)`. Any stable sort with this comparator gives the same list. */
  lemma StableSortUnique(s: seq<JarFile>, t: seq<JarFile>)
    ensures (SortedByName(t) && SameKeyOrder(t, s)) <==> t == SortByName(s)
  {
    if t == SortByName(s) {
      SortByNameSorted(s);
      forall k ensures KeyFilter(t, k) == KeyFilter(s, k) {
        SortByNameStable(s, k);
      }
    } else if SortedByName(t) && SameKeyOrder(t, s) {
      StableSortedIsSortByName(s, t);
    }
  }

  /** One step of the insertion sort: `a[i]` is moved left past the elements of
      `a[..i]` that compare strictly greater than it. */
  method InsertInPlace(a: array<JarFile>, i: nat)
    requires i < a.Length
    modifies a
    ensures a[..i + 1] == InsertByName(old(a[..i]), old(a[i]))
    ensures a[i + 1..] == old(a[i + 1..])
  {
    var x := a[i];
    ghost var sorted := a[..i];
    var j := i;
    while j > 0 && !NameLe(a[j - 1], x)
      invariant 0 <= j <= i
      invariant forall k :: 0 <= k < j ==> a[k] == sorted[k]
      invariant forall k :: j < k <= i ==> a[k] == sorted[k - 1]
      invariant a[i + 1..] == old(a[i + 1..])
      invariant forall k :: j <= k < i ==> !NameLe(sorted[k], x)
    {
      a[j] := a[j - 1];
      j := j - 1;
    }
    a[j] := x;
    InsertAt(sorted, j, x);
    Shifted(a[..i + 1], sorted, j, x);
  }

  /** A sequence laid out as `s` with `x` put in at position `j`. */
  lemma Shifted(b: seq<JarFile>, s: seq<JarFile>, j: nat, x: JarFile)
    requires j <= |s| && |b| == |s| + 1
    requires forall k :: 0 <= k < j ==> b[k] == s[k]
    requires b[j] == x
    requires forall k :: j < k < |b| ==> b[k] == s[k - 1]
    ensures b == s[..j] + [x] + s[j..]
  {
  }

  /** Where `InsertByName` puts `x`: behind the last element that does not
      compare greater, in front of the greater ones after it. */
  lemma {:induction false} InsertAt(s: seq<JarFile>, j: nat, x: JarFile)
    requires j <= |s|
    requires j > 0 ==> NameLe(s[j - 1], x)
    requires forall k :: j <= k < |s| ==> !NameLe(s[k], x)
    ensures InsertByName(s, x) == s[..j] + [x] + s[j..]
  {
    if j == |s| {
      assert s[..j] == s && s[j..] == [];
    } else {
      var init, last := s[..|s| - 1], s[|s| - 1];
      InsertByNamePastGreater(s, x);
      InsertAt(init, j, x);
      SplitSnoc(s, j, x);
    }
  }

  lemma InsertByNamePastGreater(s: seq<JarFile>, x: JarFile)
    requires |s| > 0 && !NameLe(s[|s| - 1], x)
    ensures InsertByName(s, x) == InsertByName(s[..|s| - 1], x) + [s[|s| - 1]]
  {
  }

  /** Putting `x` in at `j` before the last element commutes with appending that element. */
  lemma SplitSnoc(s: seq<JarFile>, j: nat, x: JarFile)
    requires j < |s|
    ensures s[..j] + [x] + s[j..] == (s[..|s| - 1][..j] + [x] + s[..|s| - 1][j..]) + [s[|s| - 1]]
  {
    var init, last := s[..|s| - 1], s[|s| - 1];
    assert init[..j] == s[..j];
    assert s[j..] == init[j..] + [last];
  }

  /** `List.sort` on the backing array: an in-place insertion sort whose result is
      `SortByName` of the original contents. */
  method SortInPlace(a: array<JarFile>)
    modifies a
    ensures a[..] == SortByName(old(a[..]))
  {
    ghost var s := a[..];
    var i := 0;
    while i < a.Length
      invariant 0 <= i <= a.Length
      invariant a[..i] == SortByName(s[..i])
      invariant a[i..] == s[i..]
    {
      ghost var before := a[..];
      InsertInPlace(a, i);
      SortStep(s, before, a[..], i);
      i := i + 1;
    }
    assert a[..] == a[..a.Length] && s == s[..a.Length];
  }

  /** The insertion-sort invariant carried across one `InsertInPlace` step. */
  lemma SortStep(s: seq<JarFile>, before: seq<JarFile>, after: seq<JarFile>, i: nat)
    requires i < |s| && |before| == |s| && |after| == |s|
    requires before[..i] == SortByName(s[..i]) && before[i..] == s[i..]
    requires after[..i + 1] == InsertByName(before[..i], before[i])
    requires after[i + 1..] == before[i + 1..]
    ensures after[..i + 1] == SortByName(s[..i + 1])
    ensures after[i + 1..] == s[i + 1..]
  {
    assert before[i] == s[i];
    assert s[..i + 1][..i] == s[..i] && s[..i + 1][i] == s[i];
    SortByNameSnoc(s[..i + 1]);
    assert before[i + 1..] == before[i..][1..];
  }
}
