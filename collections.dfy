/** The Kotlin collection operations the adapter's colour assignment is built from:
    `Map.get` on a map read as its entries, `sortedByDescending` with a Boolean selector,
    `zip` and `associate`. Each is defined on sequences, with its own contract. */
module Collections {
  import opened Wrappers

  /** No two elements share their image under f. */
  ghost predicate DistinctBy<T, U>(s: seq<T>, f: T -> U) {
    forall i, j :: 0 <= i < j < |s| ==> f(s[i]) != f(s[j])
  }

  /** No element occurs twice. */
  ghost predicate Distinct<T>(s: seq<T>) {
    DistinctBy(s, (x: T) => x)
  }

  /** The entries of a Kotlin map: no key occurs twice. */
  ghost predicate DistinctKeys<K, V>(entries: seq<(K, V)>) {
    DistinctBy(entries, (e: (K, V)) => e.0)
  }

  /** `Map.get`: the value stored under k, if any. */
  function Get<K(==), V>(entries: seq<(K, V)>, k: K): (r: Option<V>)
    ensures r.None? <==> forall i :: 0 <= i < |entries| ==> entries[i].0 != k
    ensures r.Some? ==> exists i :: 0 <= i < |entries| && entries[i] == (k, r.value)
  {
    if entries == [] then None
    else if entries[0].0 == k then Some(entries[0].1)
    else
      var r := Get(entries[1..], k);
      assert r.Some? ==> exists i :: 0 <= i < |entries[1..]| && entries[1..][i] == (k, r.value);
      r
  }

  /** In a map, the value under a present key is the one of its entry. */
  lemma GetEntry<K, V>(entries: seq<(K, V)>, i: nat)
    requires DistinctKeys(entries) && i < |entries|
    ensures Get(entries, entries[i].0) == Some(entries[i].1)
  {
    var r := Get(entries, entries[i].0);
    var j :| 0 <= j < |entries| && entries[j] == (entries[i].0, r.value);
  }

  /** The elements x of s whose key(x) is want, in their original order. */
  function Filter<T>(s: seq<T>, key: T -> bool, want: bool): (r: seq<T>)
    ensures |r| <= |s|
  {
    if s == [] then []
    else (if key(s[0]) == want then [s[0]] else []) + Filter(s[1..], key, want)
  }

  /** Filtering keeps only elements whose key is the one wanted. */
  lemma {:induction false} FilterKeys<T>(s: seq<T>, key: T -> bool, want: bool)
    ensures forall i :: 0 <= i < |Filter(s, key, want)| ==> key(Filter(s, key, want)[i]) == want
  {
    if s != [] {
      FilterKeys(s[1..], key, want);
    }
  }

  /** Filtering keeps only elements of s. */
  lemma {:induction false} FilterMembers<T>(s: seq<T>, key: T -> bool, want: bool)
    ensures forall i :: 0 <= i < |Filter(s, key, want)| ==> Filter(s, key, want)[i] in s
  {
    if s != [] {
      FilterMembers(s[1..], key, want);
      var tail := Filter(s[1..], key, want);
      assert forall i :: 0 <= i < |tail| ==> tail[i] in s[1..];
      assert forall x :: x in s[1..] ==> x in s;
    }
  }

  /** Kotlin's `sortedByDescending` with a Boolean selector: a stable sort that puts every
      element whose key is true before every element whose key is false. */
  function TrueFirst<T>(s: seq<T>, key: T -> bool): (r: seq<T>)
    ensures |r| == |s|
  {
    FilterLength(s, key);
    Filter(s, key, true) + Filter(s, key, false)
  }

  lemma {:induction false} FilterLength<T>(s: seq<T>, key: T -> bool)
    ensures |Filter(s, key, true)| + |Filter(s, key, false)| == |s|
  {
    if s != [] {
      FilterLength(s[1..], key);
    }
  }

  lemma {:induction false} FilterAppend<T>(a: seq<T>, b: seq<T>, key: T -> bool, want: bool)
    ensures Filter(a + b, key, want) == Filter(a, key, want) + Filter(b, key, want)
  {
    if a == [] {
      assert a + b == b;
    } else {
      assert (a + b)[0] == a[0] && (a + b)[1..] == a[1..] + b;
      FilterAppend(a[1..], b, key, want);
      var head := if key(a[0]) == want then [a[0]] else [];
      var fa, fb := Filter(a[1..], key, want), Filter(b, key, want);
      assert Filter(a + b, key, want) == head + (fa + fb);
      assert Filter(a, key, want) == head + fa;
      assert head + (fa + fb) == (head + fa) + fb;
    }
  }

  lemma {:induction false} FilterAll<T>(s: seq<T>, key: T -> bool, want: bool)
    requires forall i :: 0 <= i < |s| ==> key(s[i]) == want
    ensures Filter(s, key, want) == s
  {
    if s != [] {
      FilterAll(s[1..], key, want);
    }
  }

  lemma {:induction false} FilterNone<T>(s: seq<T>, key: T -> bool, want: bool)
    requires forall i :: 0 <= i < |s| ==> key(s[i]) != want
    ensures Filter(s, key, want) == []
  {
    if s != [] {
      FilterNone(s[1..], key, want);
    }
  }

  lemma {:induction false} FilterMultiset<T>(s: seq<T>, key: T -> bool)
    ensures multiset(Filter(s, key, true)) + multiset(Filter(s, key, false)) == multiset(s)
  {
    if s != [] {
      var t, f := Filter(s[1..], key, true), Filter(s[1..], key, false);
      FilterMultiset(s[1..], key);
      assert s == [s[0]] + s[1..];
      assert multiset(s) == multiset{s[0]} + multiset(s[1..]);
      if key(s[0]) {
        assert Filter(s, key, true) == [s[0]] + t && Filter(s, key, false) == f;
      } else {
        assert Filter(s, key, true) == t && Filter(s, key, false) == [s[0]] + f;
      }
    }
  }

  lemma {:induction false} FilterDistinctBy<T, U>(s: seq<T>, key: T -> bool, want: bool, f: T -> U)
    requires DistinctBy(s, f)
    ensures DistinctBy(Filter(s, key, want), f)
  {
    if s != [] {
      var tail := Filter(s[1..], key, want);
      assert DistinctBy(s[1..], f) by {
        forall i, j | 0 <= i < j < |s[1..]| ensures f(s[1..][i]) != f(s[1..][j]) {
          assert s[1..][i] == s[i + 1] && s[1..][j] == s[j + 1];
        }
      }
      FilterDistinctBy(s[1..], key, want, f);
      FilterMembers(s[1..], key, want);
      forall i | 0 <= i < |tail| ensures f(s[0]) != f(tail[i]) {
        var j :| 0 <= j < |s[1..]| && tail[i] == s[1..][j];
        assert tail[i] == s[j + 1];
      }
    }
  }

  /** The stable sort is a permutation. */
  lemma TrueFirstPermutation<T>(s: seq<T>, key: T -> bool)
    ensures multiset(TrueFirst(s, key)) == multiset(s)
  {
    FilterMultiset(s, key);
  }

  /** When some element has key true, the sorted sequence starts with one. */
  lemma TrueFirstHead<T>(s: seq<T>, key: T -> bool, k: nat)
    requires k < |s| && key(s[k])
    ensures |TrueFirst(s, key)| > 0 && key(TrueFirst(s, key)[0])
  {
    FilterAround(s, key, true, k);
    FilterKeys(s[..k], key, true);
    FilterSingleton(s[k], key, true);
  }

  /** Splitting s around position k splits each filtered part the same way. */
  lemma FilterAround<T>(s: seq<T>, key: T -> bool, want: bool, k: nat)
    requires k < |s|
    ensures Filter(s, key, want) == Filter(s[..k], key, want) + Filter([s[k]], key, want) + Filter(s[k + 1..], key, want)
  {
    assert s == s[..k] + [s[k]] + s[k + 1..];
    FilterAppend(s[..k] + [s[k]], s[k + 1..], key, want);
    FilterAppend(s[..k], [s[k]], key, want);
  }

  lemma FilterSingleton<T>(x: T, key: T -> bool, want: bool)
    ensures Filter([x], key, want) == if key(x) == want then [x] else []
  {
    assert [x][1..] == [];
  }

  /** When exactly one element has key true, sorting moves it to the front and keeps
      the rest in their original order. */
  lemma TrueFirstSingle<T>(s: seq<T>, key: T -> bool, k: nat)
    requires k < |s| && key(s[k])
    requires forall j :: 0 <= j < |s| && j != k ==> !key(s[j])
    ensures TrueFirst(s, key) == [s[k]] + s[..k] + s[k + 1..]
  {
    FilterOnlyOne(s, key, k);
    FilterAllButOne(s, key, k);
  }

  lemma FilterOnlyOne<T>(s: seq<T>, key: T -> bool, k: nat)
    requires k < |s| && key(s[k])
    requires forall j :: 0 <= j < |s| && j != k ==> !key(s[j])
    ensures Filter(s, key, true) == [s[k]]
  {
    FilterAround(s, key, true, k);
    FilterSingleton(s[k], key, true);
    FilterAroundNone(s, key, k);
    assert [] + [s[k]] + [] == [s[k]];
  }

  lemma FilterAllButOne<T>(s: seq<T>, key: T -> bool, k: nat)
    requires k < |s| && key(s[k])
    requires forall j :: 0 <= j < |s| && j != k ==> !key(s[j])
    ensures Filter(s, key, false) == s[..k] + s[k + 1..]
  {
    FilterAround(s, key, false, k);
    FilterSingleton(s[k], key, false);
    FilterAroundAll(s, key, k);
    assert s[..k] + [] == s[..k];
  }

  lemma FilterAroundNone<T>(s: seq<T>, key: T -> bool, k: nat)
    requires k < |s|
    requires forall j :: 0 <= j < |s| && j != k ==> !key(s[j])
    ensures Filter(s[..k], key, true) == [] && Filter(s[k + 1..], key, true) == []
  {
    var before, after := s[..k], s[k + 1..];
    assert forall j :: 0 <= j < |before| ==> before[j] == s[j];
    assert forall j :: 0 <= j < |after| ==> after[j] == s[k + 1 + j];
    FilterNone(before, key, true);
    FilterNone(after, key, true);
  }

  lemma FilterAroundAll<T>(s: seq<T>, key: T -> bool, k: nat)
    requires k < |s|
    requires forall j :: 0 <= j < |s| && j != k ==> !key(s[j])
    ensures Filter(s[..k], key, false) == s[..k] && Filter(s[k + 1..], key, false) == s[k + 1..]
  {
    var before, after := s[..k], s[k + 1..];
    assert forall j :: 0 <= j < |before| ==> before[j] == s[j];
    assert forall j :: 0 <= j < |after| ==> after[j] == s[k + 1 + j];
    FilterAll(before, key, false);
    FilterAll(after, key, false);
  }

  /** When no element has key true, sorting changes nothing. */
  lemma TrueFirstNone<T>(s: seq<T>, key: T -> bool)
    requires forall j :: 0 <= j < |s| ==> !key(s[j])
    ensures TrueFirst(s, key) == s
  {
    FilterNone(s, key, true);
    FilterAll(s, key, false);
  }

  /** Sorting keeps elements apart that were apart. */
  lemma TrueFirstDistinctBy<T, U>(s: seq<T>, key: T -> bool, f: T -> U)
    requires DistinctBy(s, f)
    ensures DistinctBy(TrueFirst(s, key), f)
  {
    var a, b := Filter(s, key, true), Filter(s, key, false);
    FilterDistinctBy(s, key, true, f);
    FilterDistinctBy(s, key, false, f);
    FilterPartsApart(s, key, f);
    var r := a + b;
    forall i, j | 0 <= i < j < |r| ensures f(r[i]) != f(r[j]) {
      if j < |a| {
        assert r[i] == a[i] && r[j] == a[j];
      } else if i >= |a| {
        assert r[i] == b[i - |a|] && r[j] == b[j - |a|];
      } else {
        assert r[i] == a[i] && r[j] == b[j - |a|];
        assert f(a[i]) != f(b[j - |a|]);
      }
    }
  }

  /** An element kept for key true and one kept for key false are apart. */
  lemma FilterPartsApart<T, U>(s: seq<T>, key: T -> bool, f: T -> U)
    requires DistinctBy(s, f)
    ensures forall i, j :: 0 <= i < |Filter(s, key, true)| && 0 <= j < |Filter(s, key, false)| ==>
      f(Filter(s, key, true)[i]) != f(Filter(s, key, false)[j])
  {
    var a, b := Filter(s, key, true), Filter(s, key, false);
    FilterMembers(s, key, true);
    FilterMembers(s, key, false);
    FilterKeys(s, key, true);
    FilterKeys(s, key, false);
    forall i, j | 0 <= i < |a| && 0 <= j < |b| ensures f(a[i]) != f(b[j]) {
      var i' :| 0 <= i' < |s| && a[i] == s[i'];
      var j' :| 0 <= j' < |s| && b[j] == s[j'];
      assert i' != j' by { assert key(a[i]) != key(b[j]); }
    }
  }

  /** `zip`: pairs up the elements at equal positions, as many as the shorter sequence has. */
  function Zip<A, B>(a: seq<A>, b: seq<B>): (r: seq<(A, B)>)
    ensures |r| == if |a| < |b| then |a| else |b|
    ensures forall i :: 0 <= i < |r| ==> r[i] == (a[i], b[i])
  {
    if a == [] || b == [] then [] else [(a[0], b[0])] + Zip(a[1..], b[1..])
  }

  /** `associate`: a map from the pairs' first components to their second components;
      when a key occurs more than once, the last pair for it wins. */
  function Associate<K(==), V>(ps: seq<(K, V)>): (m: map<K, V>)
    ensures m.Keys == set i | 0 <= i < |ps| :: ps[i].0
  {
    if ps == [] then map[]
    else
      var init := ps[..|ps| - 1];
      assert forall i :: 0 <= i < |init| ==> init[i] == ps[i];
      Associate(init)[ps[|ps| - 1].0 := ps[|ps| - 1].1]
  }

  /** The last pair for a key decides its value. */
  lemma {:induction false} AssociateLast<K, V>(ps: seq<(K, V)>, i: nat)
    requires i < |ps|
    requires forall j :: i < j < |ps| ==> ps[j].0 != ps[i].0
    ensures ps[i].0 in Associate(ps) && Associate(ps)[ps[i].0] == ps[i].1
  {
    if i < |ps| - 1 {
      var init := ps[..|ps| - 1];
      AssociateLast(init, i);
    }
  }

  /** Every value of the map comes from a pair with its key. */
  lemma {:induction false} AssociateValue<K, V>(ps: seq<(K, V)>, k: K)
    requires k in Associate(ps)
    ensures exists i :: 0 <= i < |ps| && ps[i] == (k, Associate(ps)[k])
  {
    var n := |ps| - 1;
    if ps[n].0 != k {
      var init := ps[..n];
      AssociateValue(init, k);
      var i :| 0 <= i < |init| && init[i] == (k, Associate(init)[k]);
      assert ps[i] == init[i];
    }
  }

  /** Pairs with distinct values give a map that never sends two keys to one value. */
  lemma AssociateInjective<K, V>(ps: seq<(K, V)>)
    requires DistinctBy(ps, (p: (K, V)) => p.1)
    ensures var m := Associate(ps);
      forall k1, k2 :: k1 in m && k2 in m && k1 != k2 ==> m[k1] != m[k2]
  {
    var m := Associate(ps);
    forall k1, k2 | k1 in m && k2 in m && k1 != k2 ensures m[k1] != m[k2] {
      AssociateValue(ps, k1);
      AssociateValue(ps, k2);
      var i :| 0 <= i < |ps| && ps[i] == (k1, m[k1]);
      var j :| 0 <= j < |ps| && ps[j] == (k2, m[k2]);
      if i < j {
        assert ps[i].1 != ps[j].1;
      } else {
        assert i != j;
        assert ps[j].1 != ps[i].1;
      }
    }
  }
}
