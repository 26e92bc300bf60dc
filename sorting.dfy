/** Ordering entries by a string key, newest first, as the renderers do with
    `sort.Slice(entries, func(i, j int) bool { return a[i].CreatedAt > a[j].CreatedAt })`
    and `sorted(entries, key=..., reverse=True)`. The model's sort is a
    stable insertion sort: "sorted and a permutation" is all Go's unstable
    `sort.Slice` promises, and stability is what Python's `sorted` adds. */
module Sorting {
  import opened Text

  /** Non-increasing by key: no later element has a larger key. */
  ghost predicate SortedDesc<T>(s: seq<T>, key: T -> string) {
    forall i, j :: 0 <= i < j < |s| ==> !StrLess(key(s[i]), key(s[j]))
  }

  /** Every element of `s` has a key no larger than `k`. */
  ghost predicate AllAtMost<T>(k: string, s: seq<T>, key: T -> string) {
    forall y :: y in s ==> !StrLess(k, key(y))
  }

  /** "Not less" on strings is transitive. */
  lemma AtLeastTransitive(a: string, b: string, c: string)
    requires !StrLess(a, b) && !StrLess(b, c)
    ensures !StrLess(a, c)
  {
    StrLessTotal(a, b);
    StrLessTotal(b, c);
    if a != b && b != c {
      StrLessTransitive(c, b, a);
      StrLessAsymmetric(c, a);
    }
  }

  /** "Not less" both ways means equal. */
  lemma AtLeastAntisymmetric(a: string, b: string)
    requires !StrLess(a, b) && !StrLess(b, a)
    ensures a == b
  {
    StrLessTotal(a, b);
  }

  lemma SortedCons<T>(x: T, s: seq<T>, key: T -> string)
    requires SortedDesc(s, key) && AllAtMost(key(x), s, key)
    ensures SortedDesc([x] + s, key)
  {
    var r := [x] + s;
    forall i, j | 0 <= i < j < |r| ensures !StrLess(key(r[i]), key(r[j])) {
      if i == 0 {
        assert r[j] == s[j - 1] && r[j] in s;
      } else {
        assert r[i] == s[i - 1] && r[j] == s[j - 1];
      }
    }
  }

  /** Puts `x` in front of the first element whose key is not larger. */
  function InsertDesc<T(==)>(x: T, s: seq<T>, key: T -> string): (r: seq<T>)
    ensures multiset(r) == multiset(s) + multiset{x}
  {
    if s == [] then [x]
    else if !StrLess(key(x), key(s[0])) then [x] + s
    else
      assert s == [s[0]] + s[1..];
      [s[0]] + InsertDesc(x, s[1..], key)
  }

  /** Insertion sort, newest first; equal keys keep their input order. */
  function SortDesc<T(==)>(s: seq<T>, key: T -> string): (r: seq<T>)
    ensures multiset(r) == multiset(s)
    ensures |r| == |s|
  {
    if s == [] then []
    else
      assert s == [s[0]] + s[1..];
      InsertDesc(s[0], SortDesc(s[1..], key), key)
  }

  /** Two elements with different keys come out newest first. */
  lemma SortDescPair<T>(x: T, y: T, key: T -> string)
    requires StrLess(key(x), key(y))
    ensures SortDesc([x, y], key) == [y, x]
  {
    StrLessAsymmetric(key(x), key(y));
    assert [x, y][1..] == [y] && [y][1..] == [];
    assert SortDesc([y], key) == [y];
    assert InsertDesc(x, [y], key) == [y] + InsertDesc(x, [], key);
  }

  lemma {:induction false} InsertDescSorted<T>(x: T, s: seq<T>, key: T -> string)
    requires SortedDesc(s, key)
    ensures SortedDesc(InsertDesc(x, s, key), key)
    decreases |s|
  {
    if s == [] {
    } else if !StrLess(key(x), key(s[0])) {
      forall y | y in s ensures !StrLess(key(x), key(y)) {
        var k :| 0 <= k < |s| && s[k] == y;
        if k > 0 { AtLeastTransitive(key(x), key(s[0]), key(y)); }
      }
      SortedCons(x, s, key);
    } else {
      var tail := s[1..];
      assert SortedDesc(tail, key) by {
        forall i, j | 0 <= i < j < |tail| ensures !StrLess(key(tail[i]), key(tail[j])) {
          assert tail[i] == s[i + 1] && tail[j] == s[j + 1];
        }
      }
      InsertDescSorted(x, tail, key);
      var ins := InsertDesc(x, tail, key);
      forall y | y in ins ensures !StrLess(key(s[0]), key(y)) {
        assert y in multiset(ins);
        if y == x {
          StrLessAsymmetric(key(x), key(s[0]));
        } else {
          assert y in multiset(tail);
          var k :| 0 <= k < |tail| && tail[k] == y;
          assert s[k + 1] == y;
        }
      }
      SortedCons(s[0], ins, key);
    }
  }

  lemma {:induction false} SortDescSorted<T>(s: seq<T>, key: T -> string)
    ensures SortedDesc(SortDesc(s, key), key)
    decreases |s|
  {
    if s != [] {
      SortDescSorted(s[1..], key);
      InsertDescSorted(s[0], SortDesc(s[1..], key), key);
    }
  }

  /** The elements of `s` whose key is `k`, in their order. */
  function WithKey<T>(s: seq<T>, key: T -> string, k: string): (r: seq<T>)
    ensures |r| <= |s|
  {
    if s == [] then []
    else (if key(s[0]) == k then [s[0]] else []) + WithKey(s[1..], key, k)
  }

  lemma WithKeyCons<T>(y: T, s: seq<T>, key: T -> string, k: string)
    ensures WithKey([y] + s, key, k) == (if key(y) == k then [y] else []) + WithKey(s, key, k)
  {
    assert ([y] + s)[0] == y && ([y] + s)[1..] == s;
  }

  /** Inserting passes only elements with a strictly larger key, so `x`
      comes before every element with its own key and the others of each
      key keep their order. */
  lemma {:induction false} InsertDescWithKey<T>(x: T, s: seq<T>, key: T -> string, k: string)
    ensures WithKey(InsertDesc(x, s, key), key, k)
      == (if key(x) == k then [x] else []) + WithKey(s, key, k)
    decreases |s|
  {
    if s == [] {
      WithKeyCons(x, s, key, k);
    } else if !StrLess(key(x), key(s[0])) {
      WithKeyCons(x, s, key, k);
    } else {
      var own := if key(x) == k then [x] else [];
      var head := if key(s[0]) == k then [s[0]] else [];
      var tail := s[1..];
      assert s == [s[0]] + tail;
      if key(s[0]) == key(x) {
        StrLessIrreflexive(key(x));
      }
      assert head == [] || own == [];
      calc {
        WithKey(InsertDesc(x, s, key), key, k);
        WithKey([s[0]] + InsertDesc(x, tail, key), key, k);
        { WithKeyCons(s[0], InsertDesc(x, tail, key), key, k); }
        head + WithKey(InsertDesc(x, tail, key), key, k);
        { InsertDescWithKey(x, tail, key, k); }
        head + (own + WithKey(tail, key, k));
        own + (head + WithKey(tail, key, k));
        { WithKeyCons(s[0], tail, key, k); }
        own + WithKey(s, key, k);
      }
    }
  }

  /** The sort is stable: the elements with any one key come out in their
      input order. With "sorted" and "a permutation" this fixes the result,
      and it is the order of Python's `sorted(..., reverse=True)`. */
  lemma {:induction false} SortDescStable<T>(s: seq<T>, key: T -> string, k: string)
    ensures WithKey(SortDesc(s, key), key, k) == WithKey(s, key, k)
    decreases |s|
  {
    if s != [] {
      SortDescStable(s[1..], key, k);
      InsertDescWithKey(s[0], SortDesc(s[1..], key), key, k);
    }
  }

  /** The elements of `s` that `keep` accepts, in their order. */
  function Filter<T(==,!new)>(s: seq<T>, keep: T -> bool): (r: seq<T>)
    ensures |r| <= |s|
    ensures forall y :: y in r ==> y in s && keep(y)
  {
    if s == [] then []
    else
      assert s == [s[0]] + s[1..];
      (if keep(s[0]) then [s[0]] else []) + Filter(s[1..], keep)
  }

  /** Each element occurs in the result as often as in the input when
      `keep` accepts it, and not at all otherwise. */
  lemma {:induction false} FilterCount<T(!new)>(s: seq<T>, keep: T -> bool, y: T)
    ensures multiset(Filter(s, keep))[y] == if keep(y) then multiset(s)[y] else 0
    decreases |s|
  {
    if s != [] {
      assert s == [s[0]] + s[1..];
      FilterCount(s[1..], keep, y);
    }
  }

  /** Filtering distributes over concatenation: the kept elements keep
      their relative order. */
  lemma {:induction false} FilterConcat<T(!new)>(a: seq<T>, b: seq<T>, keep: T -> bool)
    ensures Filter(a + b, keep) == Filter(a, keep) + Filter(b, keep)
    decreases |a|
  {
    if a != [] {
      assert (a + b)[0] == a[0] && (a + b)[1..] == a[1..] + b;
      FilterConcat(a[1..], b, keep);
      var head := if keep(a[0]) then [a[0]] else [];
      calc {
        Filter(a + b, keep);
        head + Filter(a[1..] + b, keep);
        head + (Filter(a[1..], keep) + Filter(b, keep));
        (head + Filter(a[1..], keep)) + Filter(b, keep);
      }
    } else {
      assert a + b == b;
    }
  }

  /** Filtering a list with one more element at the end. */
  lemma FilterSnoc<T(!new)>(a: seq<T>, e: T, keep: T -> bool)
    ensures Filter(a + [e], keep) == Filter(a, keep) + (if keep(e) then [e] else [])
  {
    FilterConcat(a, [e], keep);
    assert [e][1..] == [];
  }

  lemma {:induction false} FilterSorted<T(!new)>(s: seq<T>, keep: T -> bool, key: T -> string)
    requires SortedDesc(s, key)
    ensures SortedDesc(Filter(s, keep), key)
    decreases |s|
  {
    if s != [] {
      var tail := s[1..];
      assert SortedDesc(tail, key) by {
        forall i, j | 0 <= i < j < |tail| ensures !StrLess(key(tail[i]), key(tail[j])) {
          assert tail[i] == s[i + 1] && tail[j] == s[j + 1];
        }
      }
      FilterSorted(tail, keep, key);
      if keep(s[0]) {
        var f := Filter(tail, keep);
        forall y | y in f ensures !StrLess(key(s[0]), key(y)) {
          var k :| 0 <= k < |tail| && tail[k] == y;
          assert s[k + 1] == y;
        }
        SortedCons(s[0], f, key);
      }
    }
  }

  /** The largest key of a non-empty sequence: a reference definition,
      independent of sorting. */
  function MaxKey<T(==,!new)>(s: seq<T>, key: T -> string): (m: string)
    requires s != []
    ensures exists k :: 0 <= k < |s| && key(s[k]) == m
    ensures forall y :: y in s ==> !StrLess(m, key(y))
  {
    if |s| == 1 then
      StrLessIrreflexive(key(s[0]));
      key(s[0])
    else
      var rest := MaxKey(s[1..], key);
      var m := if StrLess(key(s[0]), rest) then rest else key(s[0]);
      assert forall y :: y in s ==> y == s[0] || y in s[1..];
      forall y | y in s ensures !StrLess(m, key(y)) {
        if y == s[0] {
          if StrLess(key(s[0]), rest) { StrLessAsymmetric(key(s[0]), rest); }
          else { StrLessIrreflexive(key(s[0])); }
        } else if !StrLess(key(s[0]), rest) {
          AtLeastTransitive(key(s[0]), rest, key(y));
        }
      }
      m
  }

  /** The first element after sorting carries the largest key. */
  lemma SortDescHeadIsMax<T(!new)>(s: seq<T>, key: T -> string)
    requires s != []
    ensures SortDesc(s, key) != [] && key(SortDesc(s, key)[0]) == MaxKey(s, key)
  {
    var r := SortDesc(s, key);
    SortDescSorted(s, key);
    assert r[0] in multiset(s);
    var m := MaxKey(s, key);
    var k :| 0 <= k < |s| && key(s[k]) == m;
    assert s[k] in multiset(r);
    var j :| 0 <= j < |r| && r[j] == s[k];
    if j > 0 { assert !StrLess(key(r[0]), key(r[j])); }
    else { StrLessIrreflexive(m); }
    AtLeastAntisymmetric(key(r[0]), m);
  }

  /** The list without its element at index `i`, the remaining elements in
      their order. */
  function Without<T>(s: seq<T>, i: nat): (r: seq<T>)
    requires i < |s|
    ensures |r| == |s| - 1
  {
    s[..i] + s[i + 1..]
  }

  /** Exactly the one element is gone: the ones before it keep their
      places, the ones after it move up by one, and each is kept as often as
      before. */
  lemma WithoutRemovesOne<T>(s: seq<T>, i: nat)
    requires i < |s|
    ensures forall k :: 0 <= k < i ==> Without(s, i)[k] == s[k]
    ensures forall k :: i <= k < |s| - 1 ==> Without(s, i)[k] == s[k + 1]
    ensures multiset(Without(s, i)) + multiset{s[i]} == multiset(s)
  {
    assert s == s[..i] + [s[i]] + s[i + 1..];
  }

  /** Removing an element before the last one commutes with dropping the
      last one. */
  lemma WithoutBeforeLast<T>(s: seq<T>, i: nat)
    requires i < |s| - 1
    ensures Without(s, i)[..|s| - 2] == Without(s[..|s| - 1], i)
    ensures Without(s, i)[|s| - 2] == s[|s| - 1]
  {
    var n := |s| - 1;
    assert s[..n][..i] == s[..i];
    assert s[..n][i + 1..] == s[i + 1..n];
    assert s[i + 1..] == s[i + 1..n] + [s[n]];
  }

  /** Removing the last element is dropping it. */
  lemma WithoutLast<T>(s: seq<T>)
    requires s != []
    ensures Without(s, |s| - 1) == s[..|s| - 1]
  {
    assert s[|s|..] == [];
  }
}
