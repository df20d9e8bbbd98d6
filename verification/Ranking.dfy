/** Python's `sorted(xs, key=..., reverse=True)` and list slicing. */
module Ranking {

  /** Descending by key; equal keys keep their original order. */
  function SortDesc<T>(xs: seq<T>, key: T -> real): (ys: seq<T>)
    ensures |ys| == |xs|
  {
    if xs == [] then [] else Insert(xs[0], SortDesc(xs[1..], key), key)
  }

  function Insert<T>(x: T, ys: seq<T>, key: T -> real): (zs: seq<T>)
    ensures |zs| == |ys| + 1
  {
    if ys == [] || key(ys[0]) <= key(x) then [x] + ys else [ys[0]] + Insert(x, ys[1..], key)
  }

  ghost predicate Descending<T>(ys: seq<T>, key: T -> real) {
    forall i, j :: 0 <= i < j < |ys| ==> key(ys[i]) >= key(ys[j])
  }

  /** The elements with key `t`, in order. */
  ghost function AtKey<T>(xs: seq<T>, key: T -> real, t: real): seq<T> {
    if xs == [] then [] else (if key(xs[0]) == t then [xs[0]] else []) + AtKey(xs[1..], key, t)
  }

  lemma {:induction false} InsertMembers<T>(x: T, ys: seq<T>, key: T -> real)
    ensures multiset(Insert(x, ys, key)) == multiset{x} + multiset(ys)
  {
    if ys == [] || key(ys[0]) <= key(x) {
    } else {
      InsertMembers(x, ys[1..], key);
      assert ys == [ys[0]] + ys[1..];
    }
  }

  lemma {:induction false} InsertDescending<T>(x: T, ys: seq<T>, key: T -> real)
    requires Descending(ys, key)
    ensures Descending(Insert(x, ys, key), key)
  {
    if ys == [] || key(ys[0]) <= key(x) {
    } else {
      InsertDescending(x, ys[1..], key);
      InsertMembers(x, ys[1..], key);
      var zs := Insert(x, ys[1..], key);
      forall z | z in zs ensures key(ys[0]) >= key(z) {
        assert z in multiset(zs);
      }
    }
  }

  lemma {:induction false} InsertStable<T>(x: T, ys: seq<T>, key: T -> real, t: real)
    requires Descending(ys, key)
    ensures AtKey(Insert(x, ys, key), key, t) == AtKey([x] + ys, key, t)
  {
    if ys == [] || key(ys[0]) <= key(x) {
    } else {
      InsertStable(x, ys[1..], key, t);
      assert ([x] + ys)[1..] == ys && ([x] + ys[1..])[1..] == ys[1..];
      assert ([ys[0]] + Insert(x, ys[1..], key))[1..] == Insert(x, ys[1..], key);
    }
  }

  /** The sort is a descending rearrangement that keeps equal keys in order. */
  lemma {:induction false} SortDescSorts<T>(xs: seq<T>, key: T -> real)
    ensures Descending(SortDesc(xs, key), key)
    ensures multiset(SortDesc(xs, key)) == multiset(xs)
    ensures forall t :: AtKey(SortDesc(xs, key), key, t) == AtKey(xs, key, t)
  {
    if xs != [] {
      var ys := SortDesc(xs[1..], key);
      SortDescSorts(xs[1..], key);
      InsertDescending(xs[0], ys, key);
      InsertMembers(xs[0], ys, key);
      assert xs == [xs[0]] + xs[1..];
      forall t ensures AtKey(SortDesc(xs, key), key, t) == AtKey(xs, key, t) {
        InsertStable(xs[0], ys, key, t);
        assert ([xs[0]] + ys)[1..] == ys;
      }
    }
  }

  lemma {:induction false} AtKeyMember<T>(xs: seq<T>, key: T -> real, i: nat)
    requires i < |xs|
    ensures AtKey(xs, key, key(xs[i])) != [] && xs[i] in AtKey(xs, key, key(xs[i]))
  {
    if i > 0 { AtKeyMember(xs[1..], key, i - 1); }
  }

  lemma {:induction false} AtKeySound<T>(xs: seq<T>, key: T -> real, t: real)
    ensures forall x :: x in AtKey(xs, key, t) ==> x in xs && key(x) == t
  {
    if xs != [] { AtKeySound(xs[1..], key, t); }
  }

  lemma SameLargest<T>(ys: seq<T>, zs: seq<T>, key: T -> real)
    requires ys != [] && zs != [] && Descending(ys, key) && Descending(zs, key)
    requires forall t :: AtKey(ys, key, t) == AtKey(zs, key, t)
    ensures key(ys[0]) == key(zs[0]) && ys[0] == zs[0]
  {
    AtKeyMember(ys, key, 0);
    AtKeySound(zs, key, key(ys[0]));
    AtKeyMember(zs, key, 0);
    AtKeySound(ys, key, key(zs[0]));
    assert AtKey(ys, key, key(ys[0]))[0] in zs && AtKey(zs, key, key(zs[0]))[0] in ys;
  }

  lemma AtKeyCons<T>(y: T, ys: seq<T>, key: T -> real, t: real)
    ensures AtKey([y] + ys, key, t) == (if key(y) == t then [y] else []) + AtKey(ys, key, t)
  {
    assert ([y] + ys)[1..] == ys;
  }

  lemma Cancel<T>(p: seq<T>, a: seq<T>, b: seq<T>)
    requires p + a == p + b
    ensures a == b
  {
    assert a == (p + a)[|p|..] && b == (p + b)[|p|..];
  }

  lemma AtKeyTails<T>(y: T, ys: seq<T>, zs: seq<T>, key: T -> real, t: real)
    requires AtKey([y] + ys, key, t) == AtKey([y] + zs, key, t)
    ensures AtKey(ys, key, t) == AtKey(zs, key, t)
  {
    AtKeyCons(y, ys, key, t);
    AtKeyCons(y, zs, key, t);
    Cancel(if key(y) == t then [y] else [], AtKey(ys, key, t), AtKey(zs, key, t));
  }

  /** Those three facts fix the result: no other sequence has them. */
  lemma {:induction false} StableSortUnique<T>(ys: seq<T>, zs: seq<T>, key: T -> real)
    requires |ys| == |zs| && Descending(ys, key) && Descending(zs, key)
    requires forall t :: AtKey(ys, key, t) == AtKey(zs, key, t)
    ensures ys == zs
  {
    if ys != [] {
      SameLargest(ys, zs, key);
      assert ys == [ys[0]] + ys[1..] && zs == [ys[0]] + zs[1..];
      forall t ensures AtKey(ys[1..], key, t) == AtKey(zs[1..], key, t) {
        AtKeyTails(ys[0], ys[1..], zs[1..], key, t);
      }
      StableSortUnique(ys[1..], zs[1..], key);
    }
  }

  ghost predicate Distinct<T>(xs: seq<T>) {
    forall i, j :: 0 <= i < j < |xs| ==> xs[i] != xs[j]
  }

  ghost predicate Before<T>(xs: seq<T>, a: T, b: T) {
    exists i, j :: 0 <= i < j < |xs| && xs[i] == a && xs[j] == b
  }

  /** Where an element is inserted: after all strictly larger keys. */
  lemma {:induction false} InsertedAt<T>(x: T, ys: seq<T>, key: T -> real) returns (n: nat)
    ensures n <= |ys|
    ensures Insert(x, ys, key)[n] == x
    ensures forall k :: 0 <= k < n ==> Insert(x, ys, key)[k] == ys[k]
    ensures forall k :: n < k <= |ys| ==> Insert(x, ys, key)[k] == ys[k - 1]
    ensures forall i :: 0 <= i < n ==> key(ys[i]) > key(x)
  {
    if ys == [] || key(ys[0]) <= key(x) {
      n := 0;
    } else {
      var m := InsertedAt(x, ys[1..], key);
      n := m + 1;
      var rest := Insert(x, ys[1..], key);
      assert Insert(x, ys, key) == [ys[0]] + rest;
    }
  }

  lemma InsertedAfterLarger<T>(x: T, ys: seq<T>, key: T -> real, a: T, b: T)
    requires Distinct(ys) && x !in ys && Before(Insert(x, ys, key), a, b)
    ensures a != b && (b == x ==> key(a) > key(x))
    ensures if a == x then b in ys else b == x || Before(ys, a, b)
  {
    var n := InsertedAt(x, ys, key);
    var zs := Insert(x, ys, key);
    var i, j :| 0 <= i < j < |zs| && zs[i] == a && zs[j] == b;
    if i != n && j != n {
      assert ys[if i < n then i else i - 1] == a && ys[if j < n then j else j - 1] == b;
    }
  }

  lemma BeforeCons<T>(x: T, rest: seq<T>, a: T, b: T)
    requires (a == x && b in rest) || Before(rest, a, b)
    ensures Before([x] + rest, a, b)
  {
    var xs := [x] + rest;
    if Before(rest, a, b) {
      var i, j :| 0 <= i < j < |rest| && rest[i] == a && rest[j] == b;
      assert xs[i + 1] == a && xs[j + 1] == b;
    } else {
      var j :| 0 <= j < |rest| && rest[j] == b;
      assert xs[0] == a && xs[j + 1] == b;
    }
  }

  lemma SortedRest<T>(xs: seq<T>, key: T -> real)
    requires Distinct(xs) && xs != []
    ensures var ys := SortDesc(xs[1..], key);
            && Distinct(xs[1..]) && Distinct(ys) && xs[0] !in ys && forall y :: y in ys <==> y in xs[1..]
  {
    var rest, ys := xs[1..], SortDesc(xs[1..], key);
    SortDescSorts(rest, key);
    DistinctRearranged(rest, ys);
    assert xs[0] !in rest;
    assert forall y :: y in ys <==> y in multiset(ys);
  }

  /** Of two elements with equal keys, the one that came first still does. */
  lemma {:induction false} SortKeepsTies<T>(xs: seq<T>, key: T -> real, a: T, b: T)
    requires Distinct(xs) && Before(SortDesc(xs, key), a, b) && key(a) == key(b)
    ensures Before(xs, a, b)
  {
    if xs != [] {
      SortedRest(xs, key);
      InsertedAfterLarger(xs[0], SortDesc(xs[1..], key), key, a, b);
      if a != xs[0] { SortKeepsTies(xs[1..], key, a, b); }
      BeforeCons(xs[0], xs[1..], a, b);
      assert xs == [xs[0]] + xs[1..];
    }
  }

  lemma {:induction false} DistinctCounts<T>(xs: seq<T>)
    ensures Distinct(xs) <==> forall x :: x in multiset(xs) ==> multiset(xs)[x] == 1
  {
    if xs != [] {
      var rest := xs[1..];
      assert xs == [xs[0]] + rest;
      DistinctCounts(rest);
      if Distinct(xs) {
        assert xs[0] !in rest;
      } else if Distinct(rest) {
        var i, j :| 0 <= i < j < |xs| && xs[i] == xs[j];
        assert i == 0 && rest[j - 1] == xs[0];
        assert multiset(xs)[xs[0]] >= 2;
      } else {
        var x :| x in multiset(rest) && multiset(rest)[x] != 1;
        assert multiset(xs)[x] >= 2;
      }
    }
  }

  lemma DistinctRearranged<T>(xs: seq<T>, ys: seq<T>)
    requires Distinct(xs) && multiset(ys) == multiset(xs)
    ensures Distinct(ys)
  {
    DistinctCounts(xs);
    DistinctCounts(ys);
  }

  lemma {:induction false} SortSameKeys<T>(xs: seq<T>, k1: T -> real, k2: T -> real)
    requires forall x :: x in xs ==> k1(x) == k2(x)
    ensures SortDesc(xs, k1) == SortDesc(xs, k2)
  {
    if xs != [] {
      SortSameKeys(xs[1..], k1, k2);
      SortDescSorts(xs[1..], k1);
      assert forall y :: y in SortDesc(xs[1..], k1) ==> y in multiset(xs[1..]);
      InsertSameKeys(xs[0], SortDesc(xs[1..], k1), k1, k2);
    }
  }

  lemma {:induction false} InsertSameKeys<T>(x: T, ys: seq<T>, k1: T -> real, k2: T -> real)
    requires k1(x) == k2(x) && forall y :: y in ys ==> k1(y) == k2(y)
    ensures Insert(x, ys, k1) == Insert(x, ys, k2)
  {
    if ys != [] { InsertSameKeys(x, ys[1..], k1, k2); }
  }

  /** Python's `xs[:n]`: a negative bound counts from the end. */
  function Slice<T>(xs: seq<T>, n: int): (ys: seq<T>)
    ensures ys <= xs
    ensures 0 <= n ==> |ys| == if n <= |xs| then n else |xs|
  {
    if n >= |xs| then xs
    else if n >= 0 then xs[..n]
    else if |xs| + n >= 0 then xs[..|xs| + n]
    else []
  }
}
