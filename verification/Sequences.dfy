/** List comprehensions and positions in a sequence. */
module Sequences {

  /** `[f(r) for r in rows if p(r)]`. */
  function Picked<R, T>(rows: seq<R>, p: R -> bool, f: R -> T): seq<T> {
    if rows == [] then []
    else Picked(rows[..|rows| - 1], p, f) + if p(rows[|rows| - 1]) then [f(rows[|rows| - 1])] else []
  }

  /** `[r for r in rows if p(r)]`. */
  function Where<R>(rows: seq<R>, p: R -> bool): seq<R> { Picked(rows, p, Itself()) }

  function Itself<R>(): R -> R { (r: R) => r }

  lemma SplitLast<T>(xs: seq<T>)
    requires xs != []
    ensures xs == xs[..|xs| - 1] + [xs[|xs| - 1]]
  {
  }

  lemma {:induction false} PickedAre<R, T>(rows: seq<R>, p: R -> bool, f: R -> T)
    ensures forall x :: x in Picked(rows, p, f) <==> exists r :: r in rows && p(r) && f(r) == x
  {
    if rows != [] {
      PickedAre(rows[..|rows| - 1], p, f);
      SplitLast(rows);
    }
  }

  lemma WhereAre<R>(rows: seq<R>, p: R -> bool)
    ensures forall r :: r in Where(rows, p) <==> r in rows && p(r)
  {
    PickedAre(rows, p, Itself());
  }

  lemma PickedNext<R, T>(rows: seq<R>, i: nat, p: R -> bool, f: R -> T)
    requires i < |rows|
    ensures Picked(rows[..i + 1], p, f) == Picked(rows[..i], p, f) + if p(rows[i]) then [f(rows[i])] else []
    ensures i + 1 == |rows| ==> Picked(rows[..i + 1], p, f) == Picked(rows, p, f)
  {
    assert rows[..i + 1][..i] == rows[..i];
    assert i + 1 == |rows| ==> rows[..i + 1] == rows;
  }

  lemma WhereNext<R>(rows: seq<R>, i: nat, p: R -> bool)
    requires i < |rows|
    ensures Where(rows[..i + 1], p) == Where(rows[..i], p) + if p(rows[i]) then [rows[i]] else []
  {
    PickedNext(rows, i, p, Itself());
  }

  lemma WhereLast<R>(rows: seq<R>, p: R -> bool)
    requires rows != []
    ensures Where(rows, p) == Where(rows[..|rows| - 1], p) + if p(rows[|rows| - 1]) then [rows[|rows| - 1]] else []
  {
  }

  lemma WhereFrom<R>(rows: seq<R>, p: R -> bool) returns (at: seq<nat>)
    ensures |at| == |Where(rows, p)| && Increasing(at)
    ensures forall i :: 0 <= i < |at| ==> at[i] < |rows| && p(rows[at[i]]) && Where(rows, p)[i] == rows[at[i]]
  {
    at := PickedFrom(rows, p, Itself());
  }

  lemma {:induction false} WhereAll<R>(rows: seq<R>, p: R -> bool)
    requires forall r :: r in rows ==> p(r)
    ensures Where(rows, p) == rows
  {
    if rows != [] {
      WhereAll(rows[..|rows| - 1], p);
      SplitLast(rows);
    }
  }

  lemma {:induction false} WhereTwice<R>(rows: seq<R>, p: R -> bool, q: R -> bool, both: R -> bool)
    requires forall r :: both(r) <==> p(r) && q(r)
    ensures Where(Where(rows, p), q) == Where(rows, both)
  {
    if rows != [] {
      var front, r := rows[..|rows| - 1], rows[|rows| - 1];
      WhereTwice(front, p, q, both);
      WhereLast(rows, p);
      WhereLast(rows, both);
      var kept := Where(front, p);
      if p(r) {
        assert (kept + [r])[..|kept|] == kept;
        WhereLast(kept + [r], q);
      } else {
        assert Where(rows, p) == kept;
      }
      assert both(r) <==> p(r) && q(r);
    }
  }

  lemma {:induction false} WhereFirst<R>(r: R, rows: seq<R>, p: R -> bool)
    ensures Where([r] + rows, p) == (if p(r) then [r] else []) + Where(rows, p)
  {
    if rows == [] {
      assert [r] + rows == [r] && [r][..0] == [];
      assert Where([], p) == [];
      WhereLast([r], p);
    } else {
      var front, last := rows[..|rows| - 1], rows[|rows| - 1];
      WhereFirst(r, front, p);
      assert ([r] + rows)[..|rows|] == [r] + front;
      WhereLast([r] + rows, p);
      WhereLast(rows, p);
    }
  }

  ghost predicate Increasing(at: seq<nat>) { forall i, j :: 0 <= i < j < |at| ==> at[i] < at[j] }

  /** `at` says where in the rows each element of `ys` comes from; no row that passes is left out. */
  ghost predicate Sources<R, T>(rows: seq<R>, p: R -> bool, f: R -> T, ys: seq<T>, at: seq<nat>) {
    && |at| == |ys| && Increasing(at)
    && (forall i :: 0 <= i < |at| ==> at[i] < |rows| && p(rows[at[i]]) && ys[i] == f(rows[at[i]]))
    && (forall k :: 0 <= k < |rows| && p(rows[k]) ==> k in at)
  }

  lemma SourcesOneMore<R, T>(rows: seq<R>, r: R, p: R -> bool, f: R -> T, ys: seq<T>, at: seq<nat>)
    requires Sources(rows, p, f, ys, at)
    ensures if p(r) then Sources(rows + [r], p, f, ys + [f(r)], at + [|rows|]) else Sources(rows + [r], p, f, ys, at)
  {
    if p(r) { assert (at + [|rows|])[|at|] == |rows|; }
  }

  /** Picking keeps the order of the rows. */
  lemma {:induction false} PickedFrom<R, T>(rows: seq<R>, p: R -> bool, f: R -> T) returns (at: seq<nat>)
    ensures Sources(rows, p, f, Picked(rows, p, f), at)
  {
    if rows == [] {
      at := [];
    } else {
      var front, r := rows[..|rows| - 1], rows[|rows| - 1];
      at := PickedFrom(front, p, f);
      SourcesOneMore(front, r, p, f, Picked(front, p, f), at);
      SplitLast(rows);
      if p(r) { at := at + [|front|]; }
    }
  }

  /** The place of the first `x`, or the length. */
  function Rank(xs: seq<string>, x: string): (r: nat)
    ensures r <= |xs| && (r < |xs| ==> xs[r] == x)
    ensures forall i :: 0 <= i < r ==> xs[i] != x
    ensures x in xs ==> r < |xs|
  {
    if xs == [] || xs[0] == x then 0
    else
      assert xs == [xs[0]] + xs[1..];
      1 + Rank(xs[1..], x)
  }

  lemma SubsetCount<T>(a: set<T>, b: set<T>)
    requires a <= b
    ensures |a| <= |b| && |b - a| == |b| - |a|
  {
    assert b == a + (b - a);
  }

  /** No two elements have the same key. */
  ghost predicate DistinctBy<T>(xs: seq<T>, key: T -> string) {
    forall i, j :: 0 <= i < j < |xs| ==> key(xs[i]) != key(xs[j])
  }

  lemma PickedDistinct<R, T>(rows: seq<R>, p: R -> bool, f: R -> T, key: T -> string)
    requires forall i, j :: 0 <= i < j < |rows| ==> key(f(rows[i])) != key(f(rows[j]))
    ensures DistinctBy(Picked(rows, p, f), key)
  {
    var at := PickedFrom(rows, p, f);
  }

  lemma ConcatDistinct<T>(xs: seq<T>, ys: seq<T>, key: T -> string)
    requires DistinctBy(xs, key) && DistinctBy(ys, key)
    requires forall x, y :: x in xs && y in ys ==> key(x) != key(y)
    ensures DistinctBy(xs + ys, key)
  {
    forall i, j | 0 <= i < |xs| && 0 <= j < |ys| ensures key(xs[i]) != key(ys[j]) {
      assert xs[i] in xs && ys[j] in ys;
    }
  }
}
