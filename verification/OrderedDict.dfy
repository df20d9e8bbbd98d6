/** Python's insertion-ordered `dict`: overwriting a key keeps its place, a new key goes last. */
module OrderedDict {
  import opened Sequences

  datatype Option<+T> = None | Some(value: T)

  datatype Dict<V> = Dict(order: seq<string>, at: map<string, V>) {

    ghost predicate Valid() {
      && (forall i :: 0 <= i < |order| ==> order[i] in at)
      && (forall k {:trigger k in order} :: k in at ==> k in order)
      && (forall i, j :: 0 <= i < j < |order| ==> order[i] != order[j])
    }

    function Put(k: string, v: V): (d: Dict<V>)
      ensures Valid() ==> d.Valid()
      ensures d.at == at[k := v] && d.at.Keys == at.Keys + {k}
      ensures |d.order| == |order| + (if k in at then 0 else 1)
    {
      Dict(if k in at then order else order + [k], at[k := v])
    }

    function Values(): (vs: seq<V>)
      requires Valid()
      ensures |vs| == |order| && forall i :: 0 <= i < |order| ==> vs[i] == at[order[i]]
    {
      seq(|order|, i requires 0 <= i < |order| => at[order[i]])
    }

    /** `pop(k, None)`: the other keys keep their order. */
    function Remove(k: string): (d: Dict<V>)
      requires Valid()
      ensures d.Valid() && d.at == at - {k} && d.order == Where(order, Outside({k}))
    {
      RemainingIsValid({k});
      Dict(Where(order, Outside({k})), at - {k})
    }

    lemma RemainingIsValid(gone: set<string>)
      requires Valid()
      ensures Dict(Where(order, Outside(gone)), at - gone).Valid()
    {
      WhereAre(order, Outside(gone));
      var from := WhereFrom(order, Outside(gone));
      assert forall i :: 0 <= i < |from| ==> Where(order, Outside(gone))[i] in order;
    }
  }

  function Outside(keys: set<string>): string -> bool { (k: string) => k !in keys }

  function Empty<V>(): (d: Dict<V>)
    ensures d.Valid()
  {
    Dict([], map[])
  }

  lemma ValuesOf<V>(d: Dict<V>, v: V)
    requires d.Valid()
    ensures v in d.Values() <==> exists k :: k in d.at && d.at[k] == v
  {
    if v in d.Values() {
      var i :| 0 <= i < |d.Values()| && d.Values()[i] == v;
      assert d.order[i] in d.at && d.at[d.order[i]] == v;
    }
    if k :| k in d.at && d.at[k] == v {
      assert k in d.order;
      var i :| 0 <= i < |d.order| && d.order[i] == k;
      assert d.Values()[i] == v;
    }
  }

  // ----- upserting a list of records -----

  /** `for v in vs: d[key(v)] = v`. */
  function PutAll<V>(d: Dict<V>, vs: seq<V>, key: V -> string): (r: Dict<V>)
    requires d.Valid()
    ensures r.Valid()
  {
    if vs == [] then d else PutAll(d, vs[..|vs| - 1], key).Put(key(vs[|vs| - 1]), vs[|vs| - 1])
  }

  lemma PutAllNext<V>(d: Dict<V>, vs: seq<V>, key: V -> string, i: nat)
    requires d.Valid() && i < |vs|
    ensures PutAll(d, vs[..i + 1], key) == PutAll(d, vs[..i], key).Put(key(vs[i]), vs[i])
    ensures i + 1 == |vs| ==> PutAll(d, vs[..i + 1], key) == PutAll(d, vs, key)
  {
    assert vs[..i + 1][..i] == vs[..i];
    assert i + 1 == |vs| ==> vs[..i + 1] == vs;
  }

  ghost function KeysOf<V>(vs: seq<V>, key: V -> string): set<string> { set v | v in vs :: key(v) }

  ghost predicate DistinctKeys<V>(vs: seq<V>, key: V -> string) {
    forall i, j :: 0 <= i < j < |vs| ==> key(vs[i]) != key(vs[j])
  }

  lemma KeysOfLast<V>(vs: seq<V>, key: V -> string)
    requires vs != []
    ensures KeysOf(vs, key) == KeysOf(vs[..|vs| - 1], key) + {key(vs[|vs| - 1])}
    ensures forall v :: v in vs <==> v in vs[..|vs| - 1] || v == vs[|vs| - 1]
  {
    assert vs == vs[..|vs| - 1] + [vs[|vs| - 1]];
  }

  /** Exactly the list's keys are added, after the old ones. */
  lemma {:induction false} PutAllKeys<V>(d: Dict<V>, vs: seq<V>, key: V -> string)
    requires d.Valid()
    ensures PutAll(d, vs, key).at.Keys == d.at.Keys + KeysOf(vs, key)
    ensures d.order <= PutAll(d, vs, key).order
  {
    if vs != [] {
      PutAllKeys(d, vs[..|vs| - 1], key);
      KeysOfLast(vs, key);
    }
  }

  ghost predicate IsLast<V>(vs: seq<V>, key: V -> string, k: string, i: int) {
    0 <= i < |vs| && key(vs[i]) == k && forall j :: i < j < |vs| ==> key(vs[j]) != k
  }

  /** Other keys keep their records; a listed key holds a listed record, and its own one if keys are distinct. */
  lemma {:induction false} PutAllRecords<V>(d: Dict<V>, vs: seq<V>, key: V -> string, k: string)
    requires d.Valid() && k in PutAll(d, vs, key).at
    ensures k !in KeysOf(vs, key) ==> k in d.at && PutAll(d, vs, key).at[k] == d.at[k]
    ensures k in KeysOf(vs, key) ==> PutAll(d, vs, key).at[k] in vs && key(PutAll(d, vs, key).at[k]) == k
  {
    PutAllKeys(d, vs, key);
    if vs != [] {
      var front, last := vs[..|vs| - 1], vs[|vs| - 1];
      PutAllKeys(d, front, key);
      KeysOfLast(vs, key);
      if key(last) != k { PutAllRecords(d, front, key, k); }
    }
  }

  /** A listed key holds the last record listed for it. */
  lemma {:induction false} PutAllHoldsLast<V>(d: Dict<V>, vs: seq<V>, key: V -> string, k: string, i: nat)
    requires d.Valid() && IsLast(vs, key, k, i)
    ensures k in PutAll(d, vs, key).at && PutAll(d, vs, key).at[k] == vs[i]
  {
    var n := |vs| - 1;
    if i < n { PutAllHoldsLast(d, vs[..n], key, k, i); }
  }

  lemma PutAllHolds<V>(d: Dict<V>, vs: seq<V>, key: V -> string, v: V)
    requires d.Valid() && DistinctKeys(vs, key) && v in vs
    ensures key(v) in PutAll(d, vs, key).at && PutAll(d, vs, key).at[key(v)] == v
  {
    PutAllKeys(d, vs, key);
    assert key(v) in KeysOf(vs, key);
    PutAllRecords(d, vs, key, key(v));
  }

  /** The record under a listed key does not depend on what was there before. */
  lemma {:induction false} PutAllSame<V>(d: Dict<V>, f: Dict<V>, vs: seq<V>, key: V -> string, k: string)
    requires d.Valid() && f.Valid() && k in KeysOf(vs, key)
    ensures k in PutAll(d, vs, key).at && k in PutAll(f, vs, key).at
    ensures PutAll(d, vs, key).at[k] == PutAll(f, vs, key).at[k]
  {
    PutAllKeys(d, vs, key);
    PutAllKeys(f, vs, key);
    KeysOfLast(vs, key);
    if key(vs[|vs| - 1]) != k { PutAllSame(d, f, vs[..|vs| - 1], key, k); }
  }

  lemma {:induction false} PutAllKnown<V>(d: Dict<V>, vs: seq<V>, key: V -> string)
    requires d.Valid() && KeysOf(vs, key) <= d.at.Keys
    ensures PutAll(d, vs, key).order == d.order
  {
    if vs != [] {
      KeysOfLast(vs, key);
      PutAllKnown(d, vs[..|vs| - 1], key);
      PutAllKeys(d, vs[..|vs| - 1], key);
    }
  }

  lemma ListedAgain<V>(d: Dict<V>, r: Dict<V>, vs: seq<V>, key: V -> string)
    requires d.Valid() && r.Valid()
    ensures forall k :: k in KeysOf(vs, key) ==>
              k in PutAll(d, vs, key).at && k in PutAll(r, vs, key).at
                  && PutAll(d, vs, key).at[k] == PutAll(r, vs, key).at[k]
  {
    forall k | k in KeysOf(vs, key)
      ensures k in PutAll(d, vs, key).at && k in PutAll(r, vs, key).at
      ensures PutAll(d, vs, key).at[k] == PutAll(r, vs, key).at[k]
    {
      PutAllSame(d, r, vs, key, k);
    }
  }

  lemma OthersAgain<V>(r: Dict<V>, vs: seq<V>, key: V -> string)
    requires r.Valid()
    ensures forall k :: k in PutAll(r, vs, key).at && k !in KeysOf(vs, key) ==>
              k in r.at && PutAll(r, vs, key).at[k] == r.at[k]
  {
    forall k | k in PutAll(r, vs, key).at && k !in KeysOf(vs, key)
      ensures k in r.at && PutAll(r, vs, key).at[k] == r.at[k]
    {
      PutAllRecords(r, vs, key, k);
    }
  }

  lemma SameDict<V>(q: Dict<V>, r: Dict<V>)
    requires q.order == r.order && q.at.Keys == r.at.Keys && forall k :: k in r.at ==> k in q.at && q.at[k] == r.at[k]
    ensures q == r
  {
    assert q.at == r.at;
  }

  /** Upserting the same list again changes nothing, not even the order. */
  lemma PutAllTwice<V>(d: Dict<V>, vs: seq<V>, key: V -> string)
    requires d.Valid()
    ensures PutAll(PutAll(d, vs, key), vs, key) == PutAll(d, vs, key)
  {
    var r := PutAll(d, vs, key);
    PutAllKeys(d, vs, key);
    PutAllKeys(r, vs, key);
    PutAllKnown(r, vs, key);
    ListedAgain(d, r, vs, key);
    OthersAgain(r, vs, key);
    SameDict(PutAll(r, vs, key), r);
  }
}
