/**
 * Python's `dict` with string keys as an insertion-ordered association list.
 * A new key goes to the end, assigning to a present key keeps its position,
 * and `pop` removes the entry; `ToMap` forgets the order.
 */
module PyDict {
  import opened Wrappers
  import opened StrOrder

  /** The entries of a dict, in insertion order. */
  type Items<V> = seq<(string, V)>

  /** `list(d)`: the keys in insertion order. */
  function Keys<V>(d: Items<V>): (ks: seq<string>)
    ensures |ks| == |d|
    ensures forall i :: 0 <= i < |d| ==> ks[i] == d[i].0
  {
    if d == [] then [] else [d[0].0] + Keys(d[1..])
  }

  ghost predicate Distinct(ks: seq<string>) {
    forall i, j :: 0 <= i < j < |ks| ==> ks[i] != ks[j]
  }

  /** A well-formed dict holds each key once. */
  ghost predicate IsDict<V>(d: Items<V>) {
    Distinct(Keys(d))
  }

  /** `d.get(k)`: the value of the first entry for `k`, or None when there is none. */
  function Get<V>(d: Items<V>, k: string): (r: Option<V>)
    ensures r.None? <==> k !in Keys(d)
    ensures r.Some? ==> exists i :: 0 <= i < |d| && d[i] == (k, r.value)
  {
    if d == [] then None
    else if d[0].0 == k then Some(d[0].1)
    else
      var r := Get(d[1..], k);
      assert Keys(d) == [d[0].0] + Keys(d[1..]);
      assert forall i :: 0 <= i < |d[1..]| ==> d[1..][i] == d[i + 1];
      r
  }

  /** In a well-formed dict the entry at position `i` is the one `Get` finds. */
  lemma {:induction false} GetAt<V>(d: Items<V>, i: int)
    requires IsDict(d) && 0 <= i < |d|
    ensures Get(d, d[i].0) == Some(d[i].1)
  {
    if i > 0 {
      assert Keys(d)[0] != Keys(d)[i];
      assert Keys(d[1..]) == Keys(d)[1..];
      GetAt(d[1..], i - 1);
    }
  }

  /** The dict as a mathematical map (order forgotten). */
  function ToMap<V>(d: Items<V>): (m: map<string, V>)
    ensures m.Keys == Elems(Keys(d))
    ensures forall k :: Get(d, k) == if k in m then Some(m[k]) else None
  {
    map k | k in Keys(d) :: Get(d, k).value
  }

  /** `d[k] = v`: replaces the value in place when `k` is present, appends otherwise. */
  function Set<V>(d: Items<V>, k: string, v: V): (r: Items<V>)
    ensures forall j :: Get(r, j) == if j == k then Some(v) else Get(d, j)
    ensures k in Keys(d) ==> Keys(r) == Keys(d)
    ensures k !in Keys(d) ==> Keys(r) == Keys(d) + [k] && r == d + [(k, v)]
  {
    if d == [] then [(k, v)]
    else if d[0].0 == k then [(k, v)] + d[1..]
    else
      var r := [d[0]] + Set(d[1..], k, v);
      assert Keys(r) == [d[0].0] + Keys(Set(d[1..], k, v));
      assert Keys(d) == [d[0].0] + Keys(d[1..]);
      r
  }

  /** `Without(ks, k)`: the list of keys with `k` taken out. */
  function Without(ks: seq<string>, k: string): (r: seq<string>)
    ensures Elems(r) == Elems(ks) - {k}
  {
    if ks == [] then []
    else
      assert Elems(ks) == {ks[0]} + Elems(ks[1..]);
      if ks[0] == k then Without(ks[1..], k)
      else
        assert Elems([ks[0]] + Without(ks[1..], k)) == {ks[0]} + Elems(Without(ks[1..], k));
        [ks[0]] + Without(ks[1..], k)
  }

  /** `del d[k]` / `d.pop(k)`: the entry for `k` goes, the others keep their order. */
  function Remove<V>(d: Items<V>, k: string): (r: Items<V>)
    ensures forall j :: Get(r, j) == if j == k then None else Get(d, j)
    ensures Keys(r) == Without(Keys(d), k)
  {
    if d == [] then []
    else
      assert Keys(d) == [d[0].0] + Keys(d[1..]);
      if d[0].0 == k then Remove(d[1..], k)
      else
        var r := [d[0]] + Remove(d[1..], k);
        assert Keys(r) == [d[0].0] + Keys(Remove(d[1..], k));
        r
  }

  /** Removing a key that is not there changes nothing. */
  lemma {:induction false} RemoveAbsent<V>(d: Items<V>, k: string)
    requires k !in Keys(d)
    ensures Remove(d, k) == d
  {
    if d != [] {
      assert Keys(d) == [d[0].0] + Keys(d[1..]);
      RemoveAbsent(d[1..], k);
      assert d == [d[0]] + d[1..];
    }
  }

  /** `Remove` on a list with a known first entry. */
  lemma RemoveCons<V>(e: (string, V), d: Items<V>, k: string)
    ensures Remove([e] + d, k) == if e.0 == k then Remove(d, k) else [e] + Remove(d, k)
  {
    assert ([e] + d)[1..] == d;
  }

  /** Assignment and removal, seen through `ToMap`. */
  lemma ToMapSet<V>(d: Items<V>, k: string, v: V)
    ensures ToMap(Set(d, k, v)) == ToMap(d)[k := v]
  {
    var r := Set(d, k, v);
    var m := ToMap(d);
    var a, b := ToMap(r), m[k := v];
    forall j ensures (j in a <==> j in b) && (j in a ==> a[j] == b[j]) {
      assert Get(r, j) == if j in a then Some(a[j]) else None;
      assert Get(d, j) == if j in m then Some(m[j]) else None;
    }
  }

  lemma ToMapRemove<V>(d: Items<V>, k: string)
    ensures ToMap(Remove(d, k)) == ToMap(d) - {k}
  {
    var r := Remove(d, k);
    var a, b := ToMap(r), ToMap(d) - {k};
    assert a.Keys == b.Keys;
    forall j | j in a ensures a[j] == b[j] {
      assert Get(r, j) == Some(a[j]);
    }
  }

  lemma {:induction false} WithoutDistinct(ks: seq<string>, k: string)
    requires Distinct(ks)
    ensures Distinct(Without(ks, k))
    ensures |Without(ks, k)| == if k in ks then |ks| - 1 else |ks|
  {
    if ks != [] {
      assert Distinct(ks[1..]);
      WithoutDistinct(ks[1..], k);
      if ks[0] != k {
        assert ks[0] !in Elems(ks[1..]);
        assert ks[0] !in Elems(Without(ks[1..], k));
      } else {
        assert k !in ks[1..];
      }
    }
  }

  /** Assignment and removal keep each key once. */
  lemma SetIsDict<V>(d: Items<V>, k: string, v: V)
    requires IsDict(d)
    ensures IsDict(Set(d, k, v))
  {
    if k !in Keys(d) {
      assert forall i :: 0 <= i < |Keys(d)| ==> Keys(d)[i] != k;
    }
  }

  lemma RemoveIsDict<V>(d: Items<V>, k: string)
    requires IsDict(d)
    ensures IsDict(Remove(d, k))
    ensures |Remove(d, k)| == if k in Keys(d) then |d| - 1 else |d|
  {
    WithoutDistinct(Keys(d), k);
  }

  lemma {:induction false} DistinctCard(ks: seq<string>)
    requires Distinct(ks)
    ensures |Elems(ks)| == |ks|
  {
    if ks != [] {
      assert Elems(ks) == {ks[0]} + Elems(ks[1..]);
      assert ks[0] !in Elems(ks[1..]);
      assert Distinct(ks[1..]);
      DistinctCard(ks[1..]);
    }
  }

  /** `len(d)` counts distinct keys. */
  lemma DictSize<V>(d: Items<V>)
    requires IsDict(d)
    ensures |ToMap(d)| == |d|
  {
    DistinctCard(Keys(d));
    assert |ToMap(d)| == |ToMap(d).Keys|;
  }

  /** A mutable dict object; other objects may hold a reference to the same dict. */
  class DictObj<V> {
    var items: Items<V>

    constructor (items: Items<V>)
      ensures this.items == items
    {
      this.items := items;
    }

    /** `k in d` */
    function Contains(k: string): bool
      reads this
    {
      k in Keys(items)
    }

    /** `d[k] = v` */
    method SetItem(k: string, v: V)
      modifies this
      ensures items == Set(old(items), k, v)
    {
      items := Set(items, k, v);
    }

    /** `d.pop(k)` on a key that is present */
    method Pop(k: string) returns (v: V)
      requires Contains(k)
      modifies this
      ensures Get(old(items), k) == Some(v)
      ensures items == Remove(old(items), k)
    {
      v := Get(items, k).value;
      items := Remove(items, k);
    }

    /** `d.pop(k, default)` */
    method PopOr(k: string, default: V) returns (v: V)
      modifies this
      ensures v == Get(old(items), k).GetOr(default)
      ensures items == Remove(old(items), k)
    {
      v := Get(items, k).GetOr(default);
      items := Remove(items, k);
    }

    /** `d.setdefault(k, v)` */
    method SetDefault(k: string, v: V) returns (r: V)
      modifies this
      ensures r == Get(old(items), k).GetOr(v)
      ensures items == if k in Keys(old(items)) then old(items) else Set(old(items), k, v)
    {
      r := Get(items, k).GetOr(v);
      if k !in Keys(items) {
        items := Set(items, k, v);
      }
    }
  }
}
