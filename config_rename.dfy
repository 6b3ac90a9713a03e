/**
 * Renaming configuration keys between the two library generations.
 * `V2_RENAMED_CONFIG_KEYS` (old name -> new name) is a parameter here: its
 * contents are not part of this model. The v2 mixin applies it to a config
 * map; the v1 mixin applies its reverse, `REVERSE_CONFIG_NAME_MAP`. Both
 * iterate over the sorted intersection of table keys and config keys and,
 * for each key `k`, run `config[table[k]] = config.pop(k)`.
 */
module ConfigRename {
  import opened Wrappers
  import opened StrOrder
  import opened PyDict

  /** A rename table: the items of a dict from one key name to another. */
  type Table = Items<string>

  /** `list(t.values())` */
  function Values(t: Table): (vs: seq<string>)
    ensures |vs| == |t|
    ensures forall i :: 0 <= i < |t| ==> vs[i] == t[i].1
  {
    if t == [] then [] else [t[0].1] + Values(t[1..])
  }

  /** No two keys are renamed to the same name. */
  ghost predicate Injective(t: Table) {
    Distinct(Values(t))
  }

  /** No name is both renamed and a rename target. */
  ghost predicate SourcesAndTargetsDisjoint(t: Table) {
    Elems(Keys(t)) !! Elems(Values(t))
  }

  /** `REVERSE_CONFIG_NAME_MAP = {v: k for k, v in t.items()}` */
  function Reverse(t: Table): (r: Table)
    ensures IsDict(r)
    ensures Elems(Keys(r)) == Elems(Values(t))
  {
    if t == [] then []
    else
      var n := |t| - 1;
      var p := Reverse(t[..n]);
      SetIsDict(p, t[n].1, t[n].0);
      ValuesSnoc(t);
      ElemsSnoc(Values(t[..n]), t[n].1);
      KeysSetElems(p, t[n].1, t[n].0);
      Set(p, t[n].1, t[n].0)
  }

  lemma ValuesSnoc(t: Table)
    requires t != []
    ensures Values(t) == Values(t[..|t| - 1]) + [t[|t| - 1].1]
  {
    var n := |t| - 1;
    assert forall i :: 0 <= i < n ==> t[..n][i] == t[i];
  }

  lemma ElemsSnoc(s: seq<string>, x: string)
    ensures Elems(s + [x]) == Elems(s) + {x}
  {
    assert forall y :: y in s + [x] <==> y in s || y == x;
  }

  lemma KeysSetElems<V>(d: Items<V>, k: string, v: V)
    ensures Elems(Keys(Set(d, k, v))) == Elems(Keys(d)) + {k}
  {
    if k !in Keys(d) {
      ElemsSnoc(Keys(d), k);
    }
  }

  /**
   * When several keys share a target, the comprehension keeps the last one:
   * reversing maps a value to the key of its LAST occurrence.
   */
  lemma {:induction false} ReverseLastWins(t: Table, i: int)
    requires 0 <= i < |t|
    requires forall j :: i < j < |t| ==> t[j].1 != t[i].1
    ensures Get(Reverse(t), t[i].1) == Some(t[i].0)
  {
    var n := |t| - 1;
    var s := t[..n];
    ReverseUnfold(t);
    if i < n {
      assert s[i] == t[i];
      assert forall j :: i < j < |s| ==> s[j] == t[j];
      ReverseLastWins(s, i);
    }
  }

  /** The comprehension's last pair is assigned last. */
  lemma ReverseUnfold(t: Table)
    requires t != []
    ensures Reverse(t) == Set(Reverse(t[..|t| - 1]), t[|t| - 1].1, t[|t| - 1].0)
  {
  }

  /** The reverse table maps every target back to its key. */
  lemma ReverseInverts(t: Table, i: int)
    requires Injective(t) && 0 <= i < |t|
    ensures Get(Reverse(t), t[i].1) == Some(t[i].0)
  {
    forall j | i < j < |t| ensures t[j].1 != t[i].1 {
      assert Values(t)[i] != Values(t)[j];
    }
    ReverseLastWins(t, i);
  }

  /** For an injective table, reversing just swaps every pair, in the same order. */
  lemma {:induction false} ReverseSwaps(t: Table)
    requires Injective(t)
    ensures |Reverse(t)| == |t|
    ensures forall i :: 0 <= i < |t| ==> Reverse(t)[i] == (t[i].1, t[i].0)
  {
    if t != [] {
      var n := |t| - 1;
      var s := t[..n];
      InjectivePrefix(t);
      ReverseSwaps(s);
      var p := Reverse(s);
      assert t[n].1 !in Keys(p) by {
        forall j | 0 <= j < n ensures Keys(p)[j] != t[n].1 {
          assert Values(t)[j] != Values(t)[n];
        }
      }
      ReverseAppend(t);
      var r := Reverse(t);
      forall i | 0 <= i < |t| ensures r[i] == (t[i].1, t[i].0) {
        if i < n {
          assert r[i] == p[i] && s[i] == t[i];
        }
      }
    }
  }

  lemma InjectivePrefix(t: Table)
    requires t != [] && Injective(t)
    ensures Injective(t[..|t| - 1])
  {
    var s := t[..|t| - 1];
    forall i, j | 0 <= i < j < |s| ensures Values(s)[i] != Values(s)[j] {
      assert s[i] == t[i] && s[j] == t[j];
      assert Values(t)[i] != Values(t)[j];
    }
  }

  /** A target not reversed yet is appended at the end. */
  lemma ReverseAppend(t: Table)
    requires t != [] && t[|t| - 1].1 !in Keys(Reverse(t[..|t| - 1]))
    ensures Reverse(t) == Reverse(t[..|t| - 1]) + [(t[|t| - 1].1, t[|t| - 1].0)]
  {
    ReverseUnfold(t);
  }

  /** Reversing a well-formed injective table gives an injective table with the roles swapped. */
  lemma ReverseTable(t: Table)
    requires IsDict(t) && Injective(t)
    ensures Injective(Reverse(t))
    ensures Elems(Values(Reverse(t))) == Elems(Keys(t))
    ensures SourcesAndTargetsDisjoint(t) ==> SourcesAndTargetsDisjoint(Reverse(t))
  {
    ReverseSwaps(t);
    assert Values(Reverse(t)) == Keys(t);
  }

  /** One loop iteration: `d[t[k]] = d.pop(k)` (a no-op when `k` is absent, which the loop never meets). */
  function Step<V>(d: Items<V>, t: Table, k: string): (r: Items<V>)
    requires k in Keys(t)
    ensures k !in Keys(d) ==> r == d
    ensures k in Keys(d) ==> Get(r, Get(t, k).value) == Get(d, k)
    ensures k in Keys(d) && Get(t, k).value != k ==> k !in Keys(r)
    ensures forall x :: x != k && x != Get(t, k).value ==> Get(r, x) == Get(d, x)
    ensures forall x :: x in Keys(r) ==> x in Keys(d) || x == Get(t, k).value
    ensures IsDict(d) ==> IsDict(r)
  {
    if k in Keys(d) then
      var target, v := Get(t, k).value, Get(d, k).value;
      var removed := Remove(d, k);
      var r := Set(removed, target, v);
      assert IsDict(d) ==> IsDict(r) by {
        if IsDict(d) {
          RemoveIsDict(d, k);
          SetIsDict(removed, target, v);
        }
      }
      assert forall x :: x in Keys(r) ==> x in Keys(d) || x == target by {
        forall x | x in Keys(r) ensures x in Keys(d) || x == target {
          assert Get(r, x).Some?;
        }
      }
      assert target != k ==> k !in Keys(r) by {
        if target != k {
          assert Get(r, k) == Get(removed, k) == None;
        }
      }
      r
    else d
  }

  /** The loop body run once per key of `order`, in that order. */
  function RenameAll<V>(d: Items<V>, t: Table, order: seq<string>): (r: Items<V>)
    requires forall j :: 0 <= j < |order| ==> order[j] in Keys(t)
    ensures forall x :: x in Keys(r) ==> x in Keys(d) || x in Values(t)
    ensures forall x :: x in Keys(d) && x !in Keys(t) ==> x in Keys(r)
    ensures IsDict(d) ==> IsDict(r)
    decreases |order|
  {
    if order == [] then d
    else
      var k := order[0];
      var s := Step(d, t, k);
      assert Get(t, k).value in Values(t) by {
        var i :| 0 <= i < |t| && t[i] == (k, Get(t, k).value);
        assert Values(t)[i] == t[i].1;
      }
      assert forall x :: x in Keys(d) && x !in Keys(t) ==> x in Keys(s) by {
        forall x | x in Keys(d) && x !in Keys(t) ensures x in Keys(s) {
          StepKeepsOthers(d, t, k, x);
        }
      }
      RenameAll(s, t, order[1..])
  }

  /** `[k for k in ks if k in t]` */
  function KeysIn(ks: seq<string>, t: Table): (r: seq<string>)
    ensures Elems(r) == Elems(ks) * Elems(Keys(t))
  {
    if ks == [] then []
    else
      assert Elems(ks) == {ks[0]} + Elems(ks[1..]);
      var rest := KeysIn(ks[1..], t);
      if ks[0] in Keys(t) then
        assert Elems([ks[0]] + rest) == {ks[0]} + Elems(rest);
        [ks[0]] + rest
      else rest
  }

  /** `sorted(t.keys() & d.keys())`: the keys to rename, in increasing order. */
  function RenameOrder<V>(d: Items<V>, t: Table): (order: seq<string>)
    ensures StrictlySorted(order)
    ensures Elems(order) == Elems(Keys(d)) * Elems(Keys(t))
    ensures forall j :: 0 <= j < |order| ==> order[j] in Keys(d) && order[j] in Keys(t)
  {
    var order := Sorted(KeysIn(Keys(d), t));
    assert forall j :: 0 <= j < |order| ==> order[j] in Elems(order);
    order
  }

  /** What `_convert_config` does to the config dict, with the table it uses. */
  function RenameKeys<V>(d: Items<V>, t: Table): (r: Items<V>)
    ensures forall x :: x in Keys(r) ==> x in Keys(d) || x in Values(t)
    ensures forall x :: x in Keys(d) && x !in Keys(t) ==> x in Keys(r)
    ensures IsDict(d) ==> IsDict(r)
  {
    RenameAll(d, t, RenameOrder(d, t))
  }

  /** Running the loop from position `i` is one step followed by the loop from `i + 1`. */
  lemma RenameAllUnfold<V>(d: Items<V>, t: Table, order: seq<string>, i: int)
    requires forall j :: 0 <= j < |order| ==> order[j] in Keys(t)
    requires 0 <= i < |order|
    ensures RenameAll(d, t, order[i..]) == RenameAll(Step(d, t, order[i]), t, order[i + 1..])
  {
    assert order[i..][0] == order[i];
    assert order[i..][1..] == order[i + 1..];
  }

  /** A step on `k` leaves every other present key present. */
  lemma StepKeepsOthers<V>(d: Items<V>, t: Table, k: string, x: string)
    requires k in Keys(t) && x != k && x in Keys(d)
    ensures x in Keys(Step(d, t, k))
  {
    if k in Keys(d) {
      assert x in Elems(Without(Keys(d), k));
      assert x in Keys(Remove(d, k));
    }
  }

  /** The renaming loop, in place on the dict object. */
  method RenameInPlace<V>(d: DictObj<V>, t: Table)
    modifies d
    ensures d.items == RenameKeys(old(d.items), t)
  {
    var order := RenameOrder(d.items, t);
    ghost var start := d.items;
    assert order[0..] == order;
    var i := 0;
    while i < |order|
      invariant 0 <= i <= |order|
      invariant RenameAll(d.items, t, order[i..]) == RenameAll(start, t, order)
      invariant forall j :: i <= j < |order| ==> order[j] in Keys(d.items)
    {
      var k := order[i];
      ghost var before := d.items;
      var v := d.Pop(k);
      d.SetItem(Get(t, k).value, v);
      assert d.items == Step(before, t, k);
      RenameAllUnfold(before, t, order, i);
      forall j | i < j < |order| ensures order[j] in Keys(d.items) {
        StrictlySortedDistinct(order, i, j);
        StepKeepsOthers(before, t, k, order[j]);
      }
      i := i + 1;
    }
  }

  // ---- The renaming seen through ToMap ----

  /** One step on the map view. */
  ghost function StepMap<V>(m: map<string, V>, tm: map<string, string>, k: string): map<string, V>
    requires k in tm
  {
    if k in m then (m - {k})[tm[k] := m[k]] else m
  }

  ghost function RenameAllMap<V>(m: map<string, V>, tm: map<string, string>, order: seq<string>): map<string, V>
    requires forall j :: 0 <= j < |order| ==> order[j] in tm
    decreases |order|
  {
    if order == [] then m else RenameAllMap(StepMap(m, tm, order[0]), tm, order[1..])
  }

  lemma StepToMap<V>(d: Items<V>, t: Table, k: string)
    requires k in Keys(t)
    ensures ToMap(Step(d, t, k)) == StepMap(ToMap(d), ToMap(t), k)
  {
    if k in Keys(d) {
      ToMapRemove(d, k);
      ToMapSet(Remove(d, k), Get(t, k).value, Get(d, k).value);
    }
  }

  lemma {:induction false} RenameAllToMap<V>(d: Items<V>, t: Table, order: seq<string>)
    requires forall j :: 0 <= j < |order| ==> order[j] in Keys(t)
    ensures ToMap(RenameAll(d, t, order)) == RenameAllMap(ToMap(d), ToMap(t), order)
    decreases |order|
  {
    if order != [] {
      StepToMap(d, t, order[0]);
      RenameAllToMap(Step(d, t, order[0]), t, order[1..]);
    }
  }

  /**
   * The result depends only on the config's keys and values, not on its
   * insertion order: the keys are renamed in sorted order, which the key set
   * alone determines.
   */
  lemma RenameKeysDeterministic<V>(d1: Items<V>, d2: Items<V>, t: Table)
    requires ToMap(d1) == ToMap(d2)
    ensures ToMap(RenameKeys(d1, t)) == ToMap(RenameKeys(d2, t))
  {
    StrictlySortedUnique(RenameOrder(d1, t), RenameOrder(d2, t));
    RenameAllToMap(d1, t, RenameOrder(d1, t));
    RenameAllToMap(d2, t, RenameOrder(d2, t));
  }

  lemma {:induction false} RenameAllMapKeeps<V>(m: map<string, V>, tm: map<string, string>, order: seq<string>, x: string)
    requires forall j :: 0 <= j < |order| ==> order[j] in tm
    requires x !in tm && x !in tm.Values
    ensures var r := RenameAllMap(m, tm, order); (x in r <==> x in m) && (x in m ==> r[x] == m[x])
    decreases |order|
  {
    if order != [] {
      RenameAllMapKeeps(StepMap(m, tm, order[0]), tm, order[1..], x);
    }
  }

  /** A key that the table neither renames nor produces keeps its value (for any table). */
  lemma RenameKeysKeepsOthers<V>(d: Items<V>, t: Table, x: string)
    requires x !in Keys(t) && x !in Values(t)
    ensures Get(RenameKeys(d, t), x) == Get(d, x)
  {
    var order := RenameOrder(d, t);
    RenameAllToMap(d, t, order);
    forall k | k in ToMap(t) ensures ToMap(t)[k] != x {
      var i :| 0 <= i < |t| && t[i].0 == k;
      assert Get(t, k).Some?;
      var j :| 0 <= j < |t| && t[j] == (k, Get(t, k).value);
      assert Values(t)[j] == t[j].1;
    }
    RenameAllMapKeeps(ToMap(d), ToMap(t), order, x);
  }

  /** `u` undoes `tm` and `tm` undoes `u`. */
  ghost predicate Inverse(tm: map<string, string>, u: map<string, string>) {
    && (forall k :: k in tm ==> tm[k] in u && u[tm[k]] == k)
    && (forall v :: v in u ==> u[v] in tm && tm[u[v]] == v)
  }

  /**
   * The outcome of moving, for every source `k` in `s` that the config holds,
   * its value to `tm[k]`; `u` is the inverse of `tm`.
   */
  ghost function MovedOn<V>(m: map<string, V>, tm: map<string, string>, u: map<string, string>, s: set<string>): map<string, V>
    requires Inverse(tm, u)
  {
    map x | x in m.Keys + u.Keys && ((x in m && x !in s) || (x in u && u[x] in s && u[x] in m))
      :: if x in u && u[x] in s && u[x] in m then m[u[x]] else m[x]
  }

  /**
   * Every source the config holds is gone and its value sits under the
   * target name (overwriting whatever was there); all other keys keep their values.
   */
  ghost function Moved<V>(m: map<string, V>, tm: map<string, string>, u: map<string, string>): (r: map<string, V>)
    requires Inverse(tm, u) && tm.Keys !! u.Keys
    ensures forall k :: k in m && k in tm ==> tm[k] in r && r[tm[k]] == m[k]
    ensures forall k :: k in tm ==> k !in r
    ensures forall x :: x !in tm && x !in u ==> (x in r <==> x in m) && (x in r ==> r[x] == m[x])
    ensures forall x :: x in u && u[x] !in m ==> (x in r <==> x in m) && (x in r ==> r[x] == m[x])
  {
    MovedOn(m, tm, u, tm.Keys)
  }

  lemma MovedOnStep<V>(m: map<string, V>, tm: map<string, string>, u: map<string, string>, s: set<string>, k: string)
    requires Inverse(tm, u) && tm.Keys !! u.Keys
    requires k in tm && k !in s && s <= tm.Keys
    ensures MovedOn(StepMap(m, tm, k), tm, u, s) == MovedOn(m, tm, u, s + {k})
  {
    var a, b := MovedOn(StepMap(m, tm, k), tm, u, s), MovedOn(m, tm, u, s + {k});
    assert a.Keys == b.Keys;
    forall x | x in a ensures a[x] == b[x] {
    }
  }

  lemma {:induction false} RenameAllMapMoves<V>(m: map<string, V>, tm: map<string, string>, u: map<string, string>, order: seq<string>)
    requires Inverse(tm, u) && tm.Keys !! u.Keys
    requires forall j :: 0 <= j < |order| ==> order[j] in tm
    requires Distinct(order)
    ensures RenameAllMap(m, tm, order) == MovedOn(m, tm, u, Elems(order))
    decreases |order|
  {
    if order == [] {
      assert MovedOn(m, tm, u, {}) == m;
    } else {
      assert Distinct(order[1..]);
      assert Elems(order) == Elems(order[1..]) + {order[0]};
      assert order[0] !in Elems(order[1..]);
      RenameAllMapMoves(StepMap(m, tm, order[0]), tm, u, order[1..]);
      MovedOnStep(m, tm, u, Elems(order[1..]), order[0]);
    }
  }

  /**
   * For a table and its inverse with disjoint sources and targets, the
   * renaming `_convert_config` performs is exactly `Moved`.
   */
  lemma RenameKeysMoves<V>(d: Items<V>, t: Table, u: map<string, string>)
    requires Inverse(ToMap(t), u) && ToMap(t).Keys !! u.Keys
    ensures ToMap(RenameKeys(d, t)) == Moved(ToMap(d), ToMap(t), u)
  {
    var order := RenameOrder(d, t);
    forall i, j | 0 <= i < j < |order| ensures order[i] != order[j] {
      StrictlySortedDistinct(order, i, j);
    }
    RenameAllToMap(d, t, order);
    RenameAllMapMoves(ToMap(d), ToMap(t), u, order);
    assert Elems(order) == ToMap(d).Keys * ToMap(t).Keys;
    MovedOnPresent(ToMap(d), ToMap(t), u);
  }

  /** Only the sources the config holds matter. */
  lemma MovedOnPresent<V>(m: map<string, V>, tm: map<string, string>, u: map<string, string>)
    requires Inverse(tm, u)
    ensures MovedOn(m, tm, u, m.Keys * tm.Keys) == MovedOn(m, tm, u, tm.Keys)
  {
    var a, b := MovedOn(m, tm, u, m.Keys * tm.Keys), MovedOn(m, tm, u, tm.Keys);
    assert a.Keys == b.Keys;
  }

  /** A well-formed injective table and its reverse are inverse maps. */
  lemma TableInverse(t: Table)
    requires IsDict(t) && Injective(t)
    ensures Inverse(ToMap(t), ToMap(Reverse(t)))
    ensures Inverse(ToMap(Reverse(t)), ToMap(t))
    ensures SourcesAndTargetsDisjoint(t) ==> ToMap(t).Keys !! ToMap(Reverse(t)).Keys
  {
    var tm, u := ToMap(t), ToMap(Reverse(t));
    forall k | k in tm ensures tm[k] in u && u[tm[k]] == k {
      var i :| 0 <= i < |t| && Keys(t)[i] == k;
      GetAt(t, i);
      ReverseInverts(t, i);
    }
    forall v | v in u ensures u[v] in tm && tm[u[v]] == v {
      assert v in Elems(Values(t));
      var i :| 0 <= i < |t| && Values(t)[i] == v;
      GetAt(t, i);
      ReverseInverts(t, i);
    }
  }

  lemma MovedRoundTrip<V>(m: map<string, V>, tm: map<string, string>, u: map<string, string>)
    requires Inverse(tm, u) && tm.Keys !! u.Keys
    requires m.Keys !! u.Keys
    ensures Moved(Moved(m, tm, u), u, tm) == m
  {
    var r := Moved(m, tm, u);
    var back := Moved(r, u, tm);
    assert back.Keys == m.Keys;
  }

  /**
   * Round trip: a config written with old names only (none of the new names)
   * survives renaming forward (v2 mixin) and then back (v1 mixin).
   */
  lemma RoundTripForwardThenBack<V>(d: Items<V>, t: Table)
    requires IsDict(t) && Injective(t) && SourcesAndTargetsDisjoint(t)
    requires Elems(Keys(d)) !! Elems(Values(t))
    ensures ToMap(RenameKeys(RenameKeys(d, t), Reverse(t))) == ToMap(d)
  {
    TableInverse(t);
    var tm, u := ToMap(t), ToMap(Reverse(t));
    RenameKeysMoves(d, t, u);
    RenameKeysMoves(RenameKeys(d, t), Reverse(t), tm);
    MovedRoundTrip(ToMap(d), tm, u);
  }

  /** The other direction: new names only, renamed back (v1 mixin) and forward again (v2 mixin). */
  lemma RoundTripBackThenForward<V>(d: Items<V>, t: Table)
    requires IsDict(t) && Injective(t) && SourcesAndTargetsDisjoint(t)
    requires Elems(Keys(d)) !! Elems(Keys(t))
    ensures ToMap(RenameKeys(RenameKeys(d, Reverse(t)), t)) == ToMap(d)
  {
    TableInverse(t);
    var tm, u := ToMap(t), ToMap(Reverse(t));
    RenameKeysMoves(d, Reverse(t), tm);
    RenameKeysMoves(RenameKeys(d, Reverse(t)), t, u);
    MovedRoundTrip(ToMap(d), u, tm);
  }
}
