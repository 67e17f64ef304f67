/** What a hash table means: the map from each listed key to the value of the slot that
    holds it. While every listed key is reached from its home slot, `Search`, `Add`,
    `Update` and `Remove` act on that map as lookup, insertion, overwrite and erasure. */
module DictMeaning {
  import opened Outcomes
  import opened Lists
  import opened DictSpec
  import DictProperties

  /** Each listed key held by a slot, with the value there. */
  ghost function Meaning<K, V>(t: Table<K, V>): (m: map<K, V>)
    requires |t.slots| == N
  {
    map k | k in t.keys && HoldingFrom(t.slots, k, 0).Some? :: t.slots[HoldingFrom(t.slots, k, 0).value].value.1
  }

  /** Under the invariant, the map holds exactly the listed keys. */
  lemma MeaningKeys<K, V>(t: Table<K, V>)
    requires Invariant(t)
    ensures Meaning(t).Keys == set k | k in t.keys
  {
    forall k | k in t.keys ensures HoldingFrom(t.slots, k, 0).Some? {
      var p :| 0 <= p < N && Holds(t.slots, p, k);
    }
  }

  /** Under the invariant, the slot holding a key gives its value in the map. */
  lemma MeaningAt<K, V>(t: Table<K, V>, k: K, p: nat)
    requires Invariant(t) && p < N && Holds(t.slots, p, k)
    ensures k in Meaning(t) && Meaning(t)[k] == t.slots[p].value.1
  {
    var q := HoldingFrom(t.slots, k, 0);
    assert q.Some? && q.value == p;
  }

  /** A key that is held by no slot is missing from the map. */
  lemma MeaningMissing<K, V>(t: Table<K, V>, k: K)
    requires Invariant(t) && k !in t.keys
    ensures k !in Meaning(t)
  {
  }

  /** Under the invariant, a map with the listed keys that agrees with every occupied slot
      is the meaning. */
  lemma MeaningIs<K, V>(t: Table<K, V>, m: map<K, V>)
    requires Invariant(t) && m.Keys == set k | k in t.keys
    requires forall p | 0 <= p < N && t.slots[p].Some? :: m[t.slots[p].value.0] == t.slots[p].value.1
    ensures Meaning(t) == m
  {
    MeaningKeys(t);
    forall k | k in t.keys ensures Meaning(t)[k] == m[k] {
      var p :| 0 <= p < N && Holds(t.slots, p, k);
      MeaningAt(t, k, p);
    }
  }

  /** Storing a new key in a null slot inserts it into the map. */
  lemma InsertMeans<K, V>(t: Table<K, V>, p: nat, k: K, v: V)
    requires Invariant(t) && p < N && t.slots[p].None? && k !in t.keys
    requires Invariant(Table(t.slots[p := Some((k, v))], t.keys + [k]))
    ensures Meaning(Table(t.slots[p := Some((k, v))], t.keys + [k])) == Meaning(t)[k := v]
  {
    var t' := Table(t.slots[p := Some((k, v))], t.keys + [k]);
    MeaningKeys(t);
    forall q | 0 <= q < N && t'.slots[q].Some? ensures Meaning(t)[k := v][t'.slots[q].value.0] == t'.slots[q].value.1 {
      if q != p {
        MeaningAt(t, t.slots[q].value.0, q);
      }
    }
    MeaningIs(t', Meaning(t)[k := v]);
  }

  /** Replacing the value in the slot that holds a key overwrites it in the map. */
  lemma OverwriteMeans<K, V>(t: Table<K, V>, p: nat, k: K, v: V)
    requires Invariant(t) && p < N && Holds(t.slots, p, k)
    requires Invariant(t.(slots := t.slots[p := Some((k, v))]))
    ensures Meaning(t.(slots := t.slots[p := Some((k, v))])) == Meaning(t)[k := v]
  {
    var t' := t.(slots := t.slots[p := Some((k, v))]);
    MeaningKeys(t);
    forall q | 0 <= q < N && t'.slots[q].Some? ensures Meaning(t)[k := v][t'.slots[q].value.0] == t'.slots[q].value.1 {
      if q != p {
        MeaningAt(t, t.slots[q].value.0, q);
      }
    }
    MeaningIs(t', Meaning(t)[k := v]);
  }

  /** Nulling the slot that holds a key and delisting the key erases it from the map. */
  lemma VacateMeans<K, V>(t: Table<K, V>, p: nat, k: K)
    requires Invariant(t) && p < N && Holds(t.slots, p, k)
    ensures Meaning(Table(t.slots[p := None], RemoveFirst(t.keys, k))) == Meaning(t) - {k}
  {
    var t' := Table(t.slots[p := None], RemoveFirst(t.keys, k));
    DictProperties.VacateKeepsInvariant(t, p, k);
    MeaningKeys(t);
    RemoveFirstSet(t.keys, k);
    VacateAgrees(t, p, k, t');
    MeaningIs(t', Meaning(t) - {k});
  }

  /** Every slot left occupied after the vacating agrees with the map less the key. */
  lemma VacateAgrees<K, V>(t: Table<K, V>, p: nat, k: K, t': Table<K, V>)
    requires Invariant(t) && p < N && Holds(t.slots, p, k) && t'.slots == t.slots[p := None]
    ensures forall q | 0 <= q < N && t'.slots[q].Some? :: (Meaning(t) - {k})[t'.slots[q].value.0] == t'.slots[q].value.1
  {
    forall q | 0 <= q < N && t'.slots[q].Some? ensures (Meaning(t) - {k})[t'.slots[q].value.0] == t'.slots[q].value.1 {
      assert q != p;
      MeaningAt(t, t.slots[q].value.0, q);
    }
  }

  /** `Add` of a new key inserts it into the map; every other outcome leaves the table,
      and so the map, as it was. */
  lemma AddMeans<K, V>(t: Table<K, V>, k: K, v: V, code: int)
    requires Invariant(t)
    ensures var (o, t') := Add(t, k, v, code);
      Meaning(t') == if o == Added then Meaning(t)[k := v] else Meaning(t)
  {
    var (o, t') := Add(t, k, v, code);
    if o == Added {
      DictProperties.AddKeepsInvariant(t, k, v, code);
      var d :| 0 <= d < N && t.slots[Pos(Home(code), d)].None? &&
        t' == Table(t.slots[Pos(Home(code), d) := Some((k, v))], t.keys + [k]);
      InsertMeans(t, Pos(Home(code), d), k, v);
    }
  }

  /** With every listed key reachable, `Update` of a listed key overwrites its value in the
      map, and of an unlisted key changes nothing. */
  lemma UpdateMeans<K, V>(t: Table<K, V>, hash: K -> int, k: K, v: V)
    requires Invariant(t) && Reachable(t, hash)
    ensures Meaning(Update(t, k, v, hash(k)).1) ==
      if k in Meaning(t) then Meaning(t)[k := v] else Meaning(t)
  {
    MeaningKeys(t);
    if k in t.keys {
      var p :| 0 <= p < N && Holds(t.slots, p, k);
      DictProperties.ReachableUpdate(t, hash, k, v, p);
      DictProperties.UpdateKeepsInvariant(t, k, v, hash(k));
      OverwriteMeans(t, p, k, v);
    }
  }

  /** With every listed key reachable, `Remove` erases the key from the map. */
  lemma RemoveMeans<K, V>(t: Table<K, V>, hash: K -> int, k: K)
    requires Invariant(t) && Reachable(t, hash)
    ensures Meaning(Remove(t, k, hash(k)).1) == Meaning(t) - {k}
  {
    MeaningKeys(t);
    if k in t.keys {
      var p :| 0 <= p < N && Holds(t.slots, p, k);
      DictProperties.ReachableRemove(t, hash, k, p);
      VacateMeans(t, p, k);
    }
  }

  /** With every listed key reachable, `Search` is lookup in the map, and a key the map
      does not hold is a soft miss. */
  lemma SearchMeans<K, V>(t: Table<K, V>, hash: K -> int, k: K)
    requires Invariant(t) && Reachable(t, hash)
    ensures Search(t, k, hash(k)) == if k in Meaning(t) then Hit(Meaning(t)[k]) else Miss
  {
    MeaningKeys(t);
    if k in t.keys {
      var p :| 0 <= p < N && Holds(t.slots, p, k);
      DictProperties.ReachableSearch(t, hash, k, p);
      MeaningAt(t, k, p);
    }
  }
}
