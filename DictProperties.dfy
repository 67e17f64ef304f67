/** Properties of the hash table of Map/Model/Dict.cs, proved about the value-level
    operations of DictSpec: the invariant that `Add`, `Remove` and `Update` keep, the
    round trip from `Add` to `Search`, and the defects of eager removal and of the
    `foreach` over a vacated home slot. */
module DictProperties {
  import opened Outcomes
  import opened Lists
  import opened DictSpec

  /** Writing one slot changes the number of occupied slots by what it takes away and adds. */
  lemma {:induction false} OccupiedSet<K, V>(s: seq<Option<(K, V)>>, i: nat, x: Option<(K, V)>)
    requires i < |s|
    ensures Occupied(s[i := x]) == Occupied(s) - (if s[i].Some? then 1 else 0) + (if x.Some? then 1 else 0)
  {
    var s' := s[i := x];
    if i == |s| - 1 {
      assert s'[..|s'| - 1] == s[..|s| - 1];
    } else {
      assert s'[..|s'| - 1] == s[..|s| - 1][i := x];
      OccupiedSet(s[..|s| - 1], i, x);
    }
  }

  /** Slot arrays that agree on which slots are occupied have the same number of them. */
  lemma {:induction false} OccupiedShape<K, V>(s: seq<Option<(K, V)>>, s': seq<Option<(K, V)>>)
    requires |s| == |s'| && forall p :: 0 <= p < |s| ==> SameShape(s[p], s'[p])
    ensures Occupied(s) == Occupied(s')
  {
    if s != [] {
      OccupiedShape(s[..|s| - 1], s'[..|s'| - 1]);
    }
  }

  /** An empty table satisfies the invariant: the constructor establishes it. */
  lemma EmptyInvariant<K, V>(t: Table<K, V>)
    requires |t.slots| == N && t.keys == [] && forall p :: 0 <= p < N ==> t.slots[p].None?
    ensures Invariant(t)
  {
    var s := t.slots;
    OccupiedNone(s);
  }

  lemma {:induction false} OccupiedNone<K, V>(s: seq<Option<(K, V)>>)
    requires forall p :: 0 <= p < |s| ==> s[p].None?
    ensures Occupied(s) == 0
  {
    if s != [] {
      OccupiedNone(s[..|s| - 1]);
    }
  }

  /** `Add` keeps the invariant (Dict.cs:70-72, 85-87, 106-108): a new key goes into a slot
      that was vacant, and is appended to `Keys`. */
  lemma AddKeepsInvariant<K, V>(t: Table<K, V>, k: K, v: V, code: int)
    ensures Invariant(t) ==> Invariant(Add(t, k, v, code).1)
  {
    if !Invariant(t) { return; }
    var (o, t') := Add(t, k, v, code);
    if o == Added {
      var h := Home(code);
      var d :| 0 <= d < N && t.slots[Pos(h, d)].None? &&
               t' == Table(t.slots[Pos(h, d) := Some((k, v))], t.keys + [k]);
      var p := Pos(h, d);
      var s, s' := t.slots, t'.slots;
      AppendFresh(t.keys, k);
      forall q | 0 <= q < N && s[q].Some? ensures s[q].value.0 != k {
        assert s[q].value.0 in t.keys;
      }
      forall k' | k' in t'.keys ensures exists q :: 0 <= q < N && Holds(s', q, k') {
        if k' == k {
          assert Holds(s', p, k');
        } else {
          assert k' in t.keys;
          var q :| 0 <= q < N && Holds(s, q, k');
          assert q != p && Holds(s', q, k');
        }
      }
      OccupiedSet(s, p, Some((k, v)));
    }
  }

  /** Vacating the slot of a listed key and dropping the key from `Keys` keeps the invariant. */
  lemma VacateKeepsInvariant<K, V>(t: Table<K, V>, p: nat, k: K)
    requires Invariant(t) && p < N && Holds(t.slots, p, k)
    ensures Invariant(Table(t.slots[p := None], RemoveFirst(t.keys, k)))
  {
    var s, s', keys' := t.slots, t.slots[p := None], RemoveFirst(t.keys, k);
    assert k in t.keys && |keys'| == |t.keys| - 1;
    RemoveFirstUnique(t.keys, k);
    VacateKeepsHeld(t, p, k, s');
    forall q | 0 <= q < N && s'[q].Some? ensures s'[q].value.0 in keys' {
      assert q != p && Holds(s, q, s[q].value.0);
    }
    OccupiedSet(s, p, None);
  }

  /** After the slot holding `k` is nulled, every other listed key is still held. */
  lemma VacateKeepsHeld<K, V>(t: Table<K, V>, p: nat, k: K, s': seq<Option<(K, V)>>)
    requires Invariant(t) && p < N && Holds(t.slots, p, k) && s' == t.slots[p := None]
    ensures forall k' | k' in t.keys && k' != k :: exists q :: 0 <= q < N && Holds(s', q, k')
  {
    forall k' | k' in t.keys && k' != k ensures exists q :: 0 <= q < N && Holds(s', q, k') {
      var q :| 0 <= q < N && Holds(t.slots, q, k');
      assert q != p && Holds(s', q, k');
    }
  }


  /** A successful `Remove` keeps the invariant (Dict.cs:261-263, 274-276, 293-295): the slot
      that held the key is vacated and the key leaves `Keys`. */
  lemma RemoveKeepsInvariant<K, V>(t: Table<K, V>, k: K, code: int)
    ensures Invariant(t) ==> Invariant(Remove(t, k, code).1)
  {
    if !Invariant(t) { return; }
    var (o, t') := Remove(t, k, code);
    if o == Removed {
      var p :| 0 <= p < N && Holds(t.slots, p, k) &&
               t' == Table(t.slots[p := None], RemoveFirst(t.keys, k));
      VacateKeepsInvariant(t, p, k);
    }
  }

  /** `Update` keeps the invariant: it changes values only, never a key or which slots are
      occupied (Dict.cs:361, 372, 391, 410). */
  lemma UpdateKeepsInvariant<K, V>(t: Table<K, V>, k: K, v: V, code: int)
    ensures Invariant(t) ==> Invariant(Update(t, k, v, code).1)
  {
    if !Invariant(t) { return; }
    var t' := Update(t, k, v, code).1;
    var s, s' := t.slots, t'.slots;
    OccupiedShape(s, s');
    forall k' | k' in t'.keys ensures exists q :: 0 <= q < N && Holds(s', q, k') {
      var q :| 0 <= q < N && Holds(s, q, k');
      assert SameShape(s[q], s'[q]) && Holds(s', q, k');
    }
    forall p, q | 0 <= p < N && 0 <= q < N && s'[p].Some? && Holds(s', q, s'[p].value.0) ensures p == q {
      assert SameShape(s[p], s'[p]) && SameShape(s[q], s'[q]);
      assert Holds(s, q, s[p].value.0);
    }
    forall p | 0 <= p < N && s'[p].Some? ensures s'[p].value.0 in t'.keys {
      assert SameShape(s[p], s'[p]);
    }
  }

  /** A walk that passes only slots holding other keys before it reaches `k` at offset `d`
      stops there. */
  lemma ProbeFromReaches<K, V>(s: seq<Option<(K, V)>>, h: nat, k: K, d0: nat, d: nat)
    requires |s| == N && h < N && d0 <= d < N && Holds(s, Pos(h, d), k)
    requires forall e :: d0 <= e < d ==> s[Pos(h, e)].Some? && s[Pos(h, e)].value.0 != k
    ensures ProbeFrom(s, h, k, d0) == Found(d)
  {
    ProbeFromStops(s, h, k, d0);
  }

  /** A walk that passes only slots holding other keys before a null slot at offset `d`
      stops there. */
  lemma ProbeFromMeetsVacancy<K, V>(s: seq<Option<(K, V)>>, h: nat, k: K, d0: nat, d: nat)
    requires |s| == N && h < N && d0 <= d < N && s[Pos(h, d)].None?
    requires forall e :: d0 <= e < d ==> s[Pos(h, e)].Some? && s[Pos(h, e)].value.0 != k
    ensures ProbeFrom(s, h, k, d0) == Vacant(d)
  {
    ProbeFromStops(s, h, k, d0);
  }

  /** An update walk that meets no item with key `k` before a null slot at offset `d` (or
      the end) changes nothing. */
  lemma {:induction false} ProbeUpdateStops<K, V>(s: seq<Option<(K, V)>>, h: nat, k: K, v: V, d0: nat, hit: bool, d: nat)
    requires |s| == N && h < N && d0 <= d <= N && (d == N || s[Pos(h, d)].None?)
    requires forall e :: d0 <= e < d ==> s[Pos(h, e)].Some? && s[Pos(h, e)].value.0 != k
    ensures ProbeUpdate(s, h, k, v, d0, hit) == (s, hit)
    decreases d - d0
  {
    if d0 < d {
      ProbeUpdateStops(s, h, k, v, d0 + 1, hit, d);
    }
  }

  /** An update walk over a probe sequence in which `k` sits only at offset `d`, with every
      slot before it occupied, changes exactly that slot. */
  lemma {:induction false} ProbeUpdateReaches<K, V>(s: seq<Option<(K, V)>>, h: nat, k: K, v: V, d0: nat, hit: bool, d: nat)
    requires |s| == N && h < N && d0 <= d < N && Holds(s, Pos(h, d), k)
    requires forall e :: d0 <= e < d ==> s[Pos(h, e)].Some?
    requires forall e :: d0 <= e < N && e != d && s[Pos(h, e)].Some? ==> s[Pos(h, e)].value.0 != k
    ensures ProbeUpdate(s, h, k, v, d0, hit) == (s[Pos(h, d) := Some((k, v))], true)
    decreases d - d0
  {
    if d0 < d {
      ProbeUpdateReaches(s, h, k, v, d0 + 1, hit, d);
    } else {
      var s' := s[Pos(h, d) := Some((k, v))];
      var stop := match VacantFrom(s', h, d + 1) case Some(e) => e case None => N;
      forall e | d + 1 <= e < stop ensures s'[Pos(h, e)].Some? && s'[Pos(h, e)].value.0 != k {
        assert Pos(h, e) != Pos(h, d);
      }
      ProbeUpdateStops(s', h, k, v, d + 1, true, stop);
    }
  }

  /** Under the invariant the slot holding a listed key is the only one on any probe
      sequence: every other offset is another key or null. */
  lemma OnlyOffset<K, V>(t: Table<K, V>, h: nat, k: K, d: nat)
    requires Invariant(t) && h < N && d < N && Holds(t.slots, Pos(h, d), k)
    ensures forall e :: 0 <= e < N && e != d && t.slots[Pos(h, e)].Some? ==> t.slots[Pos(h, e)].value.0 != k
  {
    forall e | 0 <= e < N && e != d && t.slots[Pos(h, e)].Some?
      ensures t.slots[Pos(h, e)].value.0 != k
    {
      assert Pos(h, e) != Pos(h, d);
    }
  }

  /** Round trip (Dict.cs:79-93, 457-478): right after `Add(k, v)` stores a new key,
      `Search(k)` with the same hash code returns `v`, because every slot between the home
      slot and the new one is occupied by another key. */
  lemma AddThenSearch<K, V>(t: Table<K, V>, k: K, v: V, code: int)
    requires Invariant(t) && Add(t, k, v, code).0 == Added
    ensures Search(Add(t, k, v, code).1, k, code) == Hit(v)
  {
    var h := Home(code);
    var d := VacantFrom(t.slots, h, 0).value;
    var s' := t.slots[Pos(h, d) := Some((k, v))];
    assert Add(t, k, v, code).1 == Table(s', t.keys + [k]);
    forall e | 0 <= e < d ensures s'[Pos(h, e)].Some? && s'[Pos(h, e)].value.0 != k {
      assert Pos(h, e) != Pos(h, d);
      assert t.slots[Pos(h, e)].value.0 in t.keys;
    }
    if d != 0 {
      assert Pos(h, 0) == h;
      ProbeFromReaches(s', h, k, 0, d);
    }
  }

  /** Under the textbook linear-probing invariant `Search` finds every listed key: it
      returns the value in the one slot that holds it. */
  lemma ReachableSearch<K, V>(t: Table<K, V>, hash: K -> int, k: K, p: nat)
    requires Invariant(t) && Reachable(t, hash) && p < N && Holds(t.slots, p, k)
    ensures Search(t, k, hash(k)) == Hit(t.slots[p].value.1)
  {
    var h := Home(hash(k));
    var d :| ReachedAt(t.slots, h, k, d);
    assert Pos(h, d) == p;
    OnlyOffset(t, h, k, d);
    if d != 0 {
      assert Pos(h, 0) == h;
      ProbeFromReaches(t.slots, h, k, 0, d);
    }
  }

  /** Under the textbook invariant `Remove` of a listed key takes out exactly its slot. */
  lemma ReachableRemove<K, V>(t: Table<K, V>, hash: K -> int, k: K, p: nat)
    requires Invariant(t) && Reachable(t, hash) && p < N && Holds(t.slots, p, k)
    ensures Remove(t, k, hash(k)) == (Removed, Table(t.slots[p := None], RemoveFirst(t.keys, k)))
  {
    var h := Home(hash(k));
    var d :| ReachedAt(t.slots, h, k, d);
    assert Pos(h, d) == p;
    OnlyOffset(t, h, k, d);
    if d != 0 {
      assert Pos(h, 0) == h;
      ProbeFromReaches(t.slots, h, k, 0, d);
    }
  }

  /** Under the textbook invariant `Update` of a listed key replaces the value in its slot
      and changes nothing else (Dict.cs:367-412). */
  lemma ReachableUpdate<K, V>(t: Table<K, V>, hash: K -> int, k: K, v: V, p: nat)
    requires Invariant(t) && Reachable(t, hash) && p < N && Holds(t.slots, p, k)
    ensures Update(t, k, v, hash(k)) == (Updated, t.(slots := t.slots[p := Some((k, v))]))
  {
    var h := Home(hash(k));
    var d :| ReachedAt(t.slots, h, k, d);
    assert Pos(h, d) == p;
    OnlyOffset(t, h, k, d);
    if d != 0 {
      assert Pos(h, 0) == h;
      ProbeUpdateReaches(t.slots, h, k, v, 0, false, d);
    }
  }

  /** `Add` with the key's own hash code keeps the textbook invariant: the new key lands
      after a run of occupied slots, and old keys only see slots fill up. */
  lemma AddKeepsReachable<K, V>(t: Table<K, V>, hash: K -> int, k: K, v: V)
    requires |t.slots| == N && Reachable(t, hash)
    ensures Reachable(Add(t, k, v, hash(k)).1, hash)
  {
    var (o, t') := Add(t, k, v, hash(k));
    if o == Added {
      var h := Home(hash(k));
      var d := VacantFrom(t.slots, h, 0).value;
      var s, s' := t.slots, t'.slots;
      assert s' == s[Pos(h, d) := Some((k, v))] && t'.keys == t.keys + [k];
      forall k' | k' in t'.keys
        ensures Home(hash(k')) >= 0 && exists d' :: ReachedAt(s', Home(hash(k')), k', d')
      {
        if k' == k {
          assert ReachedAt(s', h, k, d);
        } else {
          var d' :| ReachedAt(s, Home(hash(k')), k', d');
          assert ReachedAt(s', Home(hash(k')), k', d');
        }
      }
    }
  }

  /** `Update` keeps the textbook invariant: it changes no key and empties no slot. */
  lemma UpdateKeepsReachable<K, V>(t: Table<K, V>, hash: K -> int, k: K, v: V, code: int)
    requires |t.slots| == N && Reachable(t, hash)
    ensures Reachable(Update(t, k, v, code).1, hash)
  {
    var t' := Update(t, k, v, code).1;
    forall k' | k' in t'.keys
      ensures Home(hash(k')) >= 0 && exists d' :: ReachedAt(t'.slots, Home(hash(k')), k', d')
    {
      assert k' in t.keys;
      var h' := Home(hash(k'));
      var d': nat :| ReachedAt(t.slots, h', k', d');
      assert SameShape(t.slots[Pos(h', d')], t'.slots[Pos(h', d')]);
      forall e | 0 <= e < d' ensures t'.slots[Pos(h', e)].Some? {
        assert SameShape(t.slots[Pos(h', e)], t'.slots[Pos(h', e)]);
      }
      assert ReachedAt(t'.slots, h', k', d');
    }
  }

  /** The defect of eager removal: once a null slot lies between a key's occupied home slot
      and the key itself, `Search` returns `default` and `Remove` and `Update` change
      nothing, although the key is still listed in `Keys` and held by a slot. */
  lemma VacancyHidesKey<K, V>(t: Table<K, V>, k: K, v: V, code: int)
    requires |t.slots| == N && k in t.keys && 0 <= Home(code)
    requires t.slots[Home(code)].Some? && ProbeFrom(t.slots, Home(code), k, 0).Vacant?
    ensures Search(t, k, code) == Miss
    ensures Remove(t, k, code) == (Stranded, t)
    ensures Update(t, k, v, code) == (Stranded, t)
  {
    var h := Home(code);
    ProbeFromStops(t.slots, h, k, 0);
    assert Pos(h, 0) == h;
    ProbeUpdateStops(t.slots, h, k, v, 0, false, ProbeFrom(t.slots, h, k, 0).at);
  }

  /** `Search` for a listed key whose home slot is null runs the `foreach` (Dict.cs:442-454):
      it returns the key's value when every slot before the key's is occupied, and
      otherwise dereferences a null slot; in particular it always fails when the key sits
      after its home slot. */
  lemma VacantHomeSearch<K, V>(t: Table<K, V>, k: K, code: int, p: nat)
    requires Invariant(t) && p < N && Holds(t.slots, p, k)
    requires 0 <= Home(code) && t.slots[Home(code)].None?
    ensures Search(t, k, code) ==
      if forall q :: 0 <= q < p ==> t.slots[q].Some? then Hit(t.slots[p].value.1) else Thrown(NullReference)
    ensures Home(code) < p ==> Search(t, k, code) == Thrown(NullReference)
  {
    assert Pos(0, p) == p;
    OnlyOffset(t, 0, k, p);
    if forall q :: 0 <= q < p ==> t.slots[q].Some? {
      ProbeFromReaches(t.slots, 0, k, 0, p);
    } else {
      var q0 := VacantFrom(t.slots, 0, 0).value;
      ProbeFromMeetsVacancy(t.slots, 0, k, 0, q0);
    }
  }

  /** `Update` for a listed key whose home slot is null runs the `foreach` (Dict.cs:361-364):
      it always ends in a null dereference, having replaced the key's value only if every
      slot before the key's is occupied. */
  lemma VacantHomeUpdate<K, V>(t: Table<K, V>, k: K, v: V, code: int, p: nat)
    requires Invariant(t) && p < N && Holds(t.slots, p, k)
    requires 0 <= Home(code) && t.slots[Home(code)].None?
    ensures Update(t, k, v, code) == (Threw(NullReference), t.(slots :=
      if forall q :: 0 <= q < p ==> t.slots[q].Some? then t.slots[p := Some((k, v))] else t.slots))
  {
    assert Pos(0, p) == p;
    OnlyOffset(t, 0, k, p);
    if forall q :: 0 <= q < p ==> t.slots[q].Some? {
      ProbeUpdateReaches(t.slots, 0, k, v, 0, false, p);
    } else {
      var q0 := VacantFrom(t.slots, 0, 0).value;
      ProbeUpdateStops(t.slots, 0, k, v, 0, false, q0);
    }
  }

  /** `Remove` for a listed key whose home slot is null scans the whole array, skipping
      null slots (Dict.cs:252-268): it always finds and removes the key. */
  lemma VacantHomeRemove<K, V>(t: Table<K, V>, k: K, code: int, p: nat)
    requires Invariant(t) && p < N && Holds(t.slots, p, k)
    requires 0 <= Home(code) && t.slots[Home(code)].None?
    ensures Remove(t, k, code) == (Removed, Table(t.slots[p := None], RemoveFirst(t.keys, k)))
  {
    var r := HoldingFrom(t.slots, k, 0);
    assert r.Some? ==> r.value == p;
    assert !Holds(t.slots, Home(code), k);
  }
}
