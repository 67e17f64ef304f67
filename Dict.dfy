/** The class `Dict<TKey, TValue>` of Map/Model/Dict.cs: a fixed array of ten slots holding
    items, filled by linear probing with wraparound, beside the public list `Keys` that
    every operation consults first. Each method follows the source's loops and early
    returns and is proved to compute the matching function of DictSpec on the table it
    holds; DictProperties states what those functions promise. */
module Dicts {
  import opened Outcomes
  import opened Lists
  import opened Items
  import opened DictSpec
  import DictProperties

  /** The items of the non-null slots, in slot order: what `GetEnumerator` yields. */
  function Stored<K, V>(xs: seq<Item?<K, V>>): (r: seq<Item<K, V>>)
    ensures forall j :: 0 <= j < |r| ==> r[j] in xs
  {
    if xs == [] then []
    else
      var init, last := xs[..|xs| - 1], xs[|xs| - 1];
      assert forall x :: x in init ==> x in xs;
      Stored(init) + (if last != null then [last] else [])
  }

  class Dict<K(==), V> {
    /** `key.GetHashCode()`: any deterministic function of the key. */
    const hashCode: K -> int
    /** The slot array `items`, of length `size`; a null slot is vacant. */
    const items: array<Item?<K, V>>
    /** The list `Keys`. */
    var Keys: seq<K>

    /** The key and value of the item in each slot. */
    ghost var Slots: seq<Option<(K, V)>>
    /** The objects the table consists of: itself, the array and the items stored in it. */
    ghost var Repr: set<object>

    /** The representation is well formed: `Slots` mirrors the array, and no item object
        sits in two slots. This says nothing about `Keys`; see `Consistent`. */
    ghost predicate Valid()
      reads this, Repr
    {
      && this in Repr && items in Repr
      && items.Length == N && |Slots| == N
      && (forall i :: 0 <= i < N ==>
            if items[i] == null then Slots[i] == None
            else items[i] in Repr && Slots[i] == Some((items[i].Key, items[i].Value)))
      && (forall i, j :: 0 <= i < j < N && items[i] != null ==> items[i] != items[j])
    }

    /** The table as a value. */
    ghost function View(): Table<K, V>
      reads this
    {
      Table(Slots, Keys)
    }

    /** `Keys` agrees with the slot array. `Keys` is a public field, so this is what the
        operations keep rather than what they need. */
    ghost predicate Consistent()
      reads this
    {
      Invariant(View())
    }

    /** `new Dict()`: ten null slots and no keys. */
    constructor (hashCode: K -> int)
      ensures Valid() && fresh(Repr) && Consistent()
      ensures this.hashCode == hashCode && Keys == []
      ensures forall i :: 0 <= i < N ==> Slots[i] == None
    {
      this.hashCode := hashCode;
      items := new Item?<K, V>[N](_ => null);
      Keys := [];
      Slots := seq(N, _ => None);
      new;
      Repr := {this, items};
      DictProperties.EmptyInvariant(View());
    }

    /** `GetHash`: the home slot of `key`, or a negative index that throws. */
    function GetHash(key: K): (h: int)
      ensures -(N as int) < h < N
      ensures hashCode(key) >= 0 ==> h == hashCode(key) % N
      ensures h >= 0 <==> (hashCode(key) >= 0 || hashCode(key) % N == 0)
    {
      Home(hashCode(key))
    }

    /** `Count`: the length of the slot array, however many items it holds. */
    function Count(): (n: int)
      requires Valid()
      reads this, Repr
      ensures n == N
    {
      items.Length
    }

    /** `Keys.Add(key); items[i] = item;` as the three placing branches of `Add` do. */
    method Place(i: nat, item: Item<K, V>)
      requires Valid() && i < N && items[i] == null && item !in items[..]
      modifies this, items
      ensures Valid() && Repr == old(Repr) + {item}
      ensures Keys == old(Keys) + [item.Key]
      ensures items[..] == old(items[..])[i := item]
      ensures Slots == old(Slots)[i := Some((item.Key, item.Value))]
    {
      Keys := Keys + [item.Key];
      items[i] := item;
      Slots := Slots[i := Some((item.Key, item.Value))];
      Repr := Repr + {item};
    }

    /** `items[i] = null; Keys.Remove(key);` as the four removing branches of `Remove` do. */
    method Vacate(i: nat, key: K)
      requires Valid() && i < N && items[i] != null
      modifies this, items
      ensures Valid() && Repr == old(Repr) - {old(items[i])}
      ensures Keys == RemoveFirst(old(Keys), key)
      ensures items[..] == old(items[..])[i := null]
      ensures Slots == old(Slots)[i := None]
    {
      ghost var gone := items[i];
      items[i] := null;
      Keys := RemoveFirst(Keys, key);
      Slots := Slots[i := None];
      Repr := Repr - {gone};
    }

    /** `items[i].Value = newValue;` as the updating branches of `Update` do. */
    method SetValue(i: nat, newValue: V)
      requires Valid() && i < N && items[i] != null
      modifies this, items[i]
      ensures Valid() && Repr == old(Repr) && Keys == old(Keys)
      ensures Slots == old(Slots)[i := Some((old(items[i].Key), newValue))]
    {
      items[i].Value := newValue;
      Slots := Slots[i := Some((items[i].Key, newValue))];
    }

    /** One probe loop of `Add`: the item goes into the first null slot among
        `items[lo..hi]`, and `placed` records whether there was one. */
    method PlaceFirstNull(item: Item<K, V>, lo: nat, hi: nat) returns (placed: bool)
      requires Valid() && lo <= hi <= N && item !in items[..]
      modifies this, items
      ensures Valid()
      ensures placed == FirstNullIn(old(Slots), lo, hi).Some?
      ensures !placed ==> unchanged(this) && unchanged(items)
      ensures placed ==> items[..] == old(items[..])[FirstNullIn(old(Slots), lo, hi).value := item]
      ensures placed ==> (Repr == old(Repr) + {item} && Keys == old(Keys) + [item.Key] &&
        Slots == old(Slots)[FirstNullIn(old(Slots), lo, hi).value := Some((item.Key, item.Value))])
    {
      placed := false;
      for i := lo to hi
        invariant !placed && unchanged(this) && unchanged(items)
        invariant FirstNullIn(Slots, i, hi) == FirstNullIn(Slots, lo, hi)
      {
        if items[i] == null {
          Place(i, item);
          placed := true;
          break;
        }
      }
    }

    /** The two probe loops of `Search` and `Remove`, and with `hash` zero the `foreach` of
        `Search`: the first slot of the probe sequence from `hash` that is null or holds
        `key`, as an offset along it. */
    method FindKey(hash: nat, key: K) returns (r: Probe)
      requires Valid() && hash < N
      ensures r == ProbeFrom(Slots, hash, key, 0)
    {
      for i := hash to N
        invariant ProbeFrom(Slots, hash, key, i - hash) == ProbeFrom(Slots, hash, key, 0)
      {
        if items[i] == null {
          return Vacant(i - hash);
        }
        if items[i].Key == key {
          return Found(i - hash);
        }
      }
      for i := 0 to hash
        invariant ProbeFrom(Slots, hash, key, N - hash + i) == ProbeFrom(Slots, hash, key, 0)
      {
        if items[i] == null {
          return Vacant(N - hash + i);
        }
        if items[i].Key == key {
          return Found(N - hash + i);
        }
      }
      return Exhausted;
    }

    /** The loop of `Remove` for a null home slot, which skips null slots: the first slot
        holding `key`. */
    method FindHolding(key: K) returns (r: Option<nat>)
      requires Valid()
      ensures r == HoldingFrom(Slots, key, 0)
    {
      for i := 0 to N
        invariant HoldingFrom(Slots, key, i) == HoldingFrom(Slots, key, 0)
      {
        if items[i] != null && items[i].Key == key {
          return Some(i);
        }
      }
      return None;
    }

    /** The two update loops of `Update`, and with `hash` zero its `foreach`: along the probe
        sequence from `hash` up to the first null slot, every item with key `key` gets the
        value `newValue`; `updated` says whether one did. */
    method UpdateMatches(hash: nat, key: K, newValue: V) returns (updated: bool)
      requires Valid() && hash < N
      modifies this, items[..]
      ensures Valid() && Repr == old(Repr) && Keys == old(Keys) && items[..] == old(items[..])
      ensures (Slots, updated) == ProbeUpdate(old(Slots), hash, key, newValue, 0, false)
    {
      var stopped;
      updated, stopped := UpdateRange(hash, key, newValue, hash, N, 0, false);
      if stopped {
        return;
      }
      updated, stopped := UpdateRange(hash, key, newValue, 0, hash, N - hash, updated);
    }

    /** One loop of `Update`: from slot `lo` up to `hi`, replace the value of every item
        with the key, and stop at the first null slot. Slot `lo` is at offset `d0` of the
        probe sequence from `hash`. */
    method UpdateRange(hash: nat, key: K, newValue: V, lo: nat, hi: nat, d0: nat, hit: bool)
      returns (updated: bool, stopped: bool)
      requires Valid() && hash < N
      requires (lo == hash && hi == N && d0 == 0) || (lo == 0 && hi == hash && d0 == N - hash)
      modifies this, items[..]
      ensures Valid() && Repr == old(Repr) && Keys == old(Keys) && items[..] == old(items[..])
      ensures stopped ==> (Slots, updated) == ProbeUpdate(old(Slots), hash, key, newValue, d0, hit)
      ensures !stopped ==> (ProbeUpdate(Slots, hash, key, newValue, d0 + hi - lo, updated) ==
        ProbeUpdate(old(Slots), hash, key, newValue, d0, hit))
    {
      updated, stopped := hit, false;
      for i := lo to hi
        invariant Valid() && Repr == old(Repr) && Keys == old(Keys) && !stopped
        invariant ProbeUpdate(Slots, hash, key, newValue, d0 + i - lo, updated) ==
          ProbeUpdate(old(Slots), hash, key, newValue, d0, hit)
      {
        assert Pos(hash, d0 + i - lo) == i;
        if items[i] == null {
          stopped := true;
          return;
        }
        if items[i].Key == key {
          SetValue(i, newValue);
          updated := true;
        }
      }
    }

    /** The part of `Add(Item item)` that stores a new key: its home slot if that is null,
        else the first null slot that the two probe loops meet; with none, the array is
        full. */
    method Insert(item: Item<K, V>, hash: nat) returns (outcome: Outcome)
      requires Valid() && hash < N && item !in items[..]
      modifies this, items
      ensures Valid() && Repr <= old(Repr) + {item}
      ensures outcome == Added <==> VacantFrom(old(Slots), hash, 0).Some?
      ensures outcome != Added ==> outcome == Full && View() == old(View()) && items[..] == old(items[..])
      ensures outcome == Added ==>
        items[..] == old(items[..])[Pos(hash, VacantFrom(old(Slots), hash, 0).value) := item]
      ensures outcome == Added ==> (View() ==
        Table(old(Slots)[Pos(hash, VacantFrom(old(Slots), hash, 0).value) := Some((item.Key, item.Value))], old(Keys) + [item.Key]))
    {
      if items[hash] == null {
        Place(hash, item);
        return Added;
      }
      VacantUnwrapped(Slots, hash, 0);
      var placed := PlaceFirstNull(item, hash, N);
      if !placed {
        placed := PlaceFirstNull(item, 0, hash);
      }
      if !placed {
        // `throw new Exception("Dict is full")`
        return Full;
      }
      outcome := Added;
    }

    /** `Add(Item item)`. The same object may not be stored twice: an item that already sits
        in a slot must have its key listed, as it always has while `Keys` is consistent. */
    method AddItem(item: Item?<K, V>) returns (outcome: Outcome)
      requires Valid()
      requires item == null || item.Key in Keys || item !in items[..]
      modifies this, items
      ensures Valid()
      ensures item == null ==> outcome == Threw(NullArgument) && View() == old(View()) && Repr == old(Repr)
      ensures item != null ==> (outcome, View()) == DictSpec.Add(old(View()), item.Key, item.Value, hashCode(item.Key))
      ensures item != null ==> Repr <= old(Repr) + {item}
      ensures outcome != Added ==> items[..] == old(items[..])
      ensures outcome == Added ==> exists p :: 0 <= p < N && old(items[p]) == null && items[..] == old(items[..])[p := item]
      ensures old(Consistent()) ==> Consistent()
    {
      if item == null {
        return Threw(NullArgument);
      }
      var hash := GetHash(item.Key);
      if item.Key in Keys {
        return AlreadyExists;
      }
      DictProperties.AddKeepsInvariant(View(), item.Key, item.Value, hashCode(item.Key));
      if hash < 0 {
        // `items[hash]` with a negative index
        return Threw(IndexOutOfRange);
      }
      outcome := Insert(item, hash);
      if outcome == Added {
        var p := Pos(hash, VacantFrom(old(Slots), hash, 0).value);
        assert old(items[p]) == null && items[..] == old(items[..])[p := item];
      }
    }

    /** `Add(key, value)`: the same as `Add(new Item(key, value))`. */
    method Add(key: K, value: V) returns (outcome: Outcome)
      requires Valid()
      modifies this, items
      ensures Valid() && fresh(Repr - old(Repr))
      ensures (outcome, View()) == DictSpec.Add(old(View()), key, value, hashCode(key))
      ensures outcome != Added ==> items[..] == old(items[..])
      ensures outcome == Added ==> exists p :: (0 <= p < N && old(items[p]) == null && items[p] != null &&
        fresh(items[p]) && items[..] == old(items[..])[p := items[p]])
      ensures old(Consistent()) ==> Consistent()
    {
      var item := new Item(key, value);
      outcome := AddItem(item);
    }

    /** `Remove(key)`. */
    method Remove(key: K) returns (outcome: Outcome)
      requires Valid()
      modifies this, items
      ensures Valid()
      ensures (outcome, View()) == DictSpec.Remove(old(View()), key, hashCode(key))
      ensures outcome != Removed ==> items[..] == old(items[..]) && Repr == old(Repr)
      ensures outcome == Removed ==> exists p :: (0 <= p < N && old(items[p]) != null &&
        items[..] == old(items[..])[p := null] && Repr == old(Repr) - {old(items[p])})
      ensures old(Consistent()) ==> Consistent()
    {
      var hash := GetHash(key);
      if key !in Keys {
        return NotFound;
      }
      DictProperties.RemoveKeepsInvariant(View(), key, hashCode(key));
      if hash < 0 {
        return Threw(IndexOutOfRange);
      }
      var at;
      outcome, at := Locate(key, hash);
      if outcome != Removed {
        return;
      }
      Vacate(at, key);
    }

    /** The searching part of `Remove` for a listed key with a valid home slot `hash`: the
        slot to null, or the outcome when there is none. A null home slot sends it through
        the whole array; if no slot holds the key, `items[hash].Key` dereferences the null
        home slot. Otherwise the probe sequence is walked to the first null slot. */
    method Locate(key: K, hash: nat) returns (outcome: Outcome, at: nat)
      requires Valid() && key in Keys && hash == GetHash(key) && hash < N
      ensures outcome != Removed ==> DictSpec.Remove(View(), key, hashCode(key)) == (outcome, View())
      ensures outcome == Removed ==> (at < N && items[at] != null &&
        DictSpec.Remove(View(), key, hashCode(key)) == (Removed, Table(Slots[at := None], RemoveFirst(Keys, key))))
    {
      at := 0;
      if items[hash] == null {
        var p := FindHolding(key);
        if p == None {
          return Threw(NullReference), 0;
        }
        return Removed, p.value;
      }
      if items[hash].Key == key {
        assert Holds(Slots, hash, key);
        return Removed, hash;
      }
      var r := FindKey(hash, key);
      ProbeFromStops(Slots, hash, key, 0);
      if !r.Found? {
        return Stranded, 0;
      }
      return Removed, Pos(hash, r.at);
    }

    /** `Update(key, newValue)`: the value is replaced in the stored item itself. */
    method Update(key: K, newValue: V) returns (outcome: Outcome)
      requires Valid()
      modifies this, items[..]
      ensures Valid() && Repr == old(Repr) && items[..] == old(items[..])
      ensures (outcome, View()) == DictSpec.Update(old(View()), key, newValue, hashCode(key))
      ensures old(Consistent()) ==> Consistent()
    {
      var hash := GetHash(key);
      if key !in Keys {
        return NotFound;
      }
      DictProperties.UpdateKeepsInvariant(View(), key, newValue, hashCode(key));
      if hash < 0 {
        return Threw(IndexOutOfRange);
      }
      if items[hash] == null {
        // the `foreach` stops at the first null slot, at the latest the home slot, by
        // dereferencing it
        var _ := UpdateMatches(0, key, newValue);
        return Threw(NullReference);
      }
      if items[hash].Key == key {
        SetValue(hash, newValue);
        return Updated;
      }
      var updated := UpdateMatches(hash, key, newValue);
      return if updated then Updated else Stranded;
    }

    /** `Search(key)`: `Miss` stands for the `default` it returns. */
    method Search(key: K) returns (r: Lookup<V>)
      requires Valid()
      ensures r == DictSpec.Search(View(), key, hashCode(key))
    {
      var hash := GetHash(key);
      if key !in Keys {
        return Miss;
      }
      if hash < 0 {
        return Thrown(IndexOutOfRange);
      }
      if items[hash] == null {
        // the `foreach`: a null slot before the key is dereferenced, and so is the null
        // home slot after it if the key is nowhere
        var f := FindKey(0, key);
        ProbeFromStops(Slots, 0, key, 0);
        if !f.Found? {
          return Thrown(NullReference);
        }
        return Hit(items[f.at].Value);
      }
      if items[hash].Key == key {
        return Hit(items[hash].Value);
      }
      var f := FindKey(hash, key);
      ProbeFromStops(Slots, hash, key, 0);
      if !f.Found? {
        return Miss;
      }
      return Hit(items[Pos(hash, f.at)].Value);
    }

    /** `GetEnumerator`: the stored items, in slot order. */
    method GetEnumerator() returns (es: seq<Item<K, V>>)
      requires Valid()
      ensures es == Stored(items[..])
      ensures |es| == |Entries(Slots)|
      ensures forall j :: 0 <= j < |es| ==> es[j] in items[..] && (es[j].Key, es[j].Value) == Entries(Slots)[j]
    {
      es := [];
      for i := 0 to N
        invariant es == Stored(items[..i])
        invariant |es| == |Entries(Slots[..i])|
        invariant forall j :: 0 <= j < |es| ==> es[j] in items[..] && (es[j].Key, es[j].Value) == Entries(Slots[..i])[j]
      {
        EntriesSnoc(Slots, i);
        assert items[..i + 1][..i] == items[..i];
        if items[i] != null {
          es := es + [items[i]];
        }
      }
      assert Slots[..N] == Slots && items[..N] == items[..];
    }
  }
}
