/** The class `Map<TKey, TValue>` of Map/Model/Map.cs: a list of items searched by key with
    LINQ. Each method is proved to compute the matching function of MapSpec on the
    sequence of pairs it holds, and to keep the keys free of duplicates, which is what
    lets `SingleOrDefault` pick one item without throwing. */
module Maps {
  import opened Outcomes
  import opened Lists
  import opened Items
  import MapSpec

  /** The keys of a list of items, in order (`ConvertAll(x => x.Key)`). */
  function KeysOf<K, V>(xs: seq<Item<K, V>>): (ks: seq<K>)
    reads xs
    ensures |ks| == |xs|
    ensures forall i :: 0 <= i < |xs| ==> ks[i] == xs[i].Key
  {
    if xs == [] then [] else [xs[0].Key] + KeysOf(xs[1..])
  }

  /** The position of the first item with the key, or `|xs|` when there is none: the item
      `SingleOrDefault(i => i.Key.Equals(key))` returns while keys are unique. */
  function FindItem<K(==), V>(xs: seq<Item<K, V>>, key: K): (i: nat)
    reads xs
    ensures i <= |xs|
    ensures i < |xs| ==> xs[i].Key == key
    ensures forall j :: 0 <= j < i ==> xs[j].Key != key
  {
    if xs == [] then 0
    else if xs[0].Key == key then 0
    else 1 + FindItem(xs[1..], key)
  }

  class Map<K(==), V> {
    /** The list `items`. */
    var items: seq<Item<K, V>>

    /** The key and value of each item, in list order. */
    ghost var Contents: seq<(K, V)>
    /** The objects the map consists of: itself and the items in its list. */
    ghost var Repr: set<object>

    /** `Contents` mirrors the list, no item object is listed twice, and no key is listed
        twice. */
    ghost predicate Valid()
      reads this, Repr
    {
      && this in Repr
      && |Contents| == |items|
      && (forall i :: 0 <= i < |items| ==>
            items[i] in Repr && Contents[i] == (items[i].Key, items[i].Value))
      && (forall i, j :: 0 <= i < j < |items| ==> items[i] != items[j])
      && NoDuplicates(MapSpec.Keys(Contents))
    }

    /** The map as a value. */
    ghost function View(): seq<(K, V)>
      reads this
    {
      Contents
    }

    /** `new Map()`: an empty list. */
    constructor ()
      ensures Valid() && fresh(Repr) && View() == []
    {
      items := [];
      Contents := [];
      new;
      Repr := {this};
    }

    /** The property `keys`: the keys of the items, in list order. */
    function Keys(): (ks: seq<K>)
      requires Valid()
      reads this, Repr
      ensures ks == MapSpec.Keys(View())
      ensures NoDuplicates(ks)
    {
      KeysOf(items)
    }

    /** The property `Count`: the number of items. */
    function Count(): (n: nat)
      requires Valid()
      reads this, Repr
      ensures n == |View()|
      ensures n == |Keys()|
    {
      |items|
    }

    /** `SingleOrDefault` on the list finds the position `MapSpec.IndexOf` names. */
    lemma FindItemIsIndexOf(key: K)
      requires Valid()
      ensures FindItem(items, key) == MapSpec.IndexOf(View(), key)
    {
    }

    /** `Search(key)`: the value of the item with the key, or an `ArgumentException`. */
    function Search(key: K): (r: Lookup<V>)
      requires Valid()
      reads this, Repr
      ensures r == MapSpec.Search(View(), key)
    {
      FindItemIsIndexOf(key);
      var i := FindItem(items, key);
      if i == |items| then Thrown(KeyArgument) else Hit(items[i].Value)
    }

    /** `Add(item)`: a null item throws; an item whose key is listed is refused; any other
        item is appended to the list, the object itself and not a copy. */
    method AddItem(item: Item?<K, V>) returns (outcome: Outcome)
      requires Valid()
      modifies this
      ensures Valid()
      ensures item == null ==> outcome == Threw(NullArgument) && unchanged(this)
      ensures item != null ==> (outcome, View()) == MapSpec.Add(old(View()), item.Key, item.Value)
      ensures outcome == Added ==> items == old(items) + [item] && Repr == old(Repr) + {item}
      ensures outcome != Added ==> unchanged(this)
    {
      if item == null {
        return Threw(NullArgument);
      }
      if item.Key in Keys() {
        return AlreadyExists;
      }
      Append(item);
      outcome := Added;
    }

    /** `Add(key, value)`: a listed key is refused; otherwise a new item is appended. */
    method Add(key: K, value: V) returns (outcome: Outcome)
      requires Valid()
      modifies this
      ensures Valid()
      ensures (outcome, View()) == MapSpec.Add(old(View()), key, value)
      ensures outcome == Added ==> |items| == |old(items)| + 1 && items[..|old(items)|] == old(items)
      ensures outcome == Added ==> fresh(items[|old(items)|]) && Repr == old(Repr) + {items[|old(items)|]}
      ensures outcome != Added ==> unchanged(this)
    {
      if key in Keys() {
        return AlreadyExists;
      }
      var item := new Item(key, value);
      Append(item);
      outcome := Added;
    }

    /** `items.Add(item)` for an item whose key is not listed. */
    method Append(item: Item<K, V>)
      requires Valid() && item.Key !in Keys()
      modifies this
      ensures Valid()
      ensures items == old(items) + [item] && Repr == old(Repr) + {item}
      ensures Contents == old(Contents) + [(item.Key, item.Value)]
    {
      assert forall i :: 0 <= i < |items| ==> items[i] != item by {
        assert forall i :: 0 <= i < |items| ==> Keys()[i] == items[i].Key;
      }
      MapSpec.AddKeepsUnique(Contents, item.Key, item.Value);
      items := items + [item];
      Contents := Contents + [(item.Key, item.Value)];
      Repr := Repr + {item};
    }

    /** `Update(key, newValue)`: the value of the item with the key is replaced in place;
        with no such item nothing changes. */
    method Update(key: K, newValue: V) returns (outcome: Outcome)
      requires Valid()
      modifies this, items
      ensures Valid() && Repr == old(Repr) && items == old(items)
      ensures (outcome, View()) == MapSpec.Update(old(View()), key, newValue)
    {
      FindItemIsIndexOf(key);
      var i := FindItem(items, key);
      if i == |items| {
        return NotFound;
      }
      ghost var updated := MapSpec.Update(Contents, key, newValue).1;
      items[i].Value := newValue;
      Contents := Contents[i := (key, newValue)];
      assert Contents == updated;
      outcome := Updated;
    }

    /** `Remove(key)`: the item with the key is taken out with `List.Remove`, which keeps
        the others in order; with no such item nothing changes. */
    method Remove(key: K) returns (outcome: Outcome)
      requires Valid()
      modifies this
      ensures Valid()
      ensures (outcome, View()) == MapSpec.Remove(old(View()), key)
      ensures outcome == Removed ==>
        items == RemoveFirst(old(items), old(items)[MapSpec.IndexOf(old(View()), key)]) &&
        Repr == old(Repr) - {old(items)[MapSpec.IndexOf(old(View()), key)]}
      ensures outcome != Removed ==> unchanged(this)
    {
      FindItemIsIndexOf(key);
      var i := FindItem(items, key);
      if i == |items| {
        return NotFound;
      }
      var item := items[i];
      assert FirstIndex(items, item) == i;
      Drop(i);
      outcome := Removed;
    }

    /** `items.Remove(item)` for the item at position `i`. */
    method Drop(i: nat)
      requires Valid() && i < |items|
      modifies this
      ensures Valid() && Repr == old(Repr) - {old(items)[i]}
      ensures items == old(items)[..i] + old(items)[i + 1..]
      ensures Contents == old(Contents)[..i] + old(Contents)[i + 1..]
    {
      MapSpec.DropKeepsUnique(Contents, i);
      ghost var before := items;
      items := items[..i] + items[i + 1..];
      Contents := Contents[..i] + Contents[i + 1..];
      Repr := Repr - {before[i]};
      assert forall j :: 0 <= j < |items| ==> items[j] == before[if j < i then j else j + 1];
    }

    /** `GetEnumerator()`: the items in list order. */
    method GetEnumerator() returns (es: seq<Item<K, V>>)
      requires Valid()
      ensures es == items
      ensures |es| == |View()|
      ensures forall i :: 0 <= i < |es| ==> (es[i].Key, es[i].Value) == View()[i]
    {
      es := items;
    }
  }
}
