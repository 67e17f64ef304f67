/** The map of Map/Model/Map.cs as plain values: its list of items becomes the sequence of
    their key-value pairs, in list order. Each operation is one function; a mathematical
    `map` is the reference they are proved against. */
module MapSpec {
  import opened Outcomes
  import opened Lists

  /** The property `keys`: the keys of the items, in list order. */
  function Keys<K, V>(ps: seq<(K, V)>): (ks: seq<K>)
    ensures |ks| == |ps|
    ensures forall i :: 0 <= i < |ps| ==> ks[i] == ps[i].0
  {
    seq(|ps|, i requires 0 <= i < |ps| => ps[i].0)
  }

  /** The position `SingleOrDefault(i => i.Key.Equals(key))` picks while keys are unique: the
      first item with the key, or `|ps|` when there is none. */
  function IndexOf<K(==), V>(ps: seq<(K, V)>, k: K): (i: nat)
    ensures i <= |ps|
    ensures i < |ps| ==> ps[i].0 == k
    ensures forall j :: 0 <= j < i ==> ps[j].0 != k
    ensures i == |ps| <==> k !in Keys(ps)
  {
    var i := FirstIndex(Keys(ps), k);
    assert forall j :: 0 <= j < i ==> Keys(ps)[..i][j] == ps[j].0;
    i
  }

  /** What the list means: each listed key with the value of its item. */
  ghost function AsMap<K, V>(ps: seq<(K, V)>): (m: map<K, V>)
    ensures m.Keys == set k | k in Keys(ps)
  {
    map k | k in Keys(ps) :: ps[IndexOf(ps, k)].1
  }

  /** `Add(item)` and `Add(key, value)`: a listed key is refused, a new one is appended. */
  function Add<K(==), V>(ps: seq<(K, V)>, k: K, v: V): (r: (Outcome, seq<(K, V)>))
    ensures r.0 in {Added, AlreadyExists}
    ensures r.0 == AlreadyExists <==> k in Keys(ps)
    ensures r.0 == AlreadyExists ==> r.1 == ps
    ensures r.0 == Added ==> |r.1| == |ps| + 1 && r.1[..|ps|] == ps && r.1[|ps|] == (k, v)
  {
    if k in Keys(ps) then (AlreadyExists, ps) else (Added, ps + [(k, v)])
  }

  /** `Update(key, newValue)`: the value of the item with the key is replaced; with no such
      item nothing changes. */
  function Update<K(==), V>(ps: seq<(K, V)>, k: K, v: V): (r: (Outcome, seq<(K, V)>))
    ensures r.0 in {Updated, NotFound}
    ensures r.0 == NotFound <==> k !in Keys(ps)
    ensures r.0 == NotFound ==> r.1 == ps
    ensures Keys(r.1) == Keys(ps)
    ensures forall i :: 0 <= i < |ps| && r.1[i] != ps[i] ==> ps[i].0 == k && r.1[i] == (k, v)
  {
    var i := IndexOf(ps, k);
    if i == |ps| then (NotFound, ps)
    else
      var r := ps[i := (k, v)];
      assert forall j :: 0 <= j < |ps| ==> Keys(r)[j] == Keys(ps)[j];
      (Updated, r)
  }

  /** `Remove(key)`: the item with the key is taken out and the others keep their order;
      with no such item nothing changes. */
  function Remove<K(==), V>(ps: seq<(K, V)>, k: K): (r: (Outcome, seq<(K, V)>))
    ensures r.0 in {Removed, NotFound}
    ensures r.0 == NotFound <==> k !in Keys(ps)
    ensures r.0 == NotFound ==> r.1 == ps
    ensures r.0 == Removed ==> exists i :: 0 <= i < |ps| && ps[i].0 == k && r.1 == ps[..i] + ps[i + 1..]
  {
    var i := IndexOf(ps, k);
    if i == |ps| then (NotFound, ps) else (Removed, ps[..i] + ps[i + 1..])
  }

  /** `Search(key)`: the value of the item with the key; with none, an `ArgumentException`. */
  function Search<K(==), V>(ps: seq<(K, V)>, k: K): (r: Lookup<V>)
    ensures r.Hit? <==> k in Keys(ps)
    ensures r.Hit? ==> exists i :: 0 <= i < |ps| && ps[i] == (k, r.value)
    ensures !r.Hit? ==> r == Thrown(KeyArgument)
  {
    var i := IndexOf(ps, k);
    if i == |ps| then Thrown(KeyArgument) else Hit(ps[i].1)
  }

  /** `Search` is lookup in the map the list means. */
  lemma SearchIsLookup<K, V>(ps: seq<(K, V)>, k: K)
    ensures Search(ps, k) == if k in AsMap(ps) then Hit(AsMap(ps)[k]) else Thrown(KeyArgument)
  {
  }

  /** `Add` keeps the keys free of duplicates, which is what makes `SingleOrDefault` safe. */
  lemma AddKeepsUnique<K, V>(ps: seq<(K, V)>, k: K, v: V)
    requires NoDuplicates(Keys(ps))
    ensures NoDuplicates(Keys(Add(ps, k, v).1))
  {
    if k !in Keys(ps) {
      assert Keys(ps + [(k, v)]) == Keys(ps) + [k] by {
        assert (ps + [(k, v)])[..|ps|] == ps;
      }
      AppendFresh(Keys(ps), k);
    }
  }

  /** The keys after `Remove` are those before with the removed key taken out, as
      `List<TKey>.Remove` would leave them. */
  lemma {:induction false} RemoveKeys<K, V>(ps: seq<(K, V)>, k: K)
    ensures Keys(Remove(ps, k).1) == RemoveFirst(Keys(ps), k)
  {
    var i := IndexOf(ps, k);
    var r := Remove(ps, k).1;
    if i < |ps| {
      assert FirstIndex(Keys(ps), k) == i;
      assert |Keys(r)| == |Keys(ps)[..i] + Keys(ps)[i + 1..]|;
      forall j | 0 <= j < |r| ensures Keys(r)[j] == (Keys(ps)[..i] + Keys(ps)[i + 1..])[j] {
        if j < i {
          assert r[j] == ps[j];
        } else {
          assert r[j] == ps[j + 1];
        }
      }
    }
  }

  /** `Remove` keeps the keys free of duplicates. */
  lemma RemoveKeepsUnique<K, V>(ps: seq<(K, V)>, k: K)
    requires NoDuplicates(Keys(ps))
    ensures NoDuplicates(Keys(Remove(ps, k).1))
    ensures k !in Keys(Remove(ps, k).1)
  {
    RemoveKeys(ps, k);
    RemoveFirstUnique(Keys(ps), k);
  }

  /** With unique keys, an item's position is the one `IndexOf` finds for its key. */
  lemma UniqueIndex<K, V>(ps: seq<(K, V)>, i: nat)
    requires NoDuplicates(Keys(ps)) && i < |ps|
    ensures IndexOf(ps, ps[i].0) == i
  {
    FirstIndexUnique(Keys(ps), i);
  }

  /** With unique keys, deleting the pair at any position keeps the keys unique. */
  lemma DropKeepsUnique<K, V>(ps: seq<(K, V)>, i: nat)
    requires NoDuplicates(Keys(ps)) && i < |ps|
    ensures NoDuplicates(Keys(ps[..i] + ps[i + 1..]))
  {
    UniqueIndex(ps, i);
    RemoveKeepsUnique(ps, ps[i].0);
  }

  /** `Add` is insertion of a new key into the map the list means, and changes nothing for
      a listed one. */
  lemma AddIsInsert<K, V>(ps: seq<(K, V)>, k: K, v: V)
    ensures AsMap(Add(ps, k, v).1) == if k in AsMap(ps) then AsMap(ps) else AsMap(ps)[k := v]
  {
    if k !in Keys(ps) {
      var r := ps + [(k, v)];
      assert Keys(r) == Keys(ps) + [k] by {
        assert r[..|ps|] == ps;
      }
      forall k' | k' in Keys(ps) ensures IndexOf(r, k') == IndexOf(ps, k') {
        assert IndexOf(ps, k') < |ps|;
      }
      assert IndexOf(r, k) == |ps|;
    }
  }

  /** `Update` overwrites the value of a listed key in the map the list means, and changes
      nothing for an unlisted one. */
  lemma UpdateIsOverwrite<K, V>(ps: seq<(K, V)>, k: K, v: V)
    ensures AsMap(Update(ps, k, v).1) == if k in AsMap(ps) then AsMap(ps)[k := v] else AsMap(ps)
  {
    var i := IndexOf(ps, k);
    if i < |ps| {
      var r := Update(ps, k, v).1;
      assert forall k' :: IndexOf(r, k') == IndexOf(ps, k');
    }
  }

  /** With unique keys, `Remove` erases the key from the map the list means. */
  lemma RemoveIsErase<K, V>(ps: seq<(K, V)>, k: K)
    requires NoDuplicates(Keys(ps))
    ensures AsMap(Remove(ps, k).1) == AsMap(ps) - {k}
  {
    RemoveErasesKey(ps, k);
    forall k' | k' in AsMap(Remove(ps, k).1) ensures AsMap(Remove(ps, k).1)[k'] == AsMap(ps)[k'] {
      RemoveKeepsValue(ps, k, k');
    }
  }

  /** With unique keys, the keys `Remove` leaves are the others. */
  lemma RemoveErasesKey<K, V>(ps: seq<(K, V)>, k: K)
    requires NoDuplicates(Keys(ps))
    ensures AsMap(Remove(ps, k).1).Keys == AsMap(ps).Keys - {k}
  {
    RemoveKeys(ps, k);
    RemoveFirstSet(Keys(ps), k);
  }

  /** With unique keys, a key `Remove` keeps has the value it had. */
  lemma RemoveKeepsValue<K, V>(ps: seq<(K, V)>, k: K, k': K)
    requires NoDuplicates(Keys(ps)) && k' in Keys(Remove(ps, k).1)
    ensures Remove(ps, k).1[IndexOf(Remove(ps, k).1, k')].1 == ps[IndexOf(ps, k')].1
  {
    var i := IndexOf(ps, k);
    var r := Remove(ps, k).1;
    var j := IndexOf(r, k');
    if i < |ps| {
      var j' := if j < i then j else j + 1;
      assert r[j] == ps[j'];
      UniqueIndex(ps, j');
    }
  }

  /** Right after `Add(k, v)` of a new key, `Search(k)` returns `v`; for a listed key it
      still returns the old value. */
  lemma AddThenSearch<K, V>(ps: seq<(K, V)>, k: K, v: V)
    ensures Search(Add(ps, k, v).1, k) == if k in Keys(ps) then Search(ps, k) else Hit(v)
  {
    AddIsInsert(ps, k, v);
    SearchIsLookup(ps, k);
    SearchIsLookup(Add(ps, k, v).1, k);
  }

  /** Right after `Update(k, v)` of a listed key, `Search(k)` returns `v`, and every other
      key keeps its value. */
  lemma UpdateThenSearch<K, V>(ps: seq<(K, V)>, k: K, v: V, k': K)
    requires k in Keys(ps)
    ensures Search(Update(ps, k, v).1, k') == if k' == k then Hit(v) else Search(ps, k')
  {
    UpdateIsOverwrite(ps, k, v);
    SearchIsLookup(ps, k');
    SearchIsLookup(Update(ps, k, v).1, k');
  }
}
