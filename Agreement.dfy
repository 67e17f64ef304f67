/** The two containers side by side: a hash table of Map/Model/Dict.cs and a list of
    Map/Model/Map.cs agree when they hold the same keys with the same values. While every
    listed key of the table is reached from its home slot they give the same outcomes and
    keep agreeing; a full table, a negative hash code and a soft miss are where they part. */
module Agreement {
  import opened Outcomes
  import opened Lists
  import D = DictSpec
  import M = MapSpec
  import DictProperties
  import DictMeaning

  /** The table and the list hold the same keys with the same values, and each keeps its own
      invariant. */
  ghost predicate Agree<K, V>(t: D.Table<K, V>, ps: seq<(K, V)>) {
    && D.Invariant(t)
    && NoDuplicates(M.Keys(ps))
    && DictMeaning.Meaning(t) == M.AsMap(ps)
  }

  /** Agreeing containers list the same keys. */
  lemma AgreeKeys<K, V>(t: D.Table<K, V>, ps: seq<(K, V)>)
    requires Agree(t, ps)
    ensures forall k :: k in t.keys <==> k in M.Keys(ps)
  {
    DictMeaning.MeaningKeys(t);
    assert forall k :: k in t.keys <==> k in DictMeaning.Meaning(t);
  }

  /** A new table and a new list agree. */
  lemma AgreeEmpty<K, V>(t: D.Table<K, V>)
    requires |t.slots| == D.N && t.keys == [] && forall p :: 0 <= p < D.N ==> t.slots[p].None?
    ensures Agree(t, [])
  {
    DictProperties.EmptyInvariant(t);
    DictMeaning.MeaningKeys(t);
  }

  /** Both refuse a listed key; where the table stores a new key the list appends it and
      they still agree. The table alone refuses when full or when the hash code is negative,
      and the list then appends. */
  lemma AgreeAdd<K, V>(t: D.Table<K, V>, ps: seq<(K, V)>, k: K, v: V, code: int)
    requires Agree(t, ps)
    ensures var (o, t') := D.Add(t, k, v, code);
      var (o', ps') := M.Add(ps, k, v);
      && (o == AlreadyExists <==> o' == AlreadyExists)
      && (o == Added ==> o' == Added && Agree(t', ps'))
      && (o in {Full, Threw(IndexOutOfRange)} ==> o' == Added && t' == t)
  {
    AgreeKeys(t, ps);
    DictProperties.AddKeepsInvariant(t, k, v, code);
    DictMeaning.AddMeans(t, k, v, code);
    M.AddIsInsert(ps, k, v);
    M.AddKeepsUnique(ps, k, v);
  }

  /** With every listed key reachable, the table's `Search` finds what the list's finds, and
      misses softly (`default`) where the list throws an `ArgumentException`. */
  lemma AgreeSearch<K, V>(t: D.Table<K, V>, ps: seq<(K, V)>, hash: K -> int, k: K)
    requires Agree(t, ps) && D.Reachable(t, hash)
    ensures D.Search(t, k, hash(k)) == if M.Search(ps, k).Hit? then M.Search(ps, k) else Miss
  {
    DictMeaning.SearchMeans(t, hash, k);
    M.SearchIsLookup(ps, k);
  }

  /** With every listed key reachable, both `Update`s give the same outcome and the
      containers still agree, with every key still reachable. */
  lemma AgreeUpdate<K, V>(t: D.Table<K, V>, ps: seq<(K, V)>, hash: K -> int, k: K, v: V)
    requires Agree(t, ps) && D.Reachable(t, hash)
    ensures var (o, t') := D.Update(t, k, v, hash(k));
      var (o', ps') := M.Update(ps, k, v);
      o == o' && Agree(t', ps') && D.Reachable(t', hash)
  {
    AgreeKeys(t, ps);
    if k in t.keys {
      var p :| 0 <= p < D.N && D.Holds(t.slots, p, k);
      DictProperties.ReachableUpdate(t, hash, k, v, p);
    }
    DictProperties.UpdateKeepsInvariant(t, k, v, hash(k));
    DictProperties.UpdateKeepsReachable(t, hash, k, v, hash(k));
    DictMeaning.UpdateMeans(t, hash, k, v);
    M.UpdateIsOverwrite(ps, k, v);
  }

  /** With every listed key reachable, both `Remove`s give the same outcome and the containers
      still agree. Reachability itself is not kept: that is the defect of eager removal. */
  lemma AgreeRemove<K, V>(t: D.Table<K, V>, ps: seq<(K, V)>, hash: K -> int, k: K)
    requires Agree(t, ps) && D.Reachable(t, hash)
    ensures var (o, t') := D.Remove(t, k, hash(k));
      var (o', ps') := M.Remove(ps, k);
      o == o' && Agree(t', ps')
  {
    AgreeKeys(t, ps);
    if k in t.keys {
      var p :| 0 <= p < D.N && D.Holds(t.slots, p, k);
      DictProperties.ReachableRemove(t, hash, k, p);
    }
    DictProperties.RemoveKeepsInvariant(t, k, hash(k));
    DictMeaning.RemoveMeans(t, hash, k);
    M.RemoveIsErase(ps, k);
    M.RemoveKeepsUnique(ps, k);
  }
}
