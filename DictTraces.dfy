/** Concrete runs of the value-level hash table with `int` keys, whose `GetHashCode` is the
    identity: the sequence of calls that Map/Program.cs:25-45 makes on a `Dict`, and a
    collision followed by a removal that sends `Search` into its `foreach`. */
module DictTraces {
  import opened Outcomes
  import opened Lists
  import opened DictSpec
  import DictProperties

  /** `int.GetHashCode()`. */
  function IntHash(k: int): int { k }

  const Nulls: seq<Option<(int, string)>> := [None, None, None, None, None, None, None, None, None, None]
  const Empty: Table<int, string> := Table(Nulls, [])

  /** The tables the driver builds, one per call that changes something. */
  const D1: Table<int, string> := Table(Nulls[1 := Some((1, "One"))], [1])
  const D2: Table<int, string> := Table(D1.slots[2 := Some((2, "Two"))], [1, 2])
  const D3: Table<int, string> := Table(D2.slots[4 := Some((4, "Four"))], [1, 2, 4])
  const D4: Table<int, string> := Table(D3.slots[3 := Some((101, "Hundred and one"))], [1, 2, 4, 101])
  const D5: Table<int, string> := Table(D4.slots[5 := Some((201, "Two hundred and one"))], [1, 2, 4, 101, 201])
  const D6: Table<int, string> := Table(D5.slots[6 := Some((5, "Five"))], [1, 2, 4, 101, 201, 5])
  const D7: Table<int, string> := Table(D6.slots[4 := Some((4, "AB"))], D6.keys)
  const D8: Table<int, string> := Table(D7.slots[3 := None], [1, 2, 4, 201, 5])

  /** The first three `Add` calls put 1, 2 and 4 in their home slots. */
  lemma DriverAdds1()
    ensures Add(Empty, 1, "One", IntHash(1)) == (Added, D1)
  {
    AddAtHome(Empty, 1, "One", D1);
  }

  lemma DriverAdds2()
    ensures Add(D1, 2, "Two", IntHash(2)) == (Added, D2)
  {
    AddAtHome(D1, 2, "Two", D2);
  }

  lemma DriverAdds4()
    ensures Add(D2, 4, "Four", IntHash(4)) == (Added, D3)
  {
    AddAtHome(D2, 4, "Four", D3);
  }

  /** `Add(101)` collides with 1 at home slot 1 and goes to slot 3, after 2 at slot 2. */
  lemma DriverAdds101()
    ensures Add(D3, 101, "Hundred and one", IntHash(101)) == (Added, D4)
  {
    assert VacantFrom(D3.slots, 1, 2) == Some(2);
    AddPushed(D3, 101, "Hundred and one", 2, D4);
  }

  /** `Add(201)` also starts at slot 1 and passes slots 1 to 4 before the null slot 5. */
  lemma DriverAdds201()
    ensures Add(D4, 201, "Two hundred and one", IntHash(201)) == (Added, D5)
  {
    assert VacantFrom(D4.slots, 1, 4) == Some(4);
    assert VacantFrom(D4.slots, 1, 2) == Some(4);
    AddPushed(D4, 201, "Two hundred and one", 4, D5);
  }

  /** `Add(5, "Five")` finds its home slot taken by 201 and goes to slot 6. */
  lemma DriverAdds5()
    ensures Add(D5, 5, "Five", IntHash(5)) == (Added, D6)
  {
    AddPushed(D5, 5, "Five", 1, D6);
  }

  /** One `Add` of a new key whose home slot `k % 10` is null. */
  lemma AddAtHome(t: Table<int, string>, k: nat, v: string, t': Table<int, string>)
    requires |t.slots| == N && k !in t.keys && t.slots[k % N].None?
    requires t' == Table(t.slots[k % N := Some((k, v))], t.keys + [k])
    ensures Add(t, k, v, IntHash(k)) == (Added, t')
  {
    assert Pos(k % N, 0) == k % N;
  }

  /** One `Add` of a new key whose home slot is occupied and whose first null slot is at
      offset `d` along its probe sequence. */
  lemma AddPushed(t: Table<int, string>, k: nat, v: string, d: nat, t': Table<int, string>)
    requires |t.slots| == N && k !in t.keys && d < N
    requires VacantFrom(t.slots, k % N, 0) == Some(d)
    requires t' == Table(t.slots[Pos(k % N, d) := Some((k, v))], t.keys + [k])
    ensures Add(t, k, v, IntHash(k)) == (Added, t')
  {
  }

  /** One `Search` of a listed key that is found at offset `d` past its occupied home slot. */
  lemma SearchPushed(t: Table<int, string>, k: nat, d: nat, v: string)
    requires |t.slots| == N && k in t.keys && t.slots[k % N].Some? && t.slots[k % N].value.0 != k
    requires ProbeFrom(t.slots, k % N, k, 0) == Found(d) && t.slots[Pos(k % N, d)] == Some((k, v))
    ensures Search(t, k, IntHash(k)) == Hit(v)
  {
  }

  /** One `Remove` of a listed key that is found at offset `d` past its occupied home slot. */
  lemma RemovePushed(t: Table<int, string>, k: nat, d: nat, t': Table<int, string>)
    requires |t.slots| == N && k in t.keys && t.slots[k % N].Some? && t.slots[k % N].value.0 != k
    requires ProbeFrom(t.slots, k % N, k, 0) == Found(d)
    requires t' == Table(t.slots[Pos(k % N, d) := None], RemoveFirst(t.keys, k))
    ensures Remove(t, k, IntHash(k)) == (Removed, t')
  {
  }

  /** One `Remove` of a listed key held by its home slot. */
  lemma RemoveAtHome(t: Table<int, string>, k: nat, t': Table<int, string>)
    requires |t.slots| == N && k in t.keys && t.slots[k % N].Some? && t.slots[k % N].value.0 == k
    requires t' == Table(t.slots[k % N := None], RemoveFirst(t.keys, k))
    ensures Remove(t, k, IntHash(k)) == (Removed, t')
  {
  }

  /** `Update(4, "AB")` replaces the value at key 4's home slot. */
  lemma DriverUpdates4()
    ensures Update(D6, 4, "AB", IntHash(4)) == (Updated, D7)
  {
  }

  /** `Search(101)` walks from slot 1 to slot 3 and `Search(1)` hits its home slot. */
  lemma DriverSearches()
    ensures Search(D7, 101, IntHash(101)) == Hit("Hundred and one")
    ensures Search(D7, 1, IntHash(1)) == Hit("One")
  {
    D7Probe101();
    SearchPushed(D7, 101, 2, "Hundred and one");
  }

  /** From home slot 1, key 101 is met at offset 2, after 1 and 2. */
  lemma D7Probe101()
    ensures ProbeFrom(D7.slots, 1, 101, 0) == Found(2)
  {
    assert ProbeFrom(D7.slots, 1, 101, 2) == Found(2);
  }

  /** 101 is listed, and its home slot holds 1. */
  lemma D7Home101()
    ensures |D7.slots| == N && 101 in D7.keys && D7.slots[101 % N] == Some((1, "One"))
  {
  }

  /** `Keys.Remove(101)` on the keys the driver lists. */
  lemma D7KeysWithout101()
    ensures RemoveFirst(D7.keys, 101) == D8.keys
  {
    assert D7.keys == [1, 2, 4] + [101] + [201, 5];
    RemoveFirstAt([1, 2, 4], 101, [201, 5]);
  }

  /** `Remove(101)` finds 101 at slot 3, nulls it and drops 101 from `Keys`. */
  lemma DriverRemoves()
    ensures Remove(D7, 101, IntHash(101)) == (Removed, D8)
  {
    D7Probe101();
    D7Home101();
    D7KeysWithout101();
    RemovePushed(D7, 101, 2, D8);
  }

  /** `Remove(7)`, `Remove(103)` and `Remove(3)` name keys that are not listed. */
  lemma DriverRemovesAbsent()
    ensures Remove(D7, 7, IntHash(7)) == (NotFound, D7)
    ensures Remove(D8, 103, IntHash(103)) == (NotFound, D8)
    ensures Remove(D8, 3, IntHash(3)) == (NotFound, D8)
  {
  }

  /** Every table the driver builds keeps the invariant, one call at a time. */
  lemma DriverInvariant1()
    ensures Invariant(D1)
  {
    DictProperties.EmptyInvariant(Empty);
    DriverAdds1();
    DictProperties.AddKeepsInvariant(Empty, 1, "One", 1);
  }

  lemma DriverInvariant2()
    ensures Invariant(D2)
  {
    DriverInvariant1();
    DriverAdds2();
    DictProperties.AddKeepsInvariant(D1, 2, "Two", 2);
  }

  lemma DriverInvariant3()
    ensures Invariant(D3)
  {
    DriverInvariant2();
    DriverAdds4();
    DictProperties.AddKeepsInvariant(D2, 4, "Four", 4);
  }

  lemma DriverInvariant4()
    ensures Invariant(D4)
  {
    DriverInvariant3();
    DriverAdds101();
    DictProperties.AddKeepsInvariant(D3, 101, "Hundred and one", 101);
  }

  lemma DriverInvariant5()
    ensures Invariant(D5)
  {
    DriverInvariant4();
    DriverAdds201();
    DictProperties.AddKeepsInvariant(D4, 201, "Two hundred and one", 201);
  }

  lemma DriverInvariant6()
    ensures Invariant(D6)
  {
    DriverInvariant5();
    DriverAdds5();
    DictProperties.AddKeepsInvariant(D5, 5, "Five", 5);
  }

  lemma DriverInvariant7()
    ensures Invariant(D7)
  {
    DriverInvariant6();
    DriverUpdates4();
    DictProperties.UpdateKeepsInvariant(D6, 4, "AB", 4);
  }

  lemma DriverInvariant8()
    ensures Invariant(D8)
  {
    DriverInvariant7();
    DriverRemoves();
    DictProperties.RemoveKeepsInvariant(D7, 101, 101);
  }

  /** Up to `Update(4)` every listed key is reached from its home slot, one call at a time. */
  lemma DriverReachable1()
    ensures Reachable(D1, IntHash)
  {
    DriverAdds1();
    DictProperties.AddKeepsReachable(Empty, IntHash, 1, "One");
  }

  lemma DriverReachable2()
    ensures Reachable(D2, IntHash)
  {
    DriverReachable1();
    DriverAdds2();
    DictProperties.AddKeepsReachable(D1, IntHash, 2, "Two");
  }

  lemma DriverReachable3()
    ensures Reachable(D3, IntHash)
  {
    DriverReachable2();
    DriverAdds4();
    DictProperties.AddKeepsReachable(D2, IntHash, 4, "Four");
  }

  lemma DriverReachable4()
    ensures Reachable(D4, IntHash)
  {
    DriverReachable3();
    DriverAdds101();
    DictProperties.AddKeepsReachable(D3, IntHash, 101, "Hundred and one");
  }

  lemma DriverReachable5()
    ensures Reachable(D5, IntHash)
  {
    DriverReachable4();
    DriverAdds201();
    DictProperties.AddKeepsReachable(D4, IntHash, 201, "Two hundred and one");
  }

  lemma DriverReachable6()
    ensures Reachable(D6, IntHash)
  {
    DriverReachable5();
    DriverAdds5();
    DictProperties.AddKeepsReachable(D5, IntHash, 5, "Five");
  }

  lemma DriverReachable7()
    ensures Reachable(D7, IntHash)
  {
    DriverReachable6();
    DriverUpdates4();
    DictProperties.UpdateKeepsReachable(D6, IntHash, 4, "AB", 4);
  }

  /** After the driver runs, key 201 is still listed and still held by slot 5, but the slot
      its probe sequence from home slot 1 meets at slot 3 is now null: `Search(201)` returns
      `default`, and `Remove(201)` and `Update(201, _)` do nothing. */
  lemma DriverStrandsKey()
    ensures 201 in D8.keys && D8.slots[5] == Some((201, "Two hundred and one"))
    ensures Search(D8, 201, IntHash(201)) == Miss
    ensures Remove(D8, 201, IntHash(201)) == (Stranded, D8)
    ensures Update(D8, 201, "Z", IntHash(201)) == (Stranded, D8)
  {
    assert ProbeFrom(D8.slots, 1, 201, 0) == Vacant(2);
    DictProperties.VacancyHidesKey(D8, 201, "Z", IntHash(201));
  }

  /** Every listed key was reached from its home slot before `Remove(101)`, and is not after
      it, although the invariant between `Keys` and the slots still holds. */
  lemma DriverBreaksReachable()
    ensures Reachable(D7, IntHash) && Invariant(D8) && !Reachable(D8, IntHash)
  {
    DriverReachable7();
    DriverInvariant8();
    if Reachable(D8, IntHash) {
      DriverStrandsKey();
      DictProperties.ReachableSearch(D8, IntHash, 201, 5);
      assert false;
    }
  }

  /** A collision at home slot 2, then a removal (insert 1, 2 and 12, then remove 2). */
  const C1: Table<int, string> := Table(Nulls[1 := Some((1, "A"))], [1])
  const C2: Table<int, string> := Table(C1.slots[2 := Some((2, "B"))], [1, 2])
  const C3: Table<int, string> := Table(C2.slots[3 := Some((12, "C"))], [1, 2, 12])
  const C4: Table<int, string> := Table(C3.slots[2 := None], [1, 12])

  /** 1 and 2 go to their home slots. */
  lemma CollisionAddsAtHome()
    ensures Add(Empty, 1, "A", IntHash(1)) == (Added, C1)
    ensures Add(C1, 2, "B", IntHash(2)) == (Added, C2)
  {
    AddAtHome(Empty, 1, "A", C1);
    AddAtHome(C1, 2, "B", C2);
  }

  /** 2 and 12 collide at home slot 2, so 12 goes to slot 3, where `Search(12)` finds it. */
  lemma CollisionAdds()
    ensures Add(C2, 12, "C", IntHash(12)) == (Added, C3)
  {
    AddPushed(C2, 12, "C", 1, C3);
  }

  lemma CollisionSearch()
    ensures Search(C3, 12, IntHash(12)) == Hit("C")
  {
    assert ProbeFrom(C3.slots, 2, 12, 0) == Found(1);
    SearchPushed(C3, 12, 1, "C");
  }

  /** Removing 2 nulls slot 2, the home slot of 12. */
  lemma CollisionRemoval()
    ensures Remove(C3, 2, IntHash(2)) == (Removed, C4)
  {
    C3KeysWithout2();
    assert |C3.slots| == N && 2 in C3.keys && C3.slots[2] == Some((2, "B"));
    RemoveAtHome(C3, 2, C4);
  }

  /** `Keys.Remove(2)` on the keys 1, 2 and 12. */
  lemma C3KeysWithout2()
    ensures RemoveFirst(C3.keys, 2) == C4.keys
  {
    assert C3.keys == [1] + [2] + [12];
    RemoveFirstAt([1], 2, [12]);
  }

  /** With its home slot null, `Search(12)` takes the `foreach` path, which dereferences
      the null slot 0 before it reaches slot 3. */
  lemma CollisionThenSearch()
    ensures Search(C4, 12, IntHash(12)) == Thrown(NullReference)
  {
    assert ProbeFrom(C4.slots, 0, 12, 0) == Vacant(0);
  }

  /** `GetHash` of negative hash codes as C# computes it: -3 gives index -3, so `Add`
      throws, but -20 gives 0 and is accepted. */
  lemma NegativeHashCodes()
    ensures Home(-3) == -3 && Add(Empty, -3, "x", IntHash(-3)) == (Threw(IndexOutOfRange), Empty)
    ensures Home(-20) == 0 && Add(Empty, -20, "x", IntHash(-20)).0 == Added
  {
  }
}
