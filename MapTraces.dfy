/** The map part of the demo driver (Map/Program.cs:11-21) as a trace of MapSpec
    operations on int keys and string values. */
module MapTraces {
  import opened Outcomes
  import opened MapSpec

  const M1: seq<(int, string)> := [(1, "A")]
  const M2: seq<(int, string)> := M1 + [(2, "B")]
  const M3: seq<(int, string)> := M2 + [(4, "D")]
  const M4: seq<(int, string)> := M3 + [(5, "E")]
  const M5: seq<(int, string)> := M4[2 := (4, "AB")]

  /** Items with keys 1, 2, 4 and 5 are appended; the second item with key 2 is refused. */
  lemma DriverMapAdds()
    ensures Add([], 1, "A") == (Added, M1)
    ensures Add(M1, 2, "B") == (Added, M2)
    ensures Add(M2, 2, "C") == (AlreadyExists, M2)
    ensures Add(M2, 4, "D") == (Added, M3)
    ensures Add(M3, 5, "E") == (Added, M4)
  {
    assert Keys(M2) == [1, 2];
    assert Keys(M3) == [1, 2, 4];
  }

  /** `Add(4, "F")` is refused, `Update(4, "AB")` overwrites the third item and `Remove(7)`
      finds nothing. */
  lemma DriverMapChanges()
    ensures Add(M4, 4, "F") == (AlreadyExists, M4)
    ensures Update(M4, 4, "AB") == (Updated, M5)
    ensures Remove(M5, 7) == (NotFound, M5)
  {
    assert Keys(M4) == [1, 2, 4, 5];
    assert IndexOf(M4, 4) == 2;
    assert Keys(M5) == [1, 2, 4, 5];
  }

  /** The map the driver shows holds `1 - A`, `2 - B`, `4 - AB` and `5 - E`, in that order. */
  lemma DriverMapShows()
    ensures M5 == [(1, "A"), (2, "B"), (4, "AB"), (5, "E")]
    ensures Search(M5, 4) == Hit("AB") && Search(M5, 2) == Hit("B")
    ensures Search(M5, 7) == Thrown(KeyArgument)
  {
    assert Keys(M5) == [1, 2, 4, 5];
    assert IndexOf(M5, 2) == 1;
  }
}
