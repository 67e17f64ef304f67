/** The operations of .NET's `List<T>` that both containers rely on: `Contains` is `in`,
    `Add` is `+ [x]`, and `Remove` deletes the first element equal to its argument. */
module Lists {

  /** No element occurs twice. */
  ghost predicate NoDuplicates<T>(xs: seq<T>) {
    forall x | x in xs :: multiset(xs)[x] == 1
  }

  /** The position of the first occurrence of `x`, or `|xs|` when there is none. */
  function FirstIndex<T(==)>(xs: seq<T>, x: T): (i: nat)
    ensures i <= |xs| && x !in xs[..i]
    ensures i < |xs| ==> xs[i] == x
    ensures i == |xs| <==> x !in xs
  {
    if xs == [] then 0
    else if xs[0] == x then 0
    else
      var j := FirstIndex(xs[1..], x);
      assert xs[..j + 1] == [xs[0]] + xs[1..][..j];
      assert xs == [xs[0]] + xs[1..];
      j + 1
  }

  /** `List<T>.Remove(x)`: drop the first occurrence of `x` and keep the rest in order;
      a list without `x` is returned as it is. */
  function RemoveFirst<T(==)>(xs: seq<T>, x: T): (r: seq<T>)
    ensures x !in xs ==> r == xs
    ensures x in xs ==> |r| == |xs| - 1
  {
    var i := FirstIndex(xs, x);
    if i == |xs| then xs else xs[..i] + xs[i + 1..]
  }

  /** `RemoveFirst` of an element whose first occurrence follows the prefix `a` joins `a`
      to what follows that occurrence. */
  lemma RemoveFirstAt<T>(a: seq<T>, x: T, b: seq<T>)
    requires x !in a
    ensures RemoveFirst(a + [x] + b, x) == a + b
  {
    var xs := a + [x] + b;
    assert xs[..|a|] == a && xs[|a|] == x;
    assert FirstIndex(xs, x) == |a|;
    assert xs[|a| + 1..] == b;
  }

  /** `RemoveFirst` takes away one occurrence of `x` and no other element. */
  lemma RemoveFirstCount<T>(xs: seq<T>, x: T)
    ensures multiset(RemoveFirst(xs, x)) == multiset(xs) - multiset{x}
  {
    var i := FirstIndex(xs, x);
    if i == |xs| {
      assert multiset(xs)[x] == 0;
    } else {
      assert xs == xs[..i] + [xs[i]] + xs[i + 1..];
    }
  }

  /** Removing an element from a list without duplicates removes it entirely and keeps the
      list free of duplicates. */
  lemma RemoveFirstUnique<T>(xs: seq<T>, x: T)
    requires NoDuplicates(xs)
    ensures NoDuplicates(RemoveFirst(xs, x))
    ensures x !in RemoveFirst(xs, x)
    ensures forall y :: y in RemoveFirst(xs, x) <==> y in xs && y != x
  {
    var r := RemoveFirst(xs, x);
    RemoveFirstCount(xs, x);
    forall y ensures multiset(r)[y] <= 1 {
      assert multiset(xs)[y] <= 1;
    }
    assert multiset(xs)[x] <= 1;
    assert multiset(r)[x] == 0;
    forall y ensures y in r <==> y in xs && y != x {
      assert y in r <==> multiset(r)[y] > 0;
      assert y in xs <==> multiset(xs)[y] > 0;
    }
  }

  /** In a list without duplicates, every element is its own first occurrence. */
  lemma FirstIndexUnique<T>(xs: seq<T>, i: nat)
    requires NoDuplicates(xs) && i < |xs|
    ensures FirstIndex(xs, xs[i]) == i
  {
    var j := FirstIndex(xs, xs[i]);
    if j < i {
      Twice(xs, j, i);
    }
  }

  /** Two equal elements at different positions make a count of at least two. */
  lemma Twice<T>(xs: seq<T>, j: nat, i: nat)
    requires j < i < |xs| && xs[j] == xs[i]
    ensures multiset(xs)[xs[i]] >= 2
  {
    assert xs == xs[..j + 1] + xs[j + 1..];
    assert xs[j + 1..][i - j - 1] == xs[i];
  }

  /** In a list without duplicates, removing an element takes exactly that element out of
      the set of elements. */
  lemma RemoveFirstSet<T>(xs: seq<T>, x: T)
    requires NoDuplicates(xs)
    ensures (set y | y in RemoveFirst(xs, x)) == (set y | y in xs) - {x}
  {
    RemoveFirstUnique(xs, x);
  }

  /** Appending an element that is not yet present keeps the list free of duplicates. */
  lemma AppendFresh<T>(xs: seq<T>, x: T)
    requires NoDuplicates(xs) && x !in xs
    ensures NoDuplicates(xs + [x])
  {
    assert multiset(xs + [x]) == multiset(xs) + multiset{x};
    assert multiset(xs)[x] == 0;
    forall y ensures multiset(xs + [x])[y] <= 1 {
      assert multiset(xs)[y] <= 1;
    }
  }
}
