/** The hash table of Map/Model/Dict.cs as plain values. The slot array `items` becomes a
    sequence of optional key-value pairs and the list `Keys` a sequence of keys. Each
    operation is one function that follows the source's branches, including the ones that
    end in an exception. The class in Dict.dfy is proved to compute exactly these functions. */
module DictSpec {
  import opened Outcomes
  import opened Lists

  /** The capacity of the slot array, the field `size`. */
  const N: nat := 10

  /** What the table holds: `slots[i]` is the key and value of the item in `items[i]` and
      `None` for a null slot; `keys` is the list `Keys`, in the order it was built. */
  datatype Table<K, V> = Table(slots: seq<Option<(K, V)>>, keys: seq<K>)

  /** `GetHash`: the hash code reduced by `%` as C# computes it on `int`. C# truncates
      toward zero, so a negative hash code gives a remainder that is negative or zero: it
      differs from Dafny's Euclidean `%` by `N` exactly when the hash code is negative and
      not a multiple of ten, and the source then indexes the array out of range. */
  function Home(code: int): (h: int)
    ensures -(N as int) < h < N
    ensures code >= 0 ==> h == code % N
    ensures code < 0 ==> h == (if code % N == 0 then 0 else code % N - N)
    ensures h >= 0 <==> (code >= 0 || code % N == 0)
  {
    if code >= 0 then code % N else -((-code) % N)
  }

  /** The slot at offset `d` of the probe sequence from `h`: h, h+1, ..., N-1, 0, ..., h-1.
      The source walks it as two loops, `for i = hash..size-1` then `for i = 0..hash-1`. */
  function Pos(h: nat, d: nat): (p: nat)
    requires h < N && d < N
    ensures p < N
  {
    if h + d < N then h + d else h + d - N
  }

  /** The offset at which the probe sequence from `h` visits slot `p`. */
  function Offset(h: nat, p: nat): (d: nat)
    requires h < N && p < N
    ensures d < N && Pos(h, d) == p
    ensures forall e :: 0 <= e < N && Pos(h, e) == p ==> e == d
  {
    if h <= p then p - h else p + N - h
  }

  /** Slot `p` holds an item with key `k`. */
  predicate Holds<K(==), V>(s: seq<Option<(K, V)>>, p: nat, k: K)
    requires p < |s|
  {
    s[p].Some? && s[p].value.0 == k
  }

  /** Two slot contents agree on being occupied and on the key. */
  predicate SameShape<K(==), V>(a: Option<(K, V)>, b: Option<(K, V)>) {
    a.Some? == b.Some? && (a.Some? ==> a.value.0 == b.value.0)
  }

  /** The first vacant offset at or after `d` in the probe sequence from `h`: where `Add`
      puts a new item. */
  function VacantFrom<K, V>(s: seq<Option<(K, V)>>, h: nat, d: nat): (r: Option<nat>)
    requires |s| == N && h < N && d <= N
    ensures r.Some? ==> d <= r.value < N && s[Pos(h, r.value)].None?
    ensures forall e :: d <= e < N && (r.None? || e < r.value) ==> s[Pos(h, e)].Some?
    decreases N - d
  {
    if d == N then None
    else if s[Pos(h, d)].None? then Some(d)
    else VacantFrom(s, h, d + 1)
  }

  /** The first null slot among `s[lo..hi]`: what one probe loop of `Add` finds. */
  function FirstNullIn<K, V>(s: seq<Option<(K, V)>>, lo: nat, hi: nat): (r: Option<nat>)
    requires lo <= hi <= |s|
    ensures r.Some? ==> lo <= r.value < hi && s[r.value].None?
    ensures forall i :: lo <= i < hi && (r.None? || i < r.value) ==> s[i].Some?
    decreases hi - lo
  {
    if lo == hi then None
    else if s[lo].None? then Some(lo)
    else FirstNullIn(s, lo + 1, hi)
  }

  /** The second probe loop, `for i = 0..hash-1`, walks offsets `N - h` onwards. */
  lemma {:induction false} VacantWrapped<K, V>(s: seq<Option<(K, V)>>, h: nat, d: nat)
    requires |s| == N && h < N && N - h <= d <= N
    ensures VacantFrom(s, h, d) ==
      match FirstNullIn(s, h + d - N, h)
      case Some(i) => Some(N - h + i)
      case None => None
    decreases N - d
  {
    if d < N && s[Pos(h, d)].Some? {
      VacantWrapped(s, h, d + 1);
    }
  }

  /** The first probe loop, `for i = hash..size-1`, walks offsets `0` to `N - h - 1`; if it
      finds nothing the second loop takes over. */
  lemma {:induction false} VacantUnwrapped<K, V>(s: seq<Option<(K, V)>>, h: nat, d: nat)
    requires |s| == N && h < N && d <= N - h
    ensures VacantFrom(s, h, d) ==
      match FirstNullIn(s, h + d, N)
      case Some(i) => Some(i - h)
      case None =>
        match FirstNullIn(s, 0, h)
        case Some(i) => Some(N - h + i)
        case None => None
    decreases N - d
  {
    if d == N - h {
      VacantWrapped(s, h, d);
    } else if s[Pos(h, d)].Some? {
      VacantUnwrapped(s, h, d + 1);
    }
  }

  /** Where a walk along the probe sequence stopped: at an offset holding the key, at a null
      slot, or after visiting every slot. */
  datatype Probe = Found(at: nat) | Vacant(at: nat) | Exhausted

  /** The probe loops of `Remove`, `Search` and (from slot 0) the `foreach` of `Search`:
      from offset `d`, stop at the first slot that is null or holds `k`. */
  function ProbeFrom<K(==), V>(s: seq<Option<(K, V)>>, h: nat, k: K, d: nat): (r: Probe)
    requires |s| == N && h < N && d <= N
    ensures !r.Exhausted? ==> d <= r.at < N
    ensures r.Found? ==> Holds(s, Pos(h, r.at), k)
    ensures r.Vacant? ==> s[Pos(h, r.at)].None?
    decreases N - d
  {
    if d == N then Exhausted
    else match s[Pos(h, d)]
      case None => Vacant(d)
      case Some(e) => if e.0 == k then Found(d) else ProbeFrom(s, h, k, d + 1)
  }

  /** Where `ProbeFrom` stops: a slot holding `k`, or a null slot, and every slot it passed
      before holds another key. */
  lemma {:induction false} ProbeFromStops<K, V>(s: seq<Option<(K, V)>>, h: nat, k: K, d: nat)
    requires |s| == N && h < N && d <= N
    ensures var r := ProbeFrom(s, h, k, d);
      && (r.Found? ==> Holds(s, Pos(h, r.at), k))
      && (r.Vacant? ==> s[Pos(h, r.at)].None?)
      && (forall e :: d <= e < N && (r.Exhausted? || e < r.at) ==>
            s[Pos(h, e)].Some? && s[Pos(h, e)].value.0 != k)
    decreases N - d
  {
    if d < N && s[Pos(h, d)].Some? && s[Pos(h, d)].value.0 != k {
      ProbeFromStops(s, h, k, d + 1);
    }
  }

  /** The scan of `Remove` for a vacated home slot (`items[i]?.Key.Equals(key)`): the first
      slot at or after `i` that holds `k`, skipping null slots. */
  function HoldingFrom<K(==), V>(s: seq<Option<(K, V)>>, k: K, i: nat): (r: Option<nat>)
    requires |s| == N && i <= N
    ensures r.Some? ==> i <= r.value < N && Holds(s, r.value, k)
    ensures forall p :: i <= p < N && (r.None? || p < r.value) ==> !Holds(s, p, k)
    decreases N - i
  {
    if i == N then None
    else if Holds(s, i, k) then Some(i)
    else HoldingFrom(s, k, i + 1)
  }

  /** The update loops of `Update`, and (from slot 0) its `foreach`: from offset `d`, until the
      first null slot, replace the value of every item with key `k`. Unlike the search loops
      they do not stop at a match. `hit` records whether some value was replaced. */
  function ProbeUpdate<K(==), V>(s: seq<Option<(K, V)>>, h: nat, k: K, v: V, d: nat, hit: bool)
    : (r: (seq<Option<(K, V)>>, bool))
    requires |s| == N && h < N && d <= N
    ensures |r.0| == N
    ensures hit ==> r.1
    decreases N - d
  {
    if d == N then (s, hit)
    else match s[Pos(h, d)]
      case None => (s, hit)
      case Some(e) =>
        if e.0 == k then ProbeUpdate(s[Pos(h, d) := Some((k, v))], h, k, v, d + 1, true)
        else ProbeUpdate(s, h, k, v, d + 1, hit)
  }

  /** What `ProbeUpdate` changes: no slot changes occupancy or key, a slot that changes held
      `k` and now holds `(k, v)`, and `hit` becomes true exactly when some slot changed or it
      was already true. */
  lemma {:induction false} ProbeUpdateChanges<K, V>(s: seq<Option<(K, V)>>, h: nat, k: K, v: V, d: nat, hit: bool)
    requires |s| == N && h < N && d <= N
    ensures var r := ProbeUpdate(s, h, k, v, d, hit);
      && (forall p :: 0 <= p < N ==> SameShape(s[p], r.0[p]))
      && (forall p :: 0 <= p < N && r.0[p] != s[p] ==> Holds(s, p, k) && r.0[p] == Some((k, v)))
      && (hit ==> r.1)
      && (!r.1 ==> r.0 == s)
      && (r.1 && !hit ==> exists p :: 0 <= p < N && Holds(s, p, k) && r.0[p] == Some((k, v)))
    decreases N - d
  {
    if d < N && s[Pos(h, d)].Some? {
      if s[Pos(h, d)].value.0 == k {
        var s' := s[Pos(h, d) := Some((k, v))];
        ProbeUpdateChanges(s', h, k, v, d + 1, true);
        assert Holds(s, Pos(h, d), k) && s'[Pos(h, d)] == Some((k, v));
      } else {
        ProbeUpdateChanges(s, h, k, v, d + 1, hit);
      }
    }
  }

  /** Every slot is occupied. */
  predicate AllOccupied<K, V>(s: seq<Option<(K, V)>>) {
    forall p :: 0 <= p < |s| ==> s[p].Some?
  }

  /** The probe sequence from any home slot visits every slot, so it finds no vacancy exactly
      when the array is full. */
  lemma NoVacancyMeansFull<K, V>(s: seq<Option<(K, V)>>, h: nat)
    requires |s| == N && h < N
    ensures VacantFrom(s, h, 0).None? <==> AllOccupied(s)
  {
    if VacantFrom(s, h, 0).None? {
      forall p | 0 <= p < N ensures s[p].Some? {
        assert Pos(h, Offset(h, p)) == p;
      }
    }
  }

  /** `Add(item)` and `Add(key, value)` for an item with key `k`, value `v` and hash code
      `code`: a listed key is refused, a new one goes to the first vacant slot of the probe
      sequence from its home slot, and a full array refuses it. */
  function Add<K(==), V>(t: Table<K, V>, k: K, v: V, code: int): (r: (Outcome, Table<K, V>))
    requires |t.slots| == N
    ensures r.0 in {Added, AlreadyExists, Full, Threw(IndexOutOfRange)}
    ensures r.0 != Added ==> r.1 == t
    ensures r.0 == AlreadyExists <==> k in t.keys
    ensures r.0 == Threw(IndexOutOfRange) <==> k !in t.keys && Home(code) < 0
    ensures r.0 == Full <==> k !in t.keys && Home(code) >= 0 && AllOccupied(t.slots)
    ensures r.0 == Added ==> exists d :: (0 <= d < N &&
              t.slots[Pos(Home(code), d)].None? &&
              (forall e :: 0 <= e < d ==> t.slots[Pos(Home(code), e)].Some?) &&
              r.1 == Table(t.slots[Pos(Home(code), d) := Some((k, v))], t.keys + [k]))
  {
    var h := Home(code);
    if k in t.keys then (AlreadyExists, t)
    else if h < 0 then (Threw(IndexOutOfRange), t)
    else
      NoVacancyMeansFull(t.slots, h);
      match VacantFrom(t.slots, h, 0)
      case None => (Full, t)
      case Some(d) => (Added, Table(t.slots[Pos(h, d) := Some((k, v))], t.keys + [k]))
  }

  /** `Search(key)`: a key that is not listed gives `default`. A listed key whose home slot
      is null sends the `foreach` over the array, which returns the value if the key comes
      before every null slot and otherwise dereferences a null slot. Otherwise the probe
      sequence is walked and `default` returned at the first null slot. */
  function Search<K(==), V>(t: Table<K, V>, k: K, code: int): (r: Lookup<V>)
    requires |t.slots| == N
    ensures k !in t.keys ==> r == Miss
    ensures r.Hit? ==> exists p :: 0 <= p < N && t.slots[p] == Some((k, r.value))
    ensures r == Thrown(IndexOutOfRange) <==> k in t.keys && Home(code) < 0
    ensures r == Thrown(NullReference) ==> 0 <= Home(code) && t.slots[Home(code)].None?
    ensures r.Thrown? ==> r.fault in {IndexOutOfRange, NullReference}
  {
    var h := Home(code);
    if k !in t.keys then Miss
    else if h < 0 then Thrown(IndexOutOfRange)
    else if t.slots[h].None? then
      ProbeFromStops(t.slots, 0, k, 0);
      match ProbeFrom(t.slots, 0, k, 0)
      case Found(p) => Hit(t.slots[p].value.1)
      case _ => Thrown(NullReference)
    else if t.slots[h].value.0 == k then Hit(t.slots[h].value.1)
    else
      ProbeFromStops(t.slots, h, k, 0);
      match ProbeFrom(t.slots, h, k, 0)
      case Found(d) => Hit(t.slots[Pos(h, d)].value.1)
      case _ => Miss
  }

  /** `Remove(key)`: a key that is not listed is a no-op. A listed key whose home slot is null
      is looked for in the whole array; if no slot holds it, the code goes on to dereference
      the null home slot. Otherwise the probe sequence is walked, and a null slot met first
      ends it with nothing removed. A found item's slot is set to null and its key leaves
      `Keys`. */
  function Remove<K(==), V>(t: Table<K, V>, k: K, code: int): (r: (Outcome, Table<K, V>))
    requires |t.slots| == N
    ensures r.0 in {Removed, NotFound, Stranded, Threw(IndexOutOfRange), Threw(NullReference)}
    ensures r.0 != Removed ==> r.1 == t
    ensures r.0 == NotFound <==> k !in t.keys
    ensures r.0 == Threw(IndexOutOfRange) <==> k in t.keys && Home(code) < 0
    ensures r.0 == Removed ==> exists p :: (0 <= p < N && Holds(t.slots, p, k) &&
              r.1 == Table(t.slots[p := None], RemoveFirst(t.keys, k)))
  {
    var h := Home(code);
    if k !in t.keys then (NotFound, t)
    else if h < 0 then (Threw(IndexOutOfRange), t)
    else if t.slots[h].None? then
      match HoldingFrom(t.slots, k, 0)
      case Some(p) => (Removed, Table(t.slots[p := None], RemoveFirst(t.keys, k)))
      case None => (Threw(NullReference), t)
    else if t.slots[h].value.0 == k then
      assert Holds(t.slots, h, k);
      (Removed, Table(t.slots[h := None], RemoveFirst(t.keys, k)))
    else
      ProbeFromStops(t.slots, h, k, 0);
      match ProbeFrom(t.slots, h, k, 0)
      case Found(d) => (Removed, Table(t.slots[Pos(h, d) := None], RemoveFirst(t.keys, k)))
      case _ => (Stranded, t)
  }

  /** `Update(key, newValue)`: a key that is not listed is a no-op. A listed key whose home
      slot is null sends the `foreach` over the array, which replaces the value of every
      matching item it passes and then dereferences a null slot. A match at the home slot
      is replaced directly. Otherwise the probe sequence is walked to the first null slot,
      replacing every match. Keys and occupancy never change, only values of items with key
      `k`, and those become `v`. */
  function Update<K(==), V>(t: Table<K, V>, k: K, v: V, code: int): (r: (Outcome, Table<K, V>))
    requires |t.slots| == N
    ensures r.1.keys == t.keys && |r.1.slots| == N
    ensures forall p :: 0 <= p < N ==> SameShape(t.slots[p], r.1.slots[p])
    ensures forall p :: 0 <= p < N && r.1.slots[p] != t.slots[p] ==>
              Holds(t.slots, p, k) && r.1.slots[p] == Some((k, v))
    ensures r.0 in {Updated, NotFound, Stranded, Threw(IndexOutOfRange), Threw(NullReference)}
    ensures r.0 == NotFound <==> k !in t.keys
    ensures r.0 == Threw(IndexOutOfRange) <==> k in t.keys && Home(code) < 0
    ensures r.0 in {NotFound, Stranded, Threw(IndexOutOfRange)} ==> r.1 == t
    ensures r.0 == Updated ==> exists p :: 0 <= p < N && Holds(t.slots, p, k) && r.1.slots[p] == Some((k, v))
  {
    var h := Home(code);
    if k !in t.keys then (NotFound, t)
    else if h < 0 then (Threw(IndexOutOfRange), t)
    else if t.slots[h].None? then
      ProbeUpdateChanges(t.slots, 0, k, v, 0, false);
      (Threw(NullReference), t.(slots := ProbeUpdate(t.slots, 0, k, v, 0, false).0))
    else if t.slots[h].value.0 == k then
      assert Holds(t.slots, h, k);
      (Updated, t.(slots := t.slots[h := Some((k, v))]))
    else
      ProbeUpdateChanges(t.slots, h, k, v, 0, false);
      var (s, hit) := ProbeUpdate(t.slots, h, k, v, 0, false);
      (if hit then Updated else Stranded, t.(slots := s))
  }

  /** The number of occupied slots. */
  function Occupied<K, V>(s: seq<Option<(K, V)>>): nat {
    if s == [] then 0
    else Occupied(s[..|s| - 1]) + (if s[|s| - 1].Some? then 1 else 0)
  }

  /** `GetEnumerator`: the pairs of the non-null slots, in slot order. */
  function Entries<K, V>(s: seq<Option<(K, V)>>): (r: seq<(K, V)>)
    ensures |r| == Occupied(s)
    ensures forall i :: 0 <= i < |r| ==> exists p :: 0 <= p < |s| && s[p] == Some(r[i])
    ensures forall p :: 0 <= p < |s| && s[p].Some? ==> s[p].value in r
  {
    if s == [] then []
    else
      var init, last := s[..|s| - 1], s[|s| - 1];
      var r := Entries(init) + (if last.Some? then [last.value] else []);
      assert forall p :: 0 <= p < |init| ==> s[p] == init[p];
      r
  }
  /** `Entries` of one more slot adds that slot's entry, if any, at the end. */
  lemma EntriesSnoc<K, V>(s: seq<Option<(K, V)>>, i: nat)
    requires i < |s|
    ensures Entries(s[..i + 1]) == Entries(s[..i]) + (if s[i].Some? then [s[i].value] else [])
  {
    assert s[..i + 1][..i] == s[..i];
  }


  /** The class invariant that the source keeps between `Keys` and the slot array: `Keys`
      has no duplicates, every listed key occupies exactly one slot, every occupied slot's
      key is listed, and `Keys` is as long as the number of occupied slots. */
  ghost predicate Invariant<K, V>(t: Table<K, V>) {
    && |t.slots| == N
    && NoDuplicates(t.keys)
    && (forall k :: k in t.keys ==> exists p :: 0 <= p < N && Holds(t.slots, p, k))
    && (forall p, q :: 0 <= p < N && 0 <= q < N && t.slots[p].Some? && Holds(t.slots, q, t.slots[p].value.0) ==> p == q)
    && (forall p :: 0 <= p < N && t.slots[p].Some? ==> t.slots[p].value.0 in t.keys)
    && |t.keys| == Occupied(t.slots)
  }

  /** Key `k` sits at offset `d` of the probe sequence from `h`, and every slot before it on
      that sequence is occupied: a search from `h` goes through without meeting a null slot. */
  ghost predicate ReachedAt<K, V>(s: seq<Option<(K, V)>>, h: nat, k: K, d: nat)
    requires |s| == N && h < N
  {
    d < N && Holds(s, Pos(h, d), k) && forall e :: 0 <= e < d ==> s[Pos(h, e)].Some?
  }

  /** The textbook linear-probing invariant: every listed key has a non-negative home slot
      and is reached from it without crossing a null slot. `Add` and `Update` keep it and
      the source's eager `Remove` does not. */
  ghost predicate Reachable<K, V>(t: Table<K, V>, hash: K -> int)
    requires |t.slots| == N
  {
    forall k :: k in t.keys ==> Home(hash(k)) >= 0 && exists d :: ReachedAt(t.slots, Home(hash(k)), k, d)
  }
}
