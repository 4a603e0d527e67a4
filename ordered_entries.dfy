/** The PHP ordered array `$entities` that both collections keep: a map from entity id to
    entity whose keys remember the order in which they were first inserted. The functions
    here are the specification that the collection methods are proved against. */
module OrderedEntries {
  import opened Entities

  /** An ordered array keyed by entity id: the keys in insertion order, and the entity
      stored at each key. */
  datatype Entries = Entries(keys: seq<Id>, vals: map<Id, Entity>)

  /** No key occurs twice in the order. */
  predicate Distinct(s: seq<Id>) {
    s == [] || (s[0] !in s[1..] && Distinct(s[1..]))
  }

  /** Putting a new key in front of an order without duplicates keeps it so. */
  lemma DistinctCons(x: Id, t: seq<Id>)
    requires Distinct(t) && x !in t
    ensures Distinct([x] + t)
  {
    assert ([x] + t)[1..] == t;
  }

  /** Appending a new key to an order without duplicates keeps it so. */
  lemma {:induction false} DistinctSnoc(s: seq<Id>, x: Id)
    requires Distinct(s) && x !in s
    ensures Distinct(s + [x])
  {
    if s != [] {
      assert (s + [x])[1..] == s[1..] + [x];
      DistinctSnoc(s[1..], x);
    }
  }

  /** An ordered array of entities: every key appears once in the order, the order holds
      exactly the keys of the map, and each entity is stored under its own id. */
  ghost predicate WellFormed(m: Entries) {
    && Distinct(m.keys)
    && (forall id :: id in m.vals <==> id in m.keys)
    && (forall id :: id in m.vals ==> m.vals[id].id == id)
  }

  /** The empty array `[]`. */
  function Empty(): (r: Entries)
    ensures WellFormed(r) && |r.vals| == 0 && |r.keys| == 0
  {
    Entries([], map[])
  }

  lemma {:induction false} DistinctCardinality(s: seq<Id>)
    requires Distinct(s)
    ensures |(set x | x in s)| == |s|
  {
    if s != [] {
      var t := s[1..];
      DistinctCardinality(t);
      assert (set x | x in s) == (set x | x in t) + {s[0]};
    }
  }

  /** PHP's count() of the array: the number of keys in the order is the number of entries. */
  function Size(m: Entries): (n: nat)
    requires WellFormed(m)
    ensures n == |m.vals|
  {
    DistinctCardinality(m.keys);
    assert m.vals.Keys == (set x | x in m.keys);
    |m.keys|
  }

  /** `$entities[$e->getId()] = $e`: a new id is appended to the order, an existing id keeps
      its position and only its entity is replaced. */
  function Store(m: Entries, e: Entity): (r: Entries)
    requires WellFormed(m)
    ensures WellFormed(r)
    ensures e.id in r.vals && r.vals[e.id] == e
    ensures forall id :: id in m.vals && id != e.id ==> id in r.vals && r.vals[id] == m.vals[id]
    ensures r.vals.Keys == m.vals.Keys + {e.id}
    ensures |r.keys| == |m.keys| + (if e.id in m.vals then 0 else 1)
    ensures m.keys <= r.keys
    ensures e.id !in m.vals ==> r.keys[|m.keys|] == e.id
  {
    if e.id in m.vals then Entries(m.keys, m.vals[e.id := e])
    else DistinctSnoc(m.keys, e.id); Entries(m.keys + [e.id], m.vals[e.id := e])
  }

  /** Storing a new id adds one entry; storing a present id keeps the count. */
  lemma StoreSize(m: Entries, e: Entity)
    requires WellFormed(m)
    ensures Size(Store(m, e)) == Size(m) + (if e.id in m.vals then 0 else 1)
  {
  }

  /** The order with one key taken out, all other keys in their old relative order. */
  function Without(s: seq<Id>, id: Id): (r: seq<Id>)
    ensures forall x :: x in r <==> x in s && x != id
    ensures id !in s ==> r == s
  {
    if s == [] then []
    else if s[0] == id then Without(s[1..], id)
    else [s[0]] + Without(s[1..], id)
  }

  /** Taking a key out of an order without duplicates leaves none. */
  lemma {:induction false} WithoutDistinct(s: seq<Id>, id: Id)
    requires Distinct(s)
    ensures Distinct(Without(s, id))
  {
    if s != [] {
      WithoutDistinct(s[1..], id);
      if s[0] != id {
        DistinctCons(s[0], Without(s[1..], id));
      }
    }
  }

  /** Dropping the element at `i` of `s`, read through its tail. */
  lemma DropAt<T>(s: seq<T>, i: nat)
    requires i < |s|
    ensures i == 0 ==> s[..i] + s[i + 1..] == s[1..]
    ensures 0 < i ==> s[..i] + s[i + 1..] == [s[0]] + (s[1..][..i - 1] + s[1..][i..])
  {
    if 0 < i {
      var l, r := s[..i] + s[i + 1..], [s[0]] + (s[1..][..i - 1] + s[1..][i..]);
      assert forall j :: 0 <= j < |l| ==> l[j] == r[j];
    }
  }

  /** Taking a key out of an order without duplicates cuts it out at its position. */
  lemma {:induction false} WithoutAt(s: seq<Id>, i: nat)
    requires Distinct(s) && i < |s|
    ensures Without(s, s[i]) == s[..i] + s[i + 1..]
  {
    var t := s[1..];
    DropAt(s, i);
    if i == 0 {
      assert Without(s, s[0]) == Without(t, s[0]);
    } else {
      assert s[0] != s[i];
      assert t[i - 1] == s[i];
      assert Without(s, s[i]) == [s[0]] + Without(t, s[i]);
      WithoutAt(t, i - 1);
    }
  }

  /** `unset($entities[$id])`: the entry at `id` goes, every other entry keeps its entity and
      its relative order; unsetting an absent key changes nothing. */
  function Erase(m: Entries, id: Id): (r: Entries)
    requires WellFormed(m)
    ensures WellFormed(r)
    ensures r.vals.Keys == m.vals.Keys - {id}
    ensures forall x :: x in r.vals ==> r.vals[x] == m.vals[x]
    ensures forall i :: 0 <= i < |m.keys| && m.keys[i] == id ==> r.keys == m.keys[..i] + m.keys[i + 1..]
    ensures id !in m.vals ==> r == m
  {
    var r := Entries(Without(m.keys, id), m.vals - {id});
    WithoutDistinct(m.keys, id);
    assert id !in m.vals ==> m.vals - {id} == m.vals;
    assert forall i :: 0 <= i < |m.keys| && m.keys[i] == id ==> r.keys == m.keys[..i] + m.keys[i + 1..] by {
      forall i | 0 <= i < |m.keys| && m.keys[i] == id ensures r.keys == m.keys[..i] + m.keys[i + 1..] {
        WithoutAt(m.keys, i);
      }
    }
    r
  }

  /** Storing the entities of `xs` one after the other, in order (a `foreach` of stores). */
  function StoreAll(m: Entries, xs: seq<Entity>): (r: Entries)
    requires WellFormed(m)
    ensures WellFormed(r)
    decreases |xs|
  {
    if xs == [] then m else StoreAll(Store(m, xs[0]), xs[1..])
  }

  /** The tail of a prefix of `xs` is a prefix of the tail of `xs`. */
  lemma TailOfPrefix<T>(xs: seq<T>, k: nat)
    requires k < |xs|
    ensures xs[..k + 1][1..] == xs[1..][..k]
  {
    assert forall j :: 0 <= j < k ==> xs[..k + 1][1..][j] == xs[1..][..k][j];
  }

  /** A prefix of a prefix is a prefix. */
  lemma PrefixTrans<T>(a: seq<T>, b: seq<T>, c: seq<T>)
    requires a <= b && b <= c
    ensures a <= c
  {
    assert forall j :: 0 <= j < |a| ==> a[j] == b[j] == c[j];
  }

  /** Storing `xs` keeps the keys already there in their positions, and their entries. */
  lemma {:induction false} StoreAllKeepsOrder(m: Entries, xs: seq<Entity>)
    requires WellFormed(m)
    ensures m.keys <= StoreAll(m, xs).keys
    ensures m.vals.Keys <= StoreAll(m, xs).vals.Keys
    decreases |xs|
  {
    if xs != [] {
      var m1 := Store(m, xs[0]);
      StoreAllKeepsOrder(m1, xs[1..]);
      PrefixTrans(m.keys, m1.keys, StoreAll(m1, xs[1..]).keys);
    }
  }

  /** After storing `xs`, every id that `xs` carries is present. */
  lemma {:induction false} StoreAllContains(m: Entries, xs: seq<Entity>, i: nat)
    requires WellFormed(m) && i < |xs|
    ensures xs[i].id in StoreAll(m, xs).vals
    decreases |xs|
  {
    if i == 0 {
      StoreAllKeepsOrder(Store(m, xs[0]), xs[1..]);
    } else {
      StoreAllContains(Store(m, xs[0]), xs[1..], i - 1);
    }
  }

  /** After storing `xs`, an id that no element of `xs` carries holds what it held before. */
  lemma {:induction false} StoreAllUntouched(m: Entries, xs: seq<Entity>, id: Id)
    requires WellFormed(m)
    requires id in m.vals && forall j :: 0 <= j < |xs| ==> xs[j].id != id
    ensures id in StoreAll(m, xs).vals && StoreAll(m, xs).vals[id] == m.vals[id]
    decreases |xs|
  {
    StoreAllKeepsOrder(m, xs);
    if xs != [] {
      assert forall j :: 0 <= j < |xs| - 1 ==> xs[1..][j] == xs[j + 1];
      StoreAllUntouched(Store(m, xs[0]), xs[1..], id);
    }
  }

  /** After storing `xs`, the id of its element `i` holds that element when no later element
      carries the same id: the last write wins. */
  lemma {:induction false} StoreAllLastWins(m: Entries, xs: seq<Entity>, i: nat)
    requires WellFormed(m)
    requires i < |xs| && forall j :: i < j < |xs| ==> xs[j].id != xs[i].id
    ensures xs[i].id in StoreAll(m, xs).vals && StoreAll(m, xs).vals[xs[i].id] == xs[i]
    decreases |xs|
  {
    StoreAllContains(m, xs, i);
    assert forall j :: 0 <= j < |xs| - 1 ==> xs[1..][j] == xs[j + 1];
    if i == 0 {
      StoreAllUntouched(Store(m, xs[0]), xs[1..], xs[0].id);
    } else {
      StoreAllLastWins(Store(m, xs[0]), xs[1..], i - 1);
    }
  }

  /** Storing `xs` adds no id that no element of `xs` carries. */
  lemma {:induction false} StoreAllOnlyAdds(m: Entries, xs: seq<Entity>, id: Id)
    requires WellFormed(m)
    requires id !in m.vals && forall j :: 0 <= j < |xs| ==> xs[j].id != id
    ensures id !in StoreAll(m, xs).vals
    decreases |xs|
  {
    if xs != [] {
      assert forall j :: 0 <= j < |xs| - 1 ==> xs[1..][j] == xs[j + 1];
      StoreAllOnlyAdds(Store(m, xs[0]), xs[1..], id);
    }
  }

  /** addMultiple()'s loop, read from the front: store the entities of `xs` one at a time
      and stop at the first one `ok` refuses. */
  function StoreWhile(m: Entries, xs: seq<Entity>, ok: Entity -> bool): (r: Entries)
    requires WellFormed(m)
    ensures WellFormed(r)
    decreases |xs|
  {
    if xs == [] || !ok(xs[0]) then m else StoreWhile(Store(m, xs[0]), xs[1..], ok)
  }

  /** The position of the first element of `xs` that `ok` refuses, or |xs| if there is none. */
  function FirstRejected<T>(xs: seq<T>, ok: T -> bool): (k: nat)
    ensures k <= |xs|
    ensures forall j :: 0 <= j < k ==> ok(xs[j])
    ensures k < |xs| ==> !ok(xs[k])
  {
    if xs == [] || !ok(xs[0]) then 0 else 1 + FirstRejected(xs[1..], ok)
  }

  /** Storing from the front until the first refusal stores exactly the prefix of `xs` before
      that refusal. */
  lemma {:induction false} StoreWhileStoresPrefix(m: Entries, xs: seq<Entity>, ok: Entity -> bool)
    requires WellFormed(m)
    ensures StoreWhile(m, xs, ok) == StoreAll(m, xs[..FirstRejected(xs, ok)])
    decreases |xs|
  {
    if xs != [] && ok(xs[0]) {
      var rest := xs[1..];
      StoreWhileStoresPrefix(Store(m, xs[0]), rest, ok);
      var k := FirstRejected(rest, ok);
      TailOfPrefix(xs, k);
    }
  }

  /** Whether a key is still present in the array (the second half of valid()'s isset). */
  function Present(m: Entries): Id -> bool {
    (id: Id) => id in m.vals
  }

  /** The keys an iteration yields when it starts at position `pos` of the snapshot `index`
      and the array is `m`: valid() holds while the position is inside the snapshot and the
      snapshot's key there is still present; each round yields that key and advances. */
  function Visit(index: seq<Id>, m: Entries, pos: nat): (r: seq<Id>)
    requires pos <= |index|
    ensures r <= index[pos..]
    ensures forall x :: x in r ==> x in m.vals
    decreases |index| - pos
  {
    if pos < |index| && index[pos] in m.vals then
      var rest := Visit(index, m, pos + 1);
      assert index[pos..] == [index[pos]] + index[pos + 1..];
      [index[pos]] + rest
    else []
  }

  /** An iteration yields the snapshot from `pos` up to the first key that is no longer
      present, and stops there. */
  lemma {:induction false} VisitStopsAtFirstMissing(index: seq<Id>, m: Entries, pos: nat)
    requires pos <= |index|
    ensures Visit(index, m, pos) == index[pos..pos + FirstRejected(index[pos..], Present(m))]
    decreases |index| - pos
  {
    if pos < |index| && index[pos] in m.vals {
      VisitStopsAtFirstMissing(index, m, pos + 1);
      assert index[pos..][1..] == index[pos + 1..];
      var k := FirstRejected(index[pos + 1..], Present(m));
      assert index[pos..pos + 1 + k] == [index[pos]] + index[pos + 1..pos + 1 + k];
    }
  }

  /** With no mutation since the snapshot was taken, iteration yields every key, in order. */
  lemma VisitAll(m: Entries)
    requires WellFormed(m)
    ensures Visit(m.keys, m, 0) == m.keys
  {
    VisitStopsAtFirstMissing(m.keys, m, 0);
    assert m.keys[0..] == m.keys;
    var k := FirstRejected(m.keys, Present(m));
    assert forall j :: 0 <= j < |m.keys| ==> Present(m)(m.keys[j]);
  }

  /** A snapshot key that has been removed ends the iteration no later than its position. */
  lemma VisitStopsAtRemoved(index: seq<Id>, m: Entries, j: nat)
    requires j < |index| && index[j] !in m.vals
    ensures |Visit(index, m, 0)| <= j
  {
    VisitStopsAtFirstMissing(index, m, 0);
    assert index[0..] == index;
    assert !Present(m)(index[j]);
  }

  /** Storing a fresh id appends it, storing a present id replaces the entity in place, and
      erasing the first id leaves the second in first position. */
  lemma ReplaceKeepsPosition()
    ensures
      var a, b, a2 := Entity(IntId(1), "A", 10), Entity(IntId(2), "A", 11), Entity(IntId(1), "A", 12);
      var m := Store(Store(Store(Empty(), a), b), a2);
      && m.keys == [IntId(1), IntId(2)] && m.vals[IntId(1)] == a2
      && Erase(m, StrId("absent")) == m
      && Erase(m, IntId(1)).keys == [IntId(2)]
  {
    var a, b, a2 := Entity(IntId(1), "A", 10), Entity(IntId(2), "A", 11), Entity(IntId(1), "A", 12);
    var m1 := Store(Empty(), a);
    assert m1.keys == [IntId(1)];
    var m2 := Store(m1, b);
    assert m2.keys == [IntId(1)] + [IntId(2)];
    var m := Store(m2, a2);
    assert m.keys == m2.keys;
    assert Erase(m, IntId(1)).keys == m.keys[..0] + m.keys[1..];
  }
}
