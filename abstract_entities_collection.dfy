/** The abstract collection, gated by a predicate on entities that each subclass supplies. */
module AbstractEntitiesCollection {
  import opened Entities
  import opened OrderedEntries

  /** A value handed to addMultiple(): an entity, or a value that does not implement the
      entity interface. */
  datatype Item = EntityItem(entity: Entity) | NonEntity

  /** The test addMultiple() applies to each value: it must be an entity, and add() must
      accept it. */
  function Accepts(isEntityAllowed: Entity -> bool): Item -> bool {
    (it: Item) => it.EntityItem? && isEntityAllowed(it.entity)
  }

  /** The entities of a sequence of values that are all entities. */
  function EntitiesOf(items: seq<Item>): (es: seq<Entity>)
    requires forall i :: 0 <= i < |items| ==> items[i].EntityItem?
    ensures |es| == |items| && forall i :: 0 <= i < |es| ==> es[i] == items[i].entity
  {
    seq(|items|, i requires 0 <= i < |items| => items[i].entity)
  }

  /** The entities of a prefix one longer than a prefix of the tail: the head's entity, then
      the entities of the shorter prefix. */
  lemma EntitiesOfCons(items: seq<Item>, k: nat)
    requires k < |items| && items[0].EntityItem?
    requires forall j :: 0 <= j < k ==> items[1..][j].EntityItem?
    ensures
      var es := EntitiesOf(items[..k + 1]);
      es[0] == items[0].entity && es[1..] == EntitiesOf(items[1..][..k])
  {
    assert forall j :: 0 < j <= k ==> items[j] == items[1..][j - 1];
    var l, r := EntitiesOf(items[..k + 1])[1..], EntitiesOf(items[1..][..k]);
    assert forall j :: 0 <= j < k ==> l[j] == r[j];
  }

  /** addMultiple()'s loop, read from the front: store the values one at a time and stop at
      the first that is not an entity or that the gate refuses. */
  function StoreAccepted(m: Entries, items: seq<Item>, isEntityAllowed: Entity -> bool)
    : (r: Entries)
    requires WellFormed(m)
    ensures WellFormed(r)
    decreases |items|
  {
    if items == [] || !Accepts(isEntityAllowed)(items[0]) then m
    else StoreAccepted(Store(m, items[0].entity), items[1..], isEntityAllowed)
  }

  /** Storing from the front until the first refusal stores exactly the entities before it. */
  lemma {:induction false} StoreAcceptedStoresPrefix(
    m: Entries, items: seq<Item>, isEntityAllowed: Entity -> bool)
    requires WellFormed(m)
    ensures
      var k := FirstRejected(items, Accepts(isEntityAllowed));
      StoreAccepted(m, items, isEntityAllowed) == StoreAll(m, EntitiesOf(items[..k]))
    decreases |items|
  {
    var accepts := Accepts(isEntityAllowed);
    if items != [] && accepts(items[0]) {
      var rest := items[1..];
      StoreAcceptedStoresPrefix(Store(m, items[0].entity), rest, isEntityAllowed);
      var k := FirstRejected(rest, accepts);
      EntitiesOfCons(items, k);
    }
  }

  /** The exception addMultiple() raises at a value it refuses. */
  function Refusal(it: Item): Error {
    if it.NonEntity? then NotAnEntity else ClassNotAllowed(it.entity.cls)
  }

  class AbstractEntitiesCollection {
    /** isEntityAllowed(), the abstract method a subclass implements. */
    const isEntityAllowed: Entity -> bool
    /** `$entities`. */
    var entities: Entries
    /** `$iteratorIndex` and `$iteratorPosition` (null before the first rewind() in PHP, here
        the empty snapshot at position 0). */
    var iterIndex: seq<Id>
    var iterPos: nat

    /** The object invariant: a well-formed ordered array whose entities the subclass allows. */
    ghost predicate Valid()
      reads this`entities
    {
      && WellFormed(entities)
      && forall id :: id in entities.vals ==> isEntityAllowed(entities.vals[id])
    }

    /** `new Subclass(null)`: an empty collection of the subclass whose gate is given. */
    constructor (isEntityAllowed: Entity -> bool)
      ensures Valid() && this.isEntityAllowed == isEntityAllowed
      ensures entities == Empty() && iterIndex == [] && iterPos == 0
    {
      this.isEntityAllowed := isEntityAllowed;
      entities := Empty();
      iterIndex, iterPos := [], 0;
    }

    /** `new Subclass($entities)`: with null an empty collection; otherwise the values are
        added as addMultiple() adds them to an empty collection, and its exception leaves the
        constructor. */
    static method New(initial: Option<seq<Item>>, isEntityAllowed: Entity -> bool)
      returns (c: AbstractEntitiesCollection, r: Outcome)
      ensures fresh(c) && c.Valid() && c.isEntityAllowed == isEntityAllowed
      ensures initial.None? ==> r == Pass && c.entities == Empty()
      ensures initial.Some? ==>
        var k := FirstRejected(initial.value, Accepts(isEntityAllowed));
        && c.entities == StoreAll(Empty(), EntitiesOf(initial.value[..k]))
        && r == (if k == |initial.value| then Pass else Fail(Refusal(initial.value[k])))
    {
      c := new AbstractEntitiesCollection(isEntityAllowed);
      if initial.Some? {
        r := c.AddMultiple(initial.value);
      } else {
        r := Pass;
      }
    }

    /** getEntitiesId(): the ids, in insertion order, each once, one per entry. */
    function GetEntitiesId(): (ids: seq<Id>)
      reads this`entities
      requires Valid()
      ensures Distinct(ids) && |ids| == |entities.vals|
      ensures forall id :: id in ids <==> id in entities.vals
    {
      var n := Size(entities);
      entities.keys
    }

    /** add(): throws for an entity the subclass does not allow and changes nothing; otherwise
        stores the entity under its id (appended if the id is new, replaced in place if not). */
    method Add(e: Entity) returns (r: Outcome)
      requires Valid()
      modifies this`entities
      ensures Valid()
      ensures r.Fail? <==> !isEntityAllowed(e)
      ensures r.Fail? ==> r.error == ClassNotAllowed(e.cls)
      ensures entities == (if r.Pass? then Store(old(entities), e) else old(entities))
    {
      if !isEntityAllowed(e) {
        return Fail(ClassNotAllowed(e.cls));
      }
      entities := Store(entities, e);
      r := Pass;
    }

    /** addMultiple(): adds the values in order; the first that is not an entity, or that
        add() refuses, raises and ends the call, and the ones before it stay added. */
    method AddMultiple(items: seq<Item>) returns (r: Outcome)
      requires Valid()
      modifies this`entities
      ensures Valid()
      ensures
        var k := FirstRejected(items, Accepts(isEntityAllowed));
        && entities == StoreAll(old(entities), EntitiesOf(items[..k]))
        && r == (if k == |items| then Pass else Fail(Refusal(items[k])))
    {
      ghost var accepts := Accepts(isEntityAllowed);
      ghost var k := FirstRejected(items, accepts);
      StoreAcceptedStoresPrefix(entities, items, isEntityAllowed);
      ghost var goal := StoreAccepted(entities, items, isEntityAllowed);
      var i := 0;
      while i < |items|
        invariant 0 <= i <= |items|
        invariant Valid()
        invariant StoreAccepted(entities, items[i..], isEntityAllowed) == goal
        invariant i + FirstRejected(items[i..], accepts) == k
      {
        if items[i].NonEntity? {
          return Fail(NotAnEntity);
        }
        r := Add(items[i].entity);
        if r.Fail? {
          return;
        }
        assert items[i..][1..] == items[i + 1..];
        i := i + 1;
      }
      r := Pass;
    }

    /** remove(): for an entity the subclass allows, unsets its id (a no-op when absent); for
        any other entity, nothing happens. */
    method Remove(e: Entity)
      requires Valid()
      modifies this`entities
      ensures Valid()
      ensures entities == (if isEntityAllowed(e) then Erase(old(entities), e.id) else old(entities))
    {
      if isEntityAllowed(e) {
        entities := Erase(entities, e.id);
      }
    }

    /** contains(): the entity's id is present, asked only for an entity the subclass allows;
        for any other entity the answer is false even when the id is present. */
    method Contains(e: Entity) returns (b: bool)
      requires Valid()
      ensures b <==> isEntityAllowed(e) && e.id in GetEntitiesId()
    {
      if isEntityAllowed(e) {
        return e.id in entities.vals;
      }
      return false;
    }

    /** isEmpty(): the collection holds no entity. */
    function IsEmpty(): (b: bool)
      reads this`entities
      requires Valid()
      ensures b <==> Count() == 0
      ensures b <==> GetEntitiesId() == []
    {
      entities.vals == map[]
    }

    /** count(): the number of entities, which is the number of ids. */
    function Count(): (n: nat)
      reads this`entities
      requires Valid()
      ensures n == |entities.vals| && n == |GetEntitiesId()|
    {
      Size(entities)
    }

    /** clear(): no entities remain. */
    method Clear()
      requires Valid()
      modifies this`entities
      ensures Valid() && Count() == 0 && GetEntitiesId() == []
    {
      entities := Empty();
    }

    /** rewind(): snapshot the ids and go back to the first position. */
    method Rewind()
      requires Valid()
      modifies this`iterIndex, this`iterPos
      ensures iterIndex == GetEntitiesId() && iterPos == 0
    {
      iterIndex := entities.keys;
      iterPos := 0;
    }

    /** valid(): the position is inside the snapshot and the snapshot's id there is still in
        the collection; a snapshot id removed since rewind() ends the iteration. */
    function IterValid(): (b: bool)
      reads this`entities, this`iterIndex, this`iterPos
      requires Valid()
      ensures b <==> iterPos < |iterIndex| && iterIndex[iterPos] in GetEntitiesId()
    {
      iterPos < |iterIndex| && iterIndex[iterPos] in entities.vals
    }

    /** current(): the entity stored under the id at the current position. */
    function Current(): (e: Entity)
      reads this`entities, this`iterIndex, this`iterPos
      requires Valid() && IterValid()
      ensures e.id == iterIndex[iterPos] && e in entities.vals.Values
      ensures isEntityAllowed(e)
    {
      entities.vals[iterIndex[iterPos]]
    }

    /** key(): the snapshot's id at the current position. */
    function Key(): (id: Id)
      reads this`iterIndex, this`iterPos
      requires iterPos < |iterIndex|
      ensures id in iterIndex
    {
      iterIndex[iterPos]
    }

    /** next(): advance the position. */
    method Next()
      modifies this`iterPos
      ensures iterPos == old(iterPos) + 1
    {
      iterPos := iterPos + 1;
    }

    /** A `foreach` over the collection: rewind(), then while valid() take key() and current()
        and call next(). It yields what Visit says of the snapshot; without mutation on the way
        that is every id once, in insertion order, each with its entity, in count() rounds. */
    method Traverse() returns (ids: seq<Id>, es: seq<Entity>)
      requires Valid()
      modifies this`iterIndex, this`iterPos
      ensures Valid()
      ensures ids == Visit(GetEntitiesId(), entities, 0)
      ensures ids == GetEntitiesId() && |ids| == Count()
      ensures |es| == |ids| && forall i :: 0 <= i < |ids| ==> es[i] == entities.vals[ids[i]]
    {
      Rewind();
      ids, es := [], [];
      while IterValid()
        invariant Valid() && iterIndex == entities.keys
        invariant iterPos == |ids| <= |iterIndex| && ids == iterIndex[..iterPos]
        invariant |es| == |ids| && forall i :: 0 <= i < |ids| ==> es[i] == entities.vals[ids[i]]
        decreases |iterIndex| - iterPos
      {
        var id := Key();
        var e := Current();
        ids, es := ids + [id], es + [e];
        Next();
      }
      assert forall j :: 0 <= j < |iterIndex| ==> iterIndex[j] in entities.vals;
      assert iterPos == |iterIndex|;
      assert ids == entities.keys;
      VisitAll(entities);
    }
  }
}
