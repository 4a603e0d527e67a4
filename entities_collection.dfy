/** The concrete collection, gated by an optional list of allowed class names. */
module EntitiesCollection {
  import opened Entities
  import opened OrderedEntries

  /** PHP's class table as far as `is_subclass_of` sees it: `(c, p)` is in the relation when
      class `c` extends `p` directly or indirectly, or implements the interface `p`. */
  type Hierarchy = set<(ClassName, ClassName)>

  /** One entry `p` of the allowed list admits class `c` when `c` is `p` or is below it. */
  predicate Admits(p: ClassName, c: ClassName, h: Hierarchy) {
    p == c || (c, p) in h
  }

  /** Some entry of `list` admits class `c`. */
  predicate AdmittedBy(list: seq<ClassName>, c: ClassName, h: Hierarchy) {
    list != [] && (Admits(list[0], c, h) || AdmittedBy(list[1..], c, h))
  }

  /** The class gate: no list, or an empty one, admits every class; otherwise some entry of
      the list must admit the class. */
  predicate ClassAllowed(allowed: Option<seq<ClassName>>, h: Hierarchy, c: ClassName) {
    allowed.None? || allowed.value == [] || AdmittedBy(allowed.value, c, h)
  }

  /** A list admits a class exactly when one of its entries is that class or one of its
      ancestors. */
  lemma {:induction false} AdmittedByIff(list: seq<ClassName>, c: ClassName, h: Hierarchy)
    ensures AdmittedBy(list, c, h) <==> exists i :: 0 <= i < |list| && (list[i] == c || (c, list[i]) in h)
  {
    if list != [] {
      var tail := list[1..];
      AdmittedByIff(tail, c, h);
      if AdmittedBy(tail, c, h) && !Admits(list[0], c, h) {
        var j :| 0 <= j < |tail| && (tail[j] == c || (c, tail[j]) in h);
        assert list[j + 1] == tail[j];
      }
      if exists i :: 0 <= i < |list| && (list[i] == c || (c, list[i]) in h) {
        var i :| 0 <= i < |list| && (list[i] == c || (c, list[i]) in h);
        if i > 0 {
          assert tail[i - 1] == list[i];
        }
      }
    }
  }

  /** The gate as a test on entities, by their runtime class. */
  function Gate(allowed: Option<seq<ClassName>>, h: Hierarchy): Entity -> bool {
    (e: Entity) => ClassAllowed(allowed, h, e.cls)
  }

  class EntitiesCollection {
    /** `$allowedEntityClasses`, set once by the constructor. */
    const allowed: Option<seq<ClassName>>
    /** The class hierarchy the gate consults. */
    const hierarchy: Hierarchy
    /** `$entities`. */
    var entities: Entries
    /** `$iteratorIndex` and `$iteratorPosition`; before the first rewind() they are null in
        PHP, here the empty snapshot at position 0, on which valid() is false as well. */
    var iterIndex: seq<Id>
    var iterPos: nat

    /** The object invariant: a well-formed ordered array whose entities all pass the gate. */
    ghost predicate Valid()
      reads this`entities
    {
      && WellFormed(entities)
      && forall id :: id in entities.vals ==> ClassAllowed(allowed, hierarchy, entities.vals[id].cls)
    }

    /** `new EntitiesCollection(null, $allowed)`: an empty collection with the given gate. */
    constructor (allowed: Option<seq<ClassName>>, hierarchy: Hierarchy)
      ensures Valid()
      ensures this.allowed == allowed && this.hierarchy == hierarchy
      ensures entities == Empty() && iterIndex == [] && iterPos == 0
    {
      this.allowed := allowed;
      this.hierarchy := hierarchy;
      entities := Empty();
      iterIndex, iterPos := [], 0;
    }

    /** `new EntitiesCollection($entities, $allowed)`: the gate is set first, then the given
        entities are added as addMultiple() adds them to an empty collection; an exception
        from that call leaves the constructor. */
    static method New(initial: Option<seq<Entity>>, allowed: Option<seq<ClassName>>, hierarchy: Hierarchy)
      returns (c: EntitiesCollection, r: Outcome)
      ensures fresh(c) && c.Valid()
      ensures c.allowed == allowed && c.hierarchy == hierarchy
      ensures initial.None? ==> r == Pass && c.entities == Empty()
      ensures initial.Some? ==>
        var k := FirstRejected(initial.value, Gate(allowed, hierarchy));
        && c.entities == StoreAll(Empty(), initial.value[..k])
        && r == (if k == |initial.value| then Pass else Fail(ClassNotAllowed(initial.value[k].cls)))
    {
      c := new EntitiesCollection(allowed, hierarchy);
      if initial.Some? {
        r := c.AddMultiple(initial.value);
      } else {
        r := Pass;
      }
    }

    /** getEntitiesId(): the ids, in insertion order, each once, one per entry. */
    function GetEntitiesId(): (ids: seq<Id>)
      reads this`entities
      requires Valid()
      ensures Distinct(ids) && |ids| == |entities.vals|
      ensures forall id :: id in ids <==> id in entities.vals
    {
      var n := Size(entities);
      entities.keys
    }

    /** isClassAllowed(): scans the allowed list and answers as soon as an entry admits the class. */
    method IsClassAllowed(cls: ClassName) returns (b: bool)
      ensures b == ClassAllowed(allowed, hierarchy, cls)
    {
      if allowed.None? || allowed.value == [] {
        return true;
      }
      var list := allowed.value;
      for i := 0 to |list|
        invariant AdmittedBy(list, cls, hierarchy) == AdmittedBy(list[i..], cls, hierarchy)
      {
        assert list[i..][1..] == list[i + 1..];
        if list[i] == cls || (cls, list[i]) in hierarchy {
          return true;
        }
      }
      assert list[|list|..] == [];
      return false;
    }

    /** add(): throws for a class the gate refuses and changes nothing; otherwise stores the
        entity under its id (appended if the id is new, replaced in place if not). */
    method Add(e: Entity) returns (r: Outcome)
      requires Valid()
      modifies this`entities
      ensures Valid()
      ensures r.Fail? <==> !Gate(allowed, hierarchy)(e)
      ensures r.Fail? ==> r.error == ClassNotAllowed(e.cls)
      ensures entities == (if r.Pass? then Store(old(entities), e) else old(entities))
    {
      var ok := IsClassAllowed(e.cls);
      if !ok {
        return Fail(ClassNotAllowed(e.cls));
      }
      entities := Store(entities, e);
      r := Pass;
    }

    /** addMultiple(): adds the entities in order and stops at the first that add() refuses;
        the ones before it stay added. */
    method AddMultiple(xs: seq<Entity>) returns (r: Outcome)
      requires Valid()
      modifies this`entities
      ensures Valid()
      ensures
        var k := FirstRejected(xs, Gate(allowed, hierarchy));
        && entities == StoreAll(old(entities), xs[..k])
        && r == (if k == |xs| then Pass else Fail(ClassNotAllowed(xs[k].cls)))
    {
      ghost var gate := Gate(allowed, hierarchy);
      ghost var k := FirstRejected(xs, gate);
      StoreWhileStoresPrefix(entities, xs, gate);
      ghost var goal := StoreWhile(entities, xs, gate);
      var i := 0;
      while i < |xs|
        invariant 0 <= i <= |xs|
        invariant Valid()
        invariant StoreWhile(entities, xs[i..], gate) == goal
        invariant i + FirstRejected(xs[i..], gate) == k
      {
        r := Add(xs[i]);
        if r.Fail? {
          assert !gate(xs[i..][0]);
          return;
        }
        assert gate(xs[i..][0]) && xs[i..][1..] == xs[i + 1..];
        i := i + 1;
      }
      r := Pass;
    }

    /** remove(): for a class the gate admits, unsets the entity's id (a no-op when absent);
        for any other class, nothing happens. */
    method Remove(e: Entity)
      requires Valid()
      modifies this`entities
      ensures Valid()
      ensures entities == (if ClassAllowed(allowed, hierarchy, e.cls) then Erase(old(entities), e.id) else old(entities))
    {
      var ok := IsClassAllowed(e.cls);
      if ok {
        entities := Erase(entities, e.id);
      }
    }

    /** contains(): the entity's id is present, asked only for a class the gate admits; for any
        other class the answer is false even when the id is present. */
    method Contains(e: Entity) returns (b: bool)
      requires Valid()
      ensures b <==> ClassAllowed(allowed, hierarchy, e.cls) && e.id in GetEntitiesId()
    {
      var ok := IsClassAllowed(e.cls);
      if ok {
        return e.id in entities.vals;
      }
      return false;
    }

    /** isEmpty(): the collection holds no entity. */
    function IsEmpty(): (b: bool)
      reads this`entities
      requires Valid()
      ensures b <==> Count() == 0
      ensures b <==> GetEntitiesId() == []
    {
      entities.vals == map[]
    }

    /** count(): the number of entities, which is the number of ids. */
    function Count(): (n: nat)
      reads this`entities
      requires Valid()
      ensures n == |entities.vals| && n == |GetEntitiesId()|
    {
      Size(entities)
    }

    /** clear(): no entities remain; the gate is untouched (it is a constant). */
    method Clear()
      requires Valid()
      modifies this`entities
      ensures Valid() && Count() == 0 && GetEntitiesId() == []
    {
      entities := Empty();
    }

    /** rewind(): snapshot the ids and go back to the first position. */
    method Rewind()
      requires Valid()
      modifies this`iterIndex, this`iterPos
      ensures iterIndex == GetEntitiesId() && iterPos == 0
    {
      iterIndex := entities.keys;
      iterPos := 0;
    }

    /** valid(): the position is inside the snapshot and the snapshot's id there is still in
        the collection; a snapshot id removed since rewind() ends the iteration. */
    function IterValid(): (b: bool)
      reads this`entities, this`iterIndex, this`iterPos
      requires Valid()
      ensures b <==> iterPos < |iterIndex| && iterIndex[iterPos] in GetEntitiesId()
    {
      iterPos < |iterIndex| && iterIndex[iterPos] in entities.vals
    }

    /** current(): the entity stored under the id at the current position. */
    function Current(): (e: Entity)
      reads this`entities, this`iterIndex, this`iterPos
      requires Valid() && IterValid()
      ensures e.id == iterIndex[iterPos] && e in entities.vals.Values
      ensures ClassAllowed(allowed, hierarchy, e.cls)
    {
      entities.vals[iterIndex[iterPos]]
    }

    /** key(): the snapshot's id at the current position. */
    function Key(): (id: Id)
      reads this`iterIndex, this`iterPos
      requires iterPos < |iterIndex|
      ensures id in iterIndex
    {
      iterIndex[iterPos]
    }

    /** next(): advance the position. */
    method Next()
      modifies this`iterPos
      ensures iterPos == old(iterPos) + 1
    {
      iterPos := iterPos + 1;
    }

    /** A `foreach` over the collection: rewind(), then while valid() take key() and current()
        and call next(). It yields what Visit says of the snapshot; without mutation on the way
        that is every id once, in insertion order, each with its entity, in count() rounds. */
    method Traverse() returns (ids: seq<Id>, es: seq<Entity>)
      requires Valid()
      modifies this`iterIndex, this`iterPos
      ensures Valid()
      ensures ids == Visit(GetEntitiesId(), entities, 0)
      ensures ids == GetEntitiesId() && |ids| == Count()
      ensures |es| == |ids| && forall i :: 0 <= i < |ids| ==> es[i] == entities.vals[ids[i]]
    {
      Rewind();
      ids, es := [], [];
      while IterValid()
        invariant Valid() && iterIndex == entities.keys
        invariant iterPos == |ids| <= |iterIndex| && ids == iterIndex[..iterPos]
        invariant |es| == |ids| && forall i :: 0 <= i < |ids| ==> es[i] == entities.vals[ids[i]]
        decreases |iterIndex| - iterPos
      {
        var id := Key();
        var e := Current();
        ids, es := ids + [id], es + [e];
        Next();
      }
      assert forall j :: 0 <= j < |iterIndex| ==> iterIndex[j] in entities.vals;
      assert iterPos == |iterIndex|;
      assert ids == entities.keys;
      VisitAll(entities);
    }
  }

  /** With the list ["Base"] and "Sub" a subclass of "Base", "Sub" passes the gate and the
      unrelated "Other" does not. */
  lemma GateBySubclass()
    ensures ClassAllowed(Some(["Base"]), {("Sub", "Base")}, "Sub")
    ensures !ClassAllowed(Some(["Base"]), {("Sub", "Base")}, "Other")
  {
    var list: seq<ClassName> := ["Base"];
    assert list[1..] == [];
    assert "Other" != "Base" by { assert "Other"[0] != "Base"[0]; }
  }
}
