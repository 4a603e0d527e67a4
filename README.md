# EntitiesCollection in Dafny

A model of the two PHP collection classes of `CodeInc\EntitiesCollection`:

- `EntitiesCollection`, gated by an optional list of allowed class names;
- `AbstractEntitiesCollection`, gated by the abstract predicate `isEntityAllowed()` that each subclass supplies.

Both keep the entities in the PHP ordered array `$entities`, keyed by `getId()`. Re-adding an id replaces its entity in place. The first insertion of a key fixes its position. Iteration replays a snapshot of the keys taken by `rewind()`, and stops at the first snapshot key that has since been removed.

Files:

- `entities.dfy` (module `Entities`): ids, entities, the two exceptions, and the outcome of a call (`Pass` or `Fail`).
- `ordered_entries.dfy` (module `OrderedEntries`): the ordered array as a value `Entries(keys, vals)`, with its well-formedness invariant. It defines the specification functions `Store` (`$entities[$id] = $e`), `Erase` (`unset`), `StoreAll`, `StoreWhile`, `FirstRejected` and `Visit` (the iterator protocol), and the lemmas about them.
- `entities_collection.dfy` (module `EntitiesCollection`): the concrete class, with the class gate.
- `abstract_entities_collection.dfy` (module `AbstractEntitiesCollection`): the abstract variant. Its gate is a constant function field.

Each PHP class is a Dafny `class` with the fields `entities`, `iterIndex` and `iterPos`. Its methods change those fields, and its object invariant is `Valid()`: the array is well formed and every stored entity passes the gate. A thrown exception is modelled as a `Fail` outcome. Calls after it in the same PHP method are not executed.

The constructors can throw in PHP, so each is modelled twice:

- the anonymous Dafny constructor allocates an empty collection;
- the static method `New` performs the whole `__construct`, including the `addMultiple()` call and its outcome.

## Model

| member | source | states |
|---|---|---|
| OrderedEntries.Empty | src/EntitiesCollection.php:40 | the initial `[]` is a well-formed array with no keys and no entries |
| OrderedEntries.Size | src/EntitiesCollection.php:166-169 | `count($entities)`: the number of keys in the order equals the number of entries |
| OrderedEntries.Store | src/EntitiesCollection.php:110 | the id holds the entity afterwards. Every other id keeps its entity. The key set gains the id. The old keys stay a prefix of the new order. The order grows by one, with the id at the end, exactly when the id was new. Well-formedness is preserved |
| OrderedEntries.StoreSize | src/EntitiesCollection.php:110 | storing a new id increases the count by one; storing a present id leaves the count unchanged |
| OrderedEntries.Without | src/EntitiesCollection.php:133 | the order without a key holds exactly the other keys, and is unchanged when the key is absent |
| OrderedEntries.WithoutDistinct | src/EntitiesCollection.php:133 | taking a key out of an order leaves it free of duplicates |
| OrderedEntries.WithoutAt | src/EntitiesCollection.php:133 | in an order without duplicates, taking out the key at position i is cutting position i out of the order |
| OrderedEntries.Erase | src/EntitiesCollection.php:133 | `unset($entities[$id])`: the key set loses the id, every other entry is unchanged, the order loses exactly the id's position and keeps all other keys in their relative order, and an absent id leaves the array as it was |
| OrderedEntries.StoreAll | src/EntitiesCollection.php:118-123 | storing a sequence of entities in order keeps the array well formed |
| OrderedEntries.StoreAllKeepsOrder | src/EntitiesCollection.php:118-123 | storing a sequence keeps the existing keys as a prefix of the order, and keeps them present |
| OrderedEntries.StoreAllContains | src/EntitiesCollection.php:118-123 | after storing a sequence, every id it carries is present |
| OrderedEntries.StoreAllLastWins | src/EntitiesCollection.php:110 | after storing a sequence, an id holds the last element that carries it |
| OrderedEntries.StoreAllUntouched | src/EntitiesCollection.php:110 | after storing a sequence, an id that none of its elements carries keeps its entity |
| OrderedEntries.StoreAllOnlyAdds | src/EntitiesCollection.php:110 | storing a sequence adds no id that none of its elements carries |
| OrderedEntries.FirstRejected | src/EntitiesCollection.php:120-121 | the position where a `foreach` of checked adds stops: every earlier element is accepted; the element there, if any, is refused |
| OrderedEntries.StoreWhile | src/EntitiesCollection.php:120-121 | the front-to-back loop of stores that stops at the first refusal keeps the array well formed |
| OrderedEntries.StoreWhileStoresPrefix | src/EntitiesCollection.php:118-123 | the loop that stops at the first refusal stores exactly the prefix before that refusal, i.e. `StoreAll` of `xs[..FirstRejected(xs)]`; nothing after it has an effect |
| OrderedEntries.Visit | src/EntitiesCollection.php:182-224 | the keys a rewind/valid/key/next loop yields from a position are a prefix of the snapshot from there on, and all of them are still present |
| OrderedEntries.VisitStopsAtFirstMissing | src/EntitiesCollection.php:218-224 | iteration yields the snapshot up to the first key that is no longer present, and stops there |
| OrderedEntries.VisitAll | src/EntitiesCollection.php:182-224 | with no mutation since the snapshot, iteration yields exactly the keys, in insertion order |
| OrderedEntries.VisitStopsAtRemoved | src/EntitiesCollection.php:218-224 | a snapshot key removed since `rewind()` ends the iteration at or before its position |
| OrderedEntries.ReplaceKeepsPosition | src/EntitiesCollection.php:110-133 | storing ids 1, 2, then 1 again gives the order [1, 2], with the second entity at 1. Erasing an absent id changes nothing. Erasing 1 leaves [2] |
| EntitiesCollection.AdmittedByIff | src/EntitiesCollection.php:88-93 | the allowed list admits a class exactly when some entry equals the class or is one of its ancestors |
| EntitiesCollection.GateBySubclass | src/EntitiesCollection.php:82-95 | with the list ["Base"], a subclass of "Base" passes the gate and an unrelated class does not |
| EntitiesCollection.EntitiesCollection.constructor | src/EntitiesCollection.php:58-60 | a new collection stores the given gate, has no entities, and satisfies the invariant |
| EntitiesCollection.EntitiesCollection.New | src/EntitiesCollection.php:58-64 | with no initial entities, the collection is empty and the call succeeds. Otherwise its entities are `StoreAll` of the prefix before the first refused class, and the call fails with that class exactly when one is refused |
| EntitiesCollection.EntitiesCollection.GetEntitiesId | src/EntitiesCollection.php:71-74 | the ids are duplicate-free, one per entry, and are exactly the stored ids |
| EntitiesCollection.EntitiesCollection.IsClassAllowed | src/EntitiesCollection.php:82-95 | the early-return scan answers exactly the gate: true for no list or an empty list, otherwise true iff some entry admits the class |
| EntitiesCollection.EntitiesCollection.Add | src/EntitiesCollection.php:102-111 | fails exactly when the gate refuses the class, with that class in the error, and then changes nothing. Otherwise the new array is `Store` of the old one. The invariant is kept |
| EntitiesCollection.EntitiesCollection.AddMultiple | src/EntitiesCollection.php:118-123 | the entities before the first refused one are stored in order, with no rollback. The call fails with the refused class exactly when one exists |
| EntitiesCollection.EntitiesCollection.Remove | src/EntitiesCollection.php:130-135 | for an admitted class the new array is `Erase` of the id; for any other class nothing changes |
| EntitiesCollection.EntitiesCollection.Contains | src/EntitiesCollection.php:143-149 | true iff the class is admitted and the id is present, so a present id of a refused class gives false |
| EntitiesCollection.EntitiesCollection.IsEmpty | src/EntitiesCollection.php:156-159 | true iff the count is zero, iff there are no ids |
| EntitiesCollection.EntitiesCollection.Count | src/EntitiesCollection.php:166-169 | the number of entries, equal to the number of ids |
| EntitiesCollection.EntitiesCollection.Clear | src/EntitiesCollection.php:174-177 | afterwards the count is zero and there are no ids. The gate is a constant and stays as it was |
| EntitiesCollection.EntitiesCollection.Rewind | src/EntitiesCollection.php:182-186 | the snapshot is the current id order and the position is 0 |
| EntitiesCollection.EntitiesCollection.IterValid | src/EntitiesCollection.php:218-224 | true iff the position is inside the snapshot and the snapshot's id there is still stored |
| EntitiesCollection.EntitiesCollection.Current | src/EntitiesCollection.php:192-195 | the stored entity whose id is the snapshot's id at the position; it passes the gate |
| EntitiesCollection.EntitiesCollection.Key | src/EntitiesCollection.php:201-204 | the snapshot's id at the position |
| EntitiesCollection.EntitiesCollection.Next | src/EntitiesCollection.php:209-212 | the position advances by one |
| EntitiesCollection.EntitiesCollection.Traverse | src/EntitiesCollection.php:182-224 | a `foreach` yields `Visit` of the ids. With no mutation that is every id once, in insertion order, in `count()` rounds, each with its stored entity |
| AbstractEntitiesCollection.EntitiesOf | src/AbstractEntitiesCollection.php:102-107 | the entities of a sequence of values that are all entities, position by position |
| AbstractEntitiesCollection.EntitiesOfCons | src/AbstractEntitiesCollection.php:102-107 | the entities of a prefix are the head's entity followed by the entities of the shorter prefix of the tail |
| AbstractEntitiesCollection.StoreAccepted | src/AbstractEntitiesCollection.php:102-108 | the front-to-back loop that stops at the first non-entity or refused entity keeps the array well formed |
| AbstractEntitiesCollection.StoreAcceptedStoresPrefix | src/AbstractEntitiesCollection.php:100-109 | that loop stores exactly the entities before the first value it refuses |
| AbstractEntitiesCollection.AbstractEntitiesCollection.constructor | src/AbstractEntitiesCollection.php:54-55 | a new collection has the subclass's gate, no entities, and satisfies the invariant |
| AbstractEntitiesCollection.AbstractEntitiesCollection.New | src/AbstractEntitiesCollection.php:54-59 | with null the collection is empty. Otherwise it is `addMultiple` on an empty collection: the entities before the first refused value are stored, and the outcome names that value's error |
| AbstractEntitiesCollection.AbstractEntitiesCollection.GetEntitiesId | src/AbstractEntitiesCollection.php:66-69 | the ids are duplicate-free, one per entry, and are exactly the stored ids |
| AbstractEntitiesCollection.AbstractEntitiesCollection.Add | src/AbstractEntitiesCollection.php:84-93 | fails iff `isEntityAllowed` is false, with the class in the error, and then changes nothing. Otherwise the new array is `Store` of the old one |
| AbstractEntitiesCollection.AbstractEntitiesCollection.AddMultiple | src/AbstractEntitiesCollection.php:100-109 | processing stops at the first value that is not an entity (`NotAnEntity`) or is not allowed (`ClassNotAllowed`). The entities before it stay stored in order. Nothing after it is processed |
| AbstractEntitiesCollection.AbstractEntitiesCollection.Remove | src/AbstractEntitiesCollection.php:116-121 | for an allowed entity the new array is `Erase` of its id; otherwise nothing changes |
| AbstractEntitiesCollection.AbstractEntitiesCollection.Contains | src/AbstractEntitiesCollection.php:129-135 | true iff `isEntityAllowed` holds and the id is present |
| AbstractEntitiesCollection.AbstractEntitiesCollection.IsEmpty | src/AbstractEntitiesCollection.php:142-145 | true iff the count is zero, iff there are no ids |
| AbstractEntitiesCollection.AbstractEntitiesCollection.Count | src/AbstractEntitiesCollection.php:152-155 | the number of entries, equal to the number of ids |
| AbstractEntitiesCollection.AbstractEntitiesCollection.Clear | src/AbstractEntitiesCollection.php:160-163 | afterwards the count is zero and there are no ids |
| AbstractEntitiesCollection.AbstractEntitiesCollection.Rewind | src/AbstractEntitiesCollection.php:168-172 | the snapshot is the current id order and the position is 0 |
| AbstractEntitiesCollection.AbstractEntitiesCollection.IterValid | src/AbstractEntitiesCollection.php:204-210 | true iff the position is inside the snapshot and the snapshot's id there is still stored |
| AbstractEntitiesCollection.AbstractEntitiesCollection.Current | src/AbstractEntitiesCollection.php:178-181 | the stored entity under the snapshot's id at the position; the subclass allows it |
| AbstractEntitiesCollection.AbstractEntitiesCollection.Key | src/AbstractEntitiesCollection.php:187-190 | the snapshot's id at the position |
| AbstractEntitiesCollection.AbstractEntitiesCollection.Next | src/AbstractEntitiesCollection.php:195-198 | the position advances by one |
| AbstractEntitiesCollection.AbstractEntitiesCollection.Traverse | src/AbstractEntitiesCollection.php:168-210 | a `foreach` yields `Visit` of the ids. With no mutation that is every id once, in insertion order, in `count()` rounds, each with its stored entity |

## Left out

- Exception messages (`sprintf`, `get_class`, `get_called_class`) are not modelled. A failure carries only the kind of error and the refused class.
- `is_subclass_of` is not modelled. The class hierarchy is the given relation `hierarchy`. PHP's case-insensitive class names and loose `==` comparison of names are not modelled either: names compare as exact strings.
- The PHP source checks the allowed list by truthiness (`!$this->allowedEntityClasses`). The model treats an absent list and an empty list alike, which is the same result.
- PHP array-key coercion is not modelled: integer-like string ids do not collapse to integers. Ids are an abstract key type with integer and string cases.
- The `(string)` cast in `key()` is not modelled. `Key` returns the id itself.
- The `Countable`/`Iterator` plumbing of `foreach` is not modelled. `Traverse` writes the loop out with the explicit iterator calls.
- `current()` and `key()` at an invalid position are left undefined. Their preconditions require a valid position, or a position inside the snapshot.
- `$iteratorIndex` and `$iteratorPosition` are null before the first `rewind()` in PHP. The model uses an empty snapshot at position 0 instead, on which `valid()` is false as well.
- The external `EntityInterface` is an opaque value with an id, a class name and an object handle.
- The concrete file refers to `EntityInterface` without a `use` import, so PHP resolves it in the collection's own namespace. That name resolution is not modelled.
- EntitiesCollection.EntitiesCollection.AddMultiple: takes a sequence of entities. In PHP a non-entity value reaches `add()`, whose typed parameter raises a `TypeError`, and that path is not modelled. Only the abstract variant checks `instanceof` itself, and it is modelled there.
- AbstractEntitiesCollection.AbstractEntitiesCollection.New: the gate `isEntityAllowed` is a pure function of the entity, fixed for the object's life. A subclass whose predicate reads mutable state is not modelled.
- EntitiesCollection.EntitiesCollection.New: PHP input may be any `iterable`. The model takes a finite sequence, so generators and lazy iterables are not modelled.
- A PHP exception thrown inside the constructor leaves no object to the caller. `New` still returns the partly filled collection beside the `Fail` outcome, so that its state can be stated.
- Concurrency is not modelled: the source is single-threaded.
- Besides the gate's error, the abstract `addMultiple()` raises a second one for a value that is not an entity. The model has both (`ClassNotAllowed` and `NotAnEntity`).
