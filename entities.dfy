/** Value types shared by both collection variants: identifiers, entities and outcomes. */
module Entities {

  /** An entity identifier: PHP ids are strings or integers. */
  datatype Id = IntId(n: int) | StrId(s: string)

  /** The name of a PHP class or interface. */
  type ClassName = string

  /** An entity as the collection sees it: the id returned by getId(), the name of its
      runtime class, and the identity of the object (two objects may share an id). */
  datatype Entity = Entity(id: Id, cls: ClassName, handle: nat)

  datatype Option<+T> = None | Some(value: T)

  /** The two exceptions the collections raise. */
  datatype Error =
    | ClassNotAllowed(cls: ClassName)  // add() of an entity the gate refuses
    | NotAnEntity                      // addMultiple() of a value that is not an entity

  /** Either the operation returned normally or it threw. */
  datatype Outcome = Pass | Fail(error: Error)
}
