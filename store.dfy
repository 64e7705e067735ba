/**
 * The document store, reduced to in-memory tables keyed by id. Each mongoose model
 * owns one table; ids come from a counter, so a freshly assigned id was never used.
 */
module Store {

  /** A document id (a MongoDB ObjectId, treated as an opaque key). */
  type Id = nat

  /** A clock reading supplied by the caller; `new Date()` within one request reads one value. */
  type Time = int

  datatype Table<T> = Table(docs: map<Id, T>, nextId: Id) {

    /** Every stored id was assigned before the counter's current value. */
    ghost predicate Valid() {
      forall id :: id in docs ==> id < nextId
    }

    /** `save()` of a new document: it receives the next unused id. */
    function Insert(doc: T): (t: Table<T>)
      ensures nextId in t.docs && t.docs[nextId] == doc && t.nextId == nextId + 1
      ensures nextId !in docs ==> t.docs - {nextId} == docs
      ensures Valid() ==> t.Valid() && nextId !in docs
    {
      Table(docs[nextId := doc], nextId + 1)
    }

    /** Overwrites the document stored under `id`. */
    function Put(id: Id, doc: T): (t: Table<T>)
      requires id in docs
      ensures t.docs.Keys == docs.Keys && t.nextId == nextId
      ensures t.docs[id] == doc && forall k :: k in docs && k != id ==> t.docs[k] == docs[k]
      ensures Valid() ==> t.Valid()
    {
      this.(docs := docs[id := doc])
    }

    /** `findByIdAndDelete`: removes the document under `id`, if any. */
    function Remove(id: Id): (t: Table<T>)
      ensures t.docs.Keys == docs.Keys - {id} && t.nextId == nextId
      ensures forall k :: k in t.docs ==> t.docs[k] == docs[k]
      ensures Valid() ==> t.Valid()
    {
      this.(docs := docs - {id})
    }
  }

  function EmptyTable<T>(): (t: Table<T>)
    ensures t.Valid() && t.docs == map[]
  {
    Table(map[], 0)
  }
}
