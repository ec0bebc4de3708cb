/**
 * The vector-store collection ("company") as the chatbot uses it: a
 * persistent set of records keyed by id, with `count()` and `add(...)`.
 * Nearest-neighbour search is the store's own business and is not part
 * of this model (see Chat.QueryResult).
 */
module Store {

  /** An embedding vector; its values play no part in what is proved. */
  type Embedding = seq<real>

  datatype Record = Record(embedding: Embedding, document: string)

  class Collection {
    /** The stored records, by id. */
    var records: map<string, Record>

    /** A collection that holds nothing yet. */
    constructor ()
      ensures records == map[]
    {
      records := map[];
    }

    /** `collection.count()`: the number of stored records. */
    function Count(): nat
      reads this
    {
      |records|
    }

    /** `collection.add(ids=[id], embeddings=[embedding], documents=[document])`.
        A record whose id is already present is kept and the new one is
        ignored, as the store does for `add` (it is `upsert` that
        overwrites). */
    method Add(id: string, embedding: Embedding, document: string)
      modifies this
      ensures id in old(records) ==> records == old(records)
      ensures id !in old(records) ==> records == old(records)[id := Record(embedding, document)]
      ensures Count() == old(Count()) + (if id in old(records) then 0 else 1)
    {
      if id !in records {
        records := records[id := Record(embedding, document)];
      }
    }
  }
}
