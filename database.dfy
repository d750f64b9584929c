/**
 * The `books` collection as the process holds it: one object whose documents the ETL loader
 * and the API handlers change in place. Each method is one collection call.
 */
module Database {
  import opened Schema
  import opened Collection

  class BookStore {
    var docs: seq<Doc>
    var nextId: Id

    /** The collection's current value. */
    function Contents(): State
      reads this
    {
      State(docs, nextId)
    }

    predicate Valid()
      reads this
    {
      Collection.Valid(Contents())
    }

    /** A handle on the collection as the database holds it, documents stored earlier included. */
    constructor (init: State)
      requires Collection.Valid(init)
      ensures Valid() && Contents() == init
    {
      docs, nextId := init.docs, init.next;
    }

    /** `update_one({"title": b.title}, {"$set": b}, upsert=True)` */
    method UpdateOneUpsert(b: Book)
      requires Valid()
      modifies this
      ensures Valid()
      ensures Contents() == Upsert(old(Contents()), b)
    {
      var found := FindTitle(docs, b.title);
      if found.Some? {
        var i := found.value;
        docs := docs[i := Doc(docs[i].id, b)];
      } else {
        docs := docs + [Doc(nextId, b)];
        nextId := nextId + 1;
      }
    }

    /** `insert_one(b)`, answering the new document's `inserted_id` */
    method InsertOne(b: Book) returns (insertedId: Id)
      requires Valid()
      modifies this
      ensures Valid()
      ensures insertedId == old(nextId)
      ensures Contents() == Insert(old(Contents()), b)
    {
      insertedId := nextId;
      docs := docs + [Doc(insertedId, b)];
      nextId := nextId + 1;
    }

    /** `update_one({"_id": id}, {"$set": b})`, answering its `matched_count` */
    method UpdateOneById(id: Id, b: Book) returns (matchedCount: nat)
      requires Valid()
      modifies this
      ensures Valid()
      ensures matchedCount == if FindId(old(docs), id).Some? then 1 else 0
      ensures Contents() == SetById(old(Contents()), id, b)
    {
      var found := FindId(docs, id);
      if found.Some? {
        docs := docs[found.value := Doc(id, b)];
        matchedCount := 1;
      } else {
        matchedCount := 0;
      }
    }

    /** `delete_one({"_id": id})`, answering its `deleted_count` */
    method DeleteOne(id: Id) returns (deletedCount: nat)
      requires Valid()
      modifies this
      ensures Valid()
      ensures deletedCount == if FindId(old(docs), id).Some? then 1 else 0
      ensures Contents() == DeleteById(old(Contents()), id)
    {
      var found := FindId(docs, id);
      if found.Some? {
        var i := found.value;
        docs := docs[..i] + docs[i + 1..];
        deletedCount := 1;
      } else {
        deletedCount := 0;
      }
    }
  }
}
