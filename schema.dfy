/** The record shapes of models/schema.py and the Option type the model's searches return. */
module Schema {

  datatype Option<+T> = None | Some(value: T)

  /** A document identifier (MongoDB's ObjectId), abstracted as a number drawn from a counter. */
  type Id = nat

  /** `Book`: the three string fields every record and every stored document carries. */
  datatype Book = Book(title: string, price: string, availability: string)

  /** `BookInDB`: a book together with the identifier of the document that holds it. */
  datatype BookInDB = BookInDB(id: Id, title: string, price: string, availability: string)

  function WithId(id: Id, b: Book): BookInDB
  {
    BookInDB(id, b.title, b.price, b.availability)
  }
}
