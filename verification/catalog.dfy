/** The record store behind the three controllers: one table per record
    kind the controllers touch, with Author ids kept opaque. */
module Catalog {
  import opened Tables
  import opened Validation

  /** A Book document; `author` and `genre` hold ids, as the schema stores
      references. */
  datatype Book = Book(title: string, author: Id, summary: string, isbn: string, genre: seq<Id>)

  datatype Genre = Genre(name: string)

  /** A BookInstance document; `status` is kept as the sanitised string the
      handler stores. */
  datatype BookInstance = BookInstance(book: Id, imprint: string, status: string, dueBack: Option<Date>)

  /** One snapshot of the database. Authors are only counted, so only their
      ids are kept. */
  datatype Store = Store(
    books: Table<Book>,
    instances: Table<BookInstance>,
    genres: Table<Genre>,
    authors: set<Id>)

  predicate WellFormed(s: Store) {
    Tables.Valid(s.books) && Tables.Valid(s.instances) && Tables.Valid(s.genres)
  }

  function EmptyStore(): (s: Store)
    ensures WellFormed(s)
    ensures |s.books.rows| == 0 && |s.instances.rows| == 0 && |s.genres.rows| == 0 && |s.authors| == 0
  {
    Store(Empty(), Empty(), Empty(), {})
  }

  /** `BookInstance.find({ book: id })`: the copies of one book. */
  function InstancesOf(s: Store, bookId: Id): (m: map<Id, BookInstance>)
    ensures forall k :: k in m <==> k in s.instances.rows && s.instances.rows[k].book == bookId
    ensures forall k :: k in m ==> m[k] == s.instances.rows[k]
  {
    Where(s.instances, (bi: BookInstance) => bi.book == bookId)
  }

  /** `Book.find({ genre: id })`: MongoDB matches an array field when the
      array contains the value. */
  function BooksInGenre(s: Store, genreId: Id): (m: map<Id, Book>)
    ensures forall k :: k in m <==> k in s.books.rows && genreId in s.books.rows[k].genre
    ensures forall k :: k in m ==> m[k] == s.books.rows[k]
  {
    Where(s.books, (b: Book) => genreId in b.genre)
  }

  const Available: string := "Available"

  predicate IsAvailable(bi: BookInstance) {
    bi.status == Available
  }
}
