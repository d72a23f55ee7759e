/**
 * The in-memory book store (BookLibrary.Data/InMemory/BookRepository.cs).
 *
 * The records live in one process-wide list, a static field of the
 * repository class. Here that list is a `Database` object owned by a
 * `Process`, and every `BookRepository` the process creates refers to it. Adding a book appends it
 * unconditionally; every other operation throws `NotImplementedException`.
 * The operations are synchronous: the C# `Task` results are values here.
 */
module InMemory {
  import opened Wrappers
  import opened Entities
  import Seeds

  /** The exception the unimplemented operations throw. */
  datatype Exception = NotImplementedException

  /** How a call ends: it returns a value or throws. */
  datatype Outcome<+T> = Returned(value: T) | Threw(exception: Exception)

  /** The number of stored records whose ISBN is exactly `isbn`. */
  function CountIsbn(books: seq<Book>, isbn: string): nat {
    if books == [] then 0
    else (if books[0].isbn == isbn then 1 else 0) + CountIsbn(books[1..], isbn)
  }

  /** Appending a record adds one to the count of its ISBN and leaves every other count alone. */
  lemma {:induction false} CountIsbnAppend(books: seq<Book>, b: Book, isbn: string)
    ensures CountIsbn(books + [b], isbn) == CountIsbn(books, isbn) + (if b.isbn == isbn then 1 else 0)
  {
    if books == [] {
      assert books + [b] == [b];
      assert [b][1..] == [];
    } else {
      assert (books + [b])[1..] == books[1..] + [b];
      CountIsbnAppend(books[1..], b, isbn);
    }
  }

  /** The process-wide list `_database`, empty when the process starts. */
  class Database {
    var books: seq<Book>

    constructor ()
      ensures books == []
    {
      books := [];
    }
  }

  /**
   * The static storage of one process. Dafny has no static mutable fields, so
   * the one `_database` list lives here and is handed to every repository
   * instance the process creates; `NewRepository` is the only way the model
   * creates instances that share it.
   */
  class Process {
    const database: Database

    constructor ()
      ensures fresh(database) && database.books == []
    {
      database := new Database();
    }

    /** A new repository instance; like every instance, it uses the process's one list. */
    method NewRepository() returns (r: BookRepository)
      ensures fresh(r) && r.database == database
    {
      r := new BookRepository(database);
    }
  }

  class BookRepository {
    /** The list this instance stores into: its process's `Process.database`. */
    const database: Database

    constructor (database: Database)
      ensures this.database == database
    {
      this.database := database;
    }

    /** The records in the store, in the order they were added. */
    function Books(): seq<Book>
      reads this, database
    {
      database.books
    }

    /**
     * Appends `book` to the shared list and returns true. There is no
     * duplicate check: a record whose ISBN is already stored is added again.
     */
    method AddBook(book: Book) returns (r: Outcome<bool>)
      modifies database
      ensures r == Returned(true)
      ensures Books() == old(Books()) + [book]
      ensures |Books()| == |old(Books())| + 1
      ensures forall i :: 0 <= i < |old(Books())| ==> Books()[i] == old(Books())[i]
      ensures Books()[|Books()| - 1] == book
      ensures CountIsbn(Books(), book.isbn) == CountIsbn(old(Books()), book.isbn) + 1
    {
      CountIsbnAppend(database.books, book, book.isbn);
      database.books := database.books + [book];
      r := Returned(true);
    }

    method UpdateBook(book: Book) returns (r: Outcome<bool>)
      ensures r.Threw? && r.exception == NotImplementedException
    {
      r := Threw(NotImplementedException);
    }

    method DeleteBook(isbn: string) returns (r: Outcome<bool>)
      ensures r.Threw? && r.exception == NotImplementedException
    {
      r := Threw(NotImplementedException);
    }

    method GetByIsbn(isbn: string) returns (r: Outcome<Option<Book>>)
      ensures r.Threw? && r.exception == NotImplementedException
    {
      r := Threw(NotImplementedException);
    }

    method GetAll() returns (r: Outcome<seq<Book>>)
      ensures r.Threw? && r.exception == NotImplementedException
    {
      r := Threw(NotImplementedException);
    }

    method SearchByTitle(searchTerm: string) returns (r: Outcome<seq<Book>>)
      ensures r.Threw? && r.exception == NotImplementedException
    {
      r := Threw(NotImplementedException);
    }
  }

  /**
   * Two repository instances of one process, such as the two singletons the
   * service registration creates: a book added through the first is seen,
   * appended, through the second.
   */
  method SharedStorage(process: Process, book: Book) returns (first: BookRepository, second: BookRepository)
    modifies process.database
    ensures fresh(first) && fresh(second) && first != second
    ensures second.Books() == old(process.database.books) + [book]
    ensures first.Books() == second.Books()
  {
    first := process.NewRepository();
    second := process.NewRepository();
    var _ := first.AddBook(book);
  }

  /**
   * Adding two books with the same ISBN keeps both, in the order added, and
   * raises the count of that ISBN by two.
   */
  method AddSameIsbnTwice(repository: BookRepository, first: Book, second: Book)
    requires first.isbn == second.isbn
    modifies repository.database
    ensures repository.Books() == old(repository.Books()) + [first, second]
    ensures CountIsbn(repository.Books(), first.isbn) == CountIsbn(old(repository.Books()), first.isbn) + 2
  {
    var _ := repository.AddBook(first);
    var _ := repository.AddBook(second);
  }

  /** A fresh store to which the two seed records are added, one after the other. */
  method SeedFreshStore() returns (repository: BookRepository)
    ensures fresh(repository) && fresh(repository.database)
    ensures repository.Books() == [Seeds.CleanArchitecture, Seeds.HeadFirstDesignPatterns]
  {
    var process := new Process();
    repository := process.NewRepository();
    var _ := repository.AddBook(Seeds.CleanArchitecture);
    var _ := repository.AddBook(Seeds.HeadFirstDesignPatterns);
  }
}
