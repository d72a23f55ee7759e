/** The `Book` entity (BookLibrary.Data/Entities/Book.cs). */
module Entities {
  import opened Wrappers

  /** C#'s `int`: a signed 32-bit integer. */
  newtype Int32 = x: int | -0x8000_0000 <= x < 0x8000_0000

  /** C#'s `DateOnly`, as a calendar date. No rule ever inspects it. */
  datatype Date = Date(year: int, month: int, day: int)

  /** A book record. The four strings are `required`, so never null; the release date is optional. */
  datatype Book = Book(
    isbn: string,
    title: string,
    author: string,
    shortDescription: string,
    pageCount: Int32,
    releaseDate: Option<Date>)
}
