# BookLibrary core in Dafny

This project models the three pieces of logic in the BookLibrary minimal API and proves what they promise.

- **The ISBN shape rule** (`IsbnValidator`, in `isbn_validator.dfy`). The validator matches the regular expression `^(?=(?:\D*\d){10}(?:(?:\D*\d){3})?$)[\d-]+$`. On a mismatch it reports the single message "Value is not a valid ISBN-13.".
  - `IsIsbn` states the accepted shape field by field. It is built on the recursive digit count `DigitCount`.
  - `RegexMatches` follows the pattern piece by piece. `AfterDigits` is the repeated group `(?:\D*\d){k}`, `AtEnd` is the `$` anchor, and `BodyMatches` is `[\d-]+$`.
  - `RegexCharacterisation` proves the two agree on every string.
  - Only the shape is checked. No ISBN check digit is computed, and `DigitReplacement` proves that digit values never matter.
- **The book rule set** (`BookValidator`, in `book_validator.dfy`). There are five independent field rules, and all of them run. `Validate` maps a `Book` to the ordered list of fields that fail. A field is named by the `Field` datatype, whose constructors carry the C# property names.
- **The in-memory store** (`InMemory`, in `book_repository.dfy`).
  - The C# class keeps its records in a static `List<Book>`. Dafny has no static mutable fields, so that list is a `Database` object with a `seq<Book>` field. A `Process` owns one `Database`, and every `BookRepository` created through `Process.NewRepository` refers to it.
  - `AddBook` appends unconditionally and returns true.
  - The five other operations only throw `NotImplementedException`. They are modelled as methods whose `Outcome` is always `Threw(NotImplementedException)` and which change nothing.

`entities.dfy` holds the `Book` record. `seeds.dfy` holds the two records the start-up seeding adds, used as concrete data. `wrappers.dfy` holds `Option`, which stands for C#'s nullable types.

### What the store implements

`IBookRepository` declares add, update and delete (BookLibrary.Data/Repositories/IBookRepository.cs:7-9). `IReadOnlyBookRepository` declares lookup by ISBN, listing and title search (BookLibrary.Data/Repositories/IReadOnlyBookRepository.cs:7-9). The in-memory class implements only `AddBook`, which appends with no duplicate check (BookLibrary.Data/InMemory/BookRepository.cs:11), and it throws for the rest. `AddSameIsbnTwice` and `CountIsbnAppend` prove that a second record with the same ISBN is kept.

Two details of the ISBN pattern are easy to miss:

- .NET's `$` also matches just before a final line feed. So `s + "\n"` is accepted exactly when `s` is, provided `s` does not already end in a line feed (`TrailingNewline`). Two final line feeds are always rejected (`DoubleNewlineRejected`).
- The message names ISBN-13 even when the input has the 10-digit shape.

## Model

| member | source | states |
|---|---|---|
| `IsbnValidator.IsIsbn` | BookLibrary.Api/Validators/IsbnValidator.cs:10 | the accepted shape: after removing one optional final line feed, the string is non-empty, holds only digits and hyphens, holds exactly 10 or 13 digits, and ends with a digit |
| `IsbnValidator.AtEnd` | BookLibrary.Api/Validators/IsbnValidator.cs:10 | the .NET anchor `$` at a position: the end of the string, or the position of a final line feed |
| `IsbnValidator.LookaheadMatches` | BookLibrary.Api/Validators/IsbnValidator.cs:10 | the lookahead: ten `\D*\d` groups from the start, optionally three more, then `$` |
| `IsbnValidator.BodyMatches` | BookLibrary.Api/Validators/IsbnValidator.cs:10 | the body `[\d-]+$`: some non-empty prefix of digits and hyphens is followed by `$` |
| `IsbnValidator.RegexMatches` | BookLibrary.Api/Validators/IsbnValidator.cs:10 | the whole pattern anchored at the start: both the lookahead and the body match |
| `IsbnValidator.Validate` | BookLibrary.Api/Validators/IsbnValidator.cs:9-11 | no error exactly when the shape rule accepts; otherwise exactly one error, always "Value is not a valid ISBN-13." |
| `IsbnValidator.AfterDigits` | BookLibrary.Api/Validators/IsbnValidator.cs:10 | the group `(?:\D*\d){k}` from position i fails exactly when fewer than k digits remain; otherwise it stops just past the k-th digit, having consumed exactly k digits |
| `IsbnValidator.AfterDigitsExact` | BookLibrary.Api/Validators/IsbnValidator.cs:10 | the group `(?:\D*\d){k}` from i ends exactly at j when the slice i..j holds k digits and ends with a digit |
| `IsbnValidator.RegexAcceptsIsbn` | BookLibrary.Api/Validators/IsbnValidator.cs:10 | every string of the stated shape matches the pattern (lookahead and body) |
| `IsbnValidator.RegexOnlyIsbn` | BookLibrary.Api/Validators/IsbnValidator.cs:10 | every string the pattern matches has the stated shape |
| `IsbnValidator.RegexCharacterisation` | BookLibrary.Api/Validators/IsbnValidator.cs:10 | the pattern matches a string if and only if it is non-empty, made of digits and hyphens (apart from one final line feed), holds exactly 10 or 13 digits, and ends with a digit |
| `IsbnValidator.NewlineFreeCharacterisation` | BookLibrary.Api/Validators/IsbnValidator.cs:10 | for a string with no final line feed, acceptance is equivalent to the four conditions: non-empty, only digits and hyphens, 10 or 13 digits, last character a digit |
| `IsbnValidator.CharacterSet` | BookLibrary.Api/Validators/IsbnValidator.cs:10 | an accepted string is non-empty and every character is a digit or a hyphen, except possibly one final line feed |
| `IsbnValidator.ForeignCharRejected` | BookLibrary.Api/Validators/IsbnValidator.cs:10 | a space, a letter or any other character outside `[0-9-]` anywhere before the end makes the string rejected |
| `IsbnValidator.DigitCountRule` | BookLibrary.Api/Validators/IsbnValidator.cs:10 | an accepted string holds exactly 10 or exactly 13 digits, so every other count (9, 11, 12, 14 or more) is rejected |
| `IsbnValidator.LastCharacterRule` | BookLibrary.Api/Validators/IsbnValidator.cs:10 | an accepted string ends with a digit, or with a digit followed by a single line feed |
| `IsbnValidator.TrailingHyphenRejected` | BookLibrary.Api/Validators/IsbnValidator.cs:10 | a string ending in a hyphen is rejected whatever its digit count |
| `IsbnValidator.HyphenInsertion` | BookLibrary.Api/Validators/IsbnValidator.cs:10 | inserting a hyphen at any position before the last digit keeps an accepted string accepted, including at the front and next to another hyphen |
| `IsbnValidator.DigitReplacement` | BookLibrary.Api/Validators/IsbnValidator.cs:10 | no check-digit arithmetic: replacing any digit of an accepted string by any digit keeps it accepted |
| `IsbnValidator.TrailingNewline` | BookLibrary.Api/Validators/IsbnValidator.cs:10 | for a string without a final line feed, appending one line feed does not change acceptance |
| `IsbnValidator.DoubleNewlineRejected` | BookLibrary.Api/Validators/IsbnValidator.cs:10 | a string ending in two line feeds is never accepted |
| `IsbnValidator.GroupedThirteenAccepted` | BookLibrary.Api/Validators/IsbnValidator.cs:10 | every string of three digits, one hyphen and ten digits is accepted |
| `Seeds.FirstSeedIsbnAccepted` | BookLibrary.Data/Extensions/ServiceCollectionExtensions.cs:28 | the ISBN of the first seed record, "978-0138203283", is accepted |
| `Seeds.SecondSeedIsbnAccepted` | BookLibrary.Data/Extensions/ServiceCollectionExtensions.cs:37 | the ISBN of the second seed record, "978-1492078005", is accepted |
| `IsbnValidator.LeadingAndDoubledHyphenAccepted` | BookLibrary.Api/Validators/IsbnValidator.cs:10 | a grouped 13-digit ISBN stays accepted with a leading hyphen and its hyphen doubled |
| `IsbnValidator.HyphenatedSeedIsbnAccepted` | BookLibrary.Api/Validators/IsbnValidator.cs:10 | "-978--0138203283" is accepted |
| `IsbnValidator.DigitCountAppend` | BookLibrary.Api/Validators/IsbnValidator.cs:10 | the digit count of a concatenation is the sum of the digit counts of its parts |
| `BookValidator.IsWhiteSpace` | BookLibrary.Api/Validators/BookValidator.cs:11-13 | the characters .NET's `char.IsWhiteSpace` accepts: U+0009 to U+000D, the space, U+0085, and the Unicode space, line and paragraph separators |
| `BookValidator.IsBlank` | BookLibrary.Api/Validators/BookValidator.cs:11-13 | what `NotEmpty` rejects in a string: empty, or white space only |
| `BookValidator.RuleFails` | BookLibrary.Api/Validators/BookValidator.cs:10-14 | each field's rule and the field it reads: Isbn fails the shape rule, Title, Author or ShortDescription is blank, or PageCount is not greater than 0 |
| `BookValidator.FailingAmong` | BookLibrary.Api/Validators/BookValidator.cs:10-14 | running the rules of a list of fields reports exactly the fields whose rules fail, and keeps declaration order when the list is in it |
| `BookValidator.Validate` | BookLibrary.Api/Validators/BookValidator.cs:10-14 | all five rules run: a field is reported if and only if its rule fails, each at most once, in the order Isbn, Title, Author, ShortDescription, PageCount; no failure exactly when the ISBN has the accepted shape, the three texts are not blank and PageCount > 0 |
| `BookValidator.FailureNames` | BookLibrary.Api/Validators/BookValidator.cs:10-14 | the property names reported: a field's name appears exactly when its rule fails, one name per failure, none twice |
| `BookValidator.NamesDistinct` | BookLibrary.Api/Validators/BookValidator.cs:10-14 | the five fields are reported under five different property names |
| `BookValidator.DeclarationOrderComplete` | BookLibrary.Api/Validators/BookValidator.cs:10-14 | every validated field has exactly one rule, listed in declaration order |
| `BookValidator.NoRuleFails` | BookLibrary.Api/Validators/BookValidator.cs:10-14 | no rule fails exactly when all five field conditions hold |
| `BookValidator.FailuresDistinct` | BookLibrary.Api/Validators/BookValidator.cs:10-14 | no field is reported twice |
| `BookValidator.Independence` | BookLibrary.Api/Validators/BookValidator.cs:10-14 | whether a field is reported depends only on that field's own value, so changing another field cannot add or remove its failure |
| `BookValidator.SameVerdictsSameFailures` | BookLibrary.Api/Validators/BookValidator.cs:10-14 | two books on which every rule gives the same verdict get the same failure list |
| `BookValidator.ReleaseDateIgnored` | BookLibrary.Api/Validators/BookValidator.cs:8-15 | the release date never causes a failure: absent or present with any value, the failure list is unchanged |
| `BookValidator.BlankStrings` | BookLibrary.Api/Validators/BookValidator.cs:11-13 | Title, Author and ShortDescription are reported exactly when empty or white space only (.NET white space); an empty Title is reported |
| `BookValidator.PageCountBoundary` | BookLibrary.Api/Validators/BookValidator.cs:14 | PageCount is reported exactly when it is at most 0; 0 is reported and 1 is not |
| `InMemory.CountIsbn` | BookLibrary.Data/InMemory/BookRepository.cs:7 | the number of records in the list whose ISBN is exactly the given string |
| `InMemory.CountIsbnAppend` | BookLibrary.Data/InMemory/BookRepository.cs:11 | appending a record raises the count of its ISBN by one and leaves every other ISBN's count unchanged |
| `InMemory.Database.constructor` | BookLibrary.Data/InMemory/BookRepository.cs:7 | the shared list starts empty |
| `InMemory.Process.constructor` | BookLibrary.Data/InMemory/BookRepository.cs:7 | a process starts with one fresh, empty list |
| `InMemory.Process.NewRepository` | BookLibrary.Data/InMemory/BookRepository.cs:5-7 | every repository instance a process creates stores into that process's one list |
| `InMemory.BookRepository.constructor` | BookLibrary.Data/InMemory/BookRepository.cs:5-7 | a repository stores into the list it is given |
| `InMemory.BookRepository.AddBook` | BookLibrary.Data/InMemory/BookRepository.cs:9-14 | returns true; the stored sequence becomes the old one with the book appended; the length grows by one, earlier entries are unchanged and in order, and the new book's ISBN count grows by one with no duplicate check |
| `InMemory.BookRepository.UpdateBook` | BookLibrary.Data/InMemory/BookRepository.cs:16-19 | never returns normally: always throws NotImplementedException, changing nothing |
| `InMemory.BookRepository.DeleteBook` | BookLibrary.Data/InMemory/BookRepository.cs:21-24 | never returns normally: always throws NotImplementedException, changing nothing |
| `InMemory.BookRepository.GetByIsbn` | BookLibrary.Data/InMemory/BookRepository.cs:26-29 | never returns normally: always throws NotImplementedException, changing nothing |
| `InMemory.BookRepository.GetAll` | BookLibrary.Data/InMemory/BookRepository.cs:31-34 | never returns normally: always throws NotImplementedException, changing nothing |
| `InMemory.BookRepository.SearchByTitle` | BookLibrary.Data/InMemory/BookRepository.cs:36-39 | never returns normally: always throws NotImplementedException, changing nothing |
| `InMemory.SharedStorage` | BookLibrary.Data/InMemory/BookRepository.cs:7 | two distinct repository instances of one process, like the two registered singletons, see the same list: a book added through the first is seen appended through the second |
| `InMemory.AddSameIsbnTwice` | BookLibrary.Data/InMemory/BookRepository.cs:9-14 | adding two books with the same ISBN keeps both, in the order added, and raises that ISBN's count by two |
| `InMemory.SeedFreshStore` | BookLibrary.Data/Extensions/ServiceCollectionExtensions.cs:24-47 | adding the two seed records to an empty store leaves exactly those two, in seeding order |

## Left out

- Unicode digits: .NET's `\d` matches every Unicode decimal digit. The model's `IsDigit` accepts only the ASCII digits '0' to '9'.
- White space: `IsWhiteSpace` lists exactly the characters .NET's `char.IsWhiteSpace` accepts. Strings are Dafny `seq<char>` of Unicode scalar values, not UTF-16 code units.
- Null strings: the four string properties are `required`, so they are modelled as never null. The rule that `Matches` skips null values is not modelled.
- Failure messages: the Title, Author, ShortDescription and PageCount failures are reported by field only. FluentValidation's default message texts are not reproduced.
- Async and concurrency: the C# methods return `Task` and the static list is not synchronised. The model is synchronous and single-threaded, so interleaved `AddBook` calls are not modelled.
- Object identity: a `Book` is a value here. The C# store keeps a reference to the caller's object, so a later change by the caller to that object is not modelled.
- Interfaces: `IBookRepository` and `IReadOnlyBookRepository` give only the signatures. Their operations appear directly as methods of `BookRepository`.
- Dates: `DateOnly` is a plain year/month/day triple with no calendar validity check, because no rule reads it.
- Seeding and wiring: the start-up seeding is not modelled as a whole. It waits for each add with a 100 ms timeout and calls `AddBookAsync`, an operation the repository interface does not declare. Only the effect of adding the two seed records is kept, as `SeedFreshStore`. Dependency registration is also left out.
- InMemory.BookRepository.constructor: the static list is the `Database` passed in. The constructor accepts any `Database`, so the model can build two repositories over separate lists, which the C# static field rules out. Sharing holds for repositories created through `Process.NewRepository`, and keeping to that is the caller's obligation.
- InMemory.SharedStorage: proves sharing only for repositories created through one `Process`. It does not cover repositories built directly with the constructor over different `Database` objects.
- Everything outside the three core files is left out: HTTP hosting, routing, API-key authentication and API documentation. These are framework glue.
