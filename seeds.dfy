/**
 * The two records the start-up seeding adds to the store
 * (BookLibrary.Data/Extensions/ServiceCollectionExtensions.cs), kept as
 * concrete data: their ISBNs pass the shape rule, and the store's seeding
 * method adds them.
 */
module Seeds {
  import opened Wrappers
  import opened Entities
  import IsbnValidator

  const CleanArchitecture := Book(
    "978-0138203283",
    "Clean Architecture with .NET",
    "Dino Esposito",
    "Understand what to do at any point in developing a clean .NET architecture",
    336,
    Some(Date(2024, 3, 22)))

  const HeadFirstDesignPatterns := Book(
    "978-1492078005",
    "Head First Design Patterns",
    "Eric Freeman",
    "Join hundreds of thousands of developers who've improved their object-oriented design skills through Head First Design Patterns.",
    669,
    Some(Date(2021, 1, 12)))

  /** The ISBN of the first seed record is accepted. */
  lemma FirstSeedIsbnAccepted()
    ensures IsbnValidator.IsIsbn(CleanArchitecture.isbn)
  {
    IsbnValidator.GroupedThirteenAccepted(CleanArchitecture.isbn);
  }

  /** The ISBN of the second seed record is accepted. */
  lemma SecondSeedIsbnAccepted()
    ensures IsbnValidator.IsIsbn(HeadFirstDesignPatterns.isbn)
  {
    IsbnValidator.GroupedThirteenAccepted(HeadFirstDesignPatterns.isbn);
  }
}
