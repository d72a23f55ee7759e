/**
 * The book rule set (BookLibrary.Api/Validators/BookValidator.cs).
 *
 * Five independent rules, one per field, all of which run on every book:
 * the ISBN passes the shape rule, Title, Author and ShortDescription are not
 * blank, and PageCount is greater than zero. A failure is reported by the
 * name of its field; the library's default message texts are not modelled.
 */
module BookValidator {
  import opened Wrappers
  import opened Entities
  import IsbnValidator

  /** The validated properties of `Book`, in the order their rules are declared. */
  datatype Field = Isbn | Title | Author | ShortDescription | PageCount {

    /** The position of the field's rule in the rule set. */
    function Rank(): nat {
      match this
      case Isbn => 0
      case Title => 1
      case Author => 2
      case ShortDescription => 3
      case PageCount => 4
    }

    /** The property name under which a failure of the field's rule is reported. */
    function Name(): string {
      match this
      case Isbn => "Isbn"
      case Title => "Title"
      case Author => "Author"
      case ShortDescription => "ShortDescription"
      case PageCount => "PageCount"
    }
  }

  /** .NET's `char.IsWhiteSpace`: the Unicode separators Zs, Zl, Zp, and U+0009..U+000D, U+0085. */
  predicate IsWhiteSpace(c: char) {
    || '\t' <= c <= '\r'
    || c == ' '
    || c == '\U{0085}'
    || c == '\U{00A0}'
    || c == '\U{1680}'
    || '\U{2000}' <= c <= '\U{200A}'
    || c == '\U{2028}'
    || c == '\U{2029}'
    || c == '\U{202F}'
    || c == '\U{205F}'
    || c == '\U{3000}'
  }

  /** What `NotEmpty` rejects in a string: the empty string and one made of white space only. */
  predicate IsBlank(s: string) {
    forall i :: 0 <= i < |s| ==> IsWhiteSpace(s[i])
  }

  /** Whether the rule for field `f` fails on book `b`; each rule looks at its own field only. */
  predicate RuleFails(b: Book, f: Field) {
    match f
    case Isbn => !IsbnValidator.IsIsbn(b.isbn)
    case Title => IsBlank(b.title)
    case Author => IsBlank(b.author)
    case ShortDescription => IsBlank(b.shortDescription)
    case PageCount => !(b.pageCount > 0)
  }

  /** The fields in the order their rules are declared. */
  const DeclarationOrder: seq<Field> := [Isbn, Title, Author, ShortDescription, PageCount]

  /** Strictly increasing rank: each field at most once, in declaration order. */
  predicate InRuleOrder(fields: seq<Field>) {
    forall i, j :: 0 <= i < j < |fields| ==> fields[i].Rank() < fields[j].Rank()
  }

  lemma OrderedCons(x: Field, rest: seq<Field>)
    requires InRuleOrder(rest) && forall f :: f in rest ==> x.Rank() < f.Rank()
    ensures InRuleOrder([x] + rest)
  {
    var s := [x] + rest;
    forall i, j | 0 <= i < j < |s| ensures s[i].Rank() < s[j].Rank() {
      assert s[j] == rest[j - 1];
      if i > 0 {
        assert s[i] == rest[i - 1];
      }
    }
  }

  /** The fields of `fields` whose rules fail on `b`, in the order given. */
  function FailingAmong(b: Book, fields: seq<Field>): (failures: seq<Field>)
    ensures forall f :: f in failures <==> f in fields && RuleFails(b, f)
    ensures InRuleOrder(fields) ==> InRuleOrder(failures)
  {
    if fields == [] then
      []
    else
      var rest := FailingAmong(b, fields[1..]);
      if !RuleFails(b, fields[0]) then
        rest
      else if InRuleOrder(fields) then
        assert forall f :: f in rest ==> fields[0].Rank() < f.Rank() by {
          forall f | f in rest ensures fields[0].Rank() < f.Rank() {
            var k :| 0 <= k < |fields[1..]| && fields[1..][k] == f;
            assert fields[k + 1] == f;
          }
        }
        OrderedCons(fields[0], rest);
        [fields[0]] + rest
      else
        [fields[0]] + rest
  }

  /**
   * The failures the rule set reports for `b`: every failing field, each
   * once, in the order the rules are declared; none exactly when all five
   * rules pass.
   */
  function Validate(b: Book): (failures: seq<Field>)
    ensures forall f :: f in failures <==> RuleFails(b, f)
    ensures InRuleOrder(failures)
    ensures failures == [] <==>
      && IsbnValidator.IsIsbn(b.isbn)
      && !IsBlank(b.title)
      && !IsBlank(b.author)
      && !IsBlank(b.shortDescription)
      && b.pageCount > 0
  {
    DeclarationOrderComplete();
    NoRuleFails(b);
    var failures := FailingAmong(b, DeclarationOrder);
    assert failures != [] ==> RuleFails(b, failures[0]);
    failures
  }

  /** Every field has a rule, and the rules are listed once each, in rank order. */
  lemma DeclarationOrderComplete()
    ensures forall f :: f in DeclarationOrder
    ensures InRuleOrder(DeclarationOrder)
  {
    forall f ensures f in DeclarationOrder {
      assert DeclarationOrder[f.Rank()] == f;
    }
  }

  /** No rule fails exactly when the five field conditions all hold. */
  lemma NoRuleFails(b: Book)
    ensures (forall f :: !RuleFails(b, f)) <==>
      && IsbnValidator.IsIsbn(b.isbn)
      && !IsBlank(b.title)
      && !IsBlank(b.author)
      && !IsBlank(b.shortDescription)
      && b.pageCount > 0
  {
    if && IsbnValidator.IsIsbn(b.isbn) && !IsBlank(b.title) && !IsBlank(b.author)
       && !IsBlank(b.shortDescription) && b.pageCount > 0
    {
      forall f ensures !RuleFails(b, f) {
        match f
        case Isbn =>
        case Title =>
        case Author =>
        case ShortDescription =>
        case PageCount =>
      }
    } else {
      assert RuleFails(b, Isbn) || RuleFails(b, Title) || RuleFails(b, Author)
        || RuleFails(b, ShortDescription) || RuleFails(b, PageCount);
    }
  }

  /** Different fields are reported under different property names. */
  lemma NamesDistinct()
    ensures forall f: Field, g: Field :: f.Name() == g.Name() ==> f == g
  {
    forall f: Field, g: Field | f != g ensures f.Name() != g.Name() {
      assert f.Name()[0] != g.Name()[0] || |f.Name()| != |g.Name()|;
    }
  }

  /**
   * The property names the rule set reports for `b`: the name of a field
   * appears exactly when that field's rule fails, and at most once.
   */
  function FailureNames(b: Book): (names: seq<string>)
    ensures |names| == |Validate(b)|
    ensures forall f: Field :: f.Name() in names <==> RuleFails(b, f)
    ensures forall i, j :: 0 <= i < j < |names| ==> names[i] != names[j]
  {
    var failures := Validate(b);
    var names := seq(|failures|, i requires 0 <= i < |failures| => failures[i].Name());
    NamesDistinct();
    assert forall f: Field :: f.Name() in names ==> f in failures by {
      forall f: Field | f.Name() in names ensures f in failures {
        var k :| 0 <= k < |names| && names[k] == f.Name();
        assert failures[k].Name() == f.Name();
      }
    }
    assert forall f: Field :: f in failures ==> f.Name() in names by {
      forall f: Field | f in failures ensures f.Name() in names {
        var k :| 0 <= k < |failures| && failures[k] == f;
        assert names[k] == f.Name();
      }
    }
    names
  }

  /** Books on which every rule gives the same verdict get the same failures. */
  lemma {:induction false} SameVerdictsSameFailures(b: Book, b': Book, fields: seq<Field>)
    requires forall f :: RuleFails(b, f) == RuleFails(b', f)
    ensures FailingAmong(b, fields) == FailingAmong(b', fields)
  {
    if fields != [] {
      SameVerdictsSameFailures(b, b', fields[1..]);
    }
  }

  /** Two books that agree on field `f`. */
  predicate SameField(b: Book, b': Book, f: Field) {
    match f
    case Isbn => b.isbn == b'.isbn
    case Title => b.title == b'.title
    case Author => b.author == b'.author
    case ShortDescription => b.shortDescription == b'.shortDescription
    case PageCount => b.pageCount == b'.pageCount
  }

  /** No field is reported twice. */
  lemma FailuresDistinct(b: Book)
    ensures forall i, j :: 0 <= i < j < |Validate(b)| ==> Validate(b)[i] != Validate(b)[j]
  {
  }

  /** Whether a field fails depends on that field only: changing other fields adds or removes no failure for it. */
  lemma Independence(b: Book, b': Book, f: Field)
    requires SameField(b, b', f)
    ensures f in Validate(b) <==> f in Validate(b')
  {
  }

  /** The release date is never validated: absent or present with any value, the failures are the same. */
  lemma ReleaseDateIgnored(b: Book, d: Option<Date>)
    ensures Validate(b.(releaseDate := d)) == Validate(b)
  {
    SameVerdictsSameFailures(b.(releaseDate := d), b, DeclarationOrder);
  }

  /** Title fails exactly when it is empty or white space only; Author and ShortDescription likewise. */
  lemma BlankStrings(b: Book)
    ensures Title in Validate(b) <==> forall i :: 0 <= i < |b.title| ==> IsWhiteSpace(b.title[i])
    ensures Author in Validate(b) <==> forall i :: 0 <= i < |b.author| ==> IsWhiteSpace(b.author[i])
    ensures ShortDescription in Validate(b) <==>
      forall i :: 0 <= i < |b.shortDescription| ==> IsWhiteSpace(b.shortDescription[i])
    ensures b.title == "" ==> Title in Validate(b)
  {
  }

  /** The page count fails at 0 and below and passes from 1 up. */
  lemma PageCountBoundary(b: Book)
    ensures PageCount in Validate(b) <==> b.pageCount <= 0
    ensures PageCount in Validate(b.(pageCount := 0))
    ensures PageCount !in Validate(b.(pageCount := 1))
  {
  }
}
