/**
 * The ISBN shape rule (BookLibrary.Api/Validators/IsbnValidator.cs).
 *
 * The validator matches the string against
 *     ^(?=(?:\D*\d){10}(?:(?:\D*\d){3})?$)[\d-]+$
 * and reports one fixed message when it does not match. Only the shape is
 * checked; no ISBN check digit is computed.
 *
 * `IsIsbn` is the shape stated field by field; `RegexMatches` follows the
 * pattern piece by piece; `RegexCharacterisation` proves that they agree.
 * Digits are the ASCII digits '0'..'9'.
 */
module IsbnValidator {
  import opened Wrappers

  /** The text of the one failure the validator reports. */
  const InvalidIsbnMessage := "Value is not a valid ISBN-13."

  /** The regex class `\d`. */
  predicate IsDigit(c: char) {
    '0' <= c <= '9'
  }

  /** The regex class `[\d-]`. */
  predicate IsIsbnChar(c: char) {
    IsDigit(c) || c == '-'
  }

  predicate AllIsbnChars(s: string) {
    forall i :: 0 <= i < |s| ==> IsIsbnChar(s[i])
  }

  /** The number of digits in `s`. */
  function DigitCount(s: string): nat {
    if |s| == 0 then 0 else (if IsDigit(s[0]) then 1 else 0) + DigitCount(s[1..])
  }

  /** `s` with one final line feed removed: .NET's `$` also matches just before a final "\n". */
  function WithoutFinalNewline(s: string): string {
    if |s| > 0 && s[|s| - 1] == '\n' then s[..|s| - 1] else s
  }

  /**
   * The accepted shape: apart from one optional final line feed, the string is
   * non-empty, made of digits and hyphens only, holds exactly 10 or exactly 13
   * digits, and ends with a digit.
   */
  predicate IsIsbn(s: string) {
    var t := WithoutFinalNewline(s);
    && |t| > 0
    && AllIsbnChars(t)
    && (DigitCount(t) == 10 || DigitCount(t) == 13)
    && IsDigit(t[|t| - 1])
  }

  /** The validation errors for one ISBN: none, or the single fixed message. */
  function Validate(isbn: string): (errors: seq<string>)
    ensures errors == [] <==> IsIsbn(isbn)
    ensures |errors| <= 1
    ensures forall e :: e in errors ==> e == InvalidIsbnMessage
  {
    if IsIsbn(isbn) then [] else [InvalidIsbnMessage]
  }

  // ---------------------------------------------------------------------------
  // The pattern, piece by piece
  // ---------------------------------------------------------------------------

  /** The anchor `$` at position `i`: the end of the string, or just before a final "\n". */
  predicate AtEnd(s: string, i: nat)
    requires i <= |s|
  {
    i == |s| || (i + 1 == |s| && s[i] == '\n')
  }

  /**
   * The group `(?:\D*\d){k}` matched from position `i`: the position just past
   * the k-th digit at or after `i`, or None when fewer than `k` digits remain.
   * `\D*` and `\d` match disjoint characters, so the match is unique and no
   * backtracking can find another.
   */
  function AfterDigits(s: string, i: nat, k: nat): (r: Option<nat>)
    requires i <= |s|
    ensures r.None? <==> DigitCount(s[i..]) < k
    ensures r.Some? ==> i <= r.value <= |s| && DigitCount(s[i..r.value]) == k
    ensures r.Some? && k > 0 ==> i < r.value && IsDigit(s[r.value - 1])
    decreases |s| - i
  {
    if k == 0 then
      Some(i)
    else if i == |s| then
      None
    else
      assert s[i..][1..] == s[i + 1..];
      var r := if IsDigit(s[i]) then AfterDigits(s, i + 1, k - 1) else AfterDigits(s, i + 1, k);
      assert r.Some? ==> s[i..r.value][1..] == s[i + 1..r.value];
      r
  }

  /** The lookahead `(?=(?:\D*\d){10}(?:(?:\D*\d){3})?$)` at the start of the string. */
  predicate LookaheadMatches(s: string) {
    match AfterDigits(s, 0, 10)
    case None => false
    case Some(p) =>
      || (match AfterDigits(s, p, 3)
          case Some(q) => AtEnd(s, q)
          case None => false)
      || AtEnd(s, p)
  }

  /** The body `[\d-]+$` at the start of the string. */
  predicate BodyMatches(s: string) {
    exists j :: 1 <= j <= |s| && AllIsbnChars(s[..j]) && AtEnd(s, j)
  }

  /** The whole pattern, anchored by `^` at the start. */
  predicate RegexMatches(s: string) {
    LookaheadMatches(s) && BodyMatches(s)
  }

  // ---------------------------------------------------------------------------
  // Digit counting
  // ---------------------------------------------------------------------------

  lemma {:induction false} DigitCountAppend(a: string, b: string)
    ensures DigitCount(a + b) == DigitCount(a) + DigitCount(b)
  {
    if a == [] {
      assert a + b == b;
    } else {
      assert (a + b)[1..] == a[1..] + b;
      DigitCountAppend(a[1..], b);
    }
  }

  /** A string with a digit in it has a positive digit count. */
  lemma {:induction false} DigitCountPositive(s: string, k: nat)
    requires k < |s| && IsDigit(s[k])
    ensures DigitCount(s) > 0
  {
    if k > 0 {
      DigitCountPositive(s[1..], k - 1);
    }
  }

  /** Replacing a digit by a digit, or a non-digit by a non-digit, keeps the digit count. */
  lemma {:induction false} DigitCountUpdate(s: string, i: nat, c: char)
    requires i < |s| && IsDigit(s[i]) == IsDigit(c)
    ensures DigitCount(s[i := c]) == DigitCount(s)
  {
    if i == 0 {
      assert s[i := c][1..] == s[1..];
    } else {
      assert s[i := c][1..] == s[1..][i - 1 := c];
      DigitCountUpdate(s[1..], i - 1, c);
    }
  }

  /** A string of digits only has as many digits as characters. */
  lemma {:induction false} DigitCountOfDigits(s: string)
    requires forall i :: 0 <= i < |s| ==> IsDigit(s[i])
    ensures DigitCount(s) == |s|
  {
    if s != [] {
      DigitCountOfDigits(s[1..]);
    }
  }

  /** Removing a final line feed changes neither the string otherwise nor its digit count. */
  lemma FinalNewline(s: string)
    ensures s == WithoutFinalNewline(s) || s == WithoutFinalNewline(s) + "\n"
    ensures DigitCount(WithoutFinalNewline(s)) == DigitCount(s)
  {
    var t := WithoutFinalNewline(s);
    if t != s {
      assert s == t + "\n";
      DigitCountAppend(t, "\n");
    }
  }

  /**
   * The group `(?:\D*\d){k}` from `i` ends exactly at `j` when `s[i..j]` holds
   * `k` digits and ends with one.
   */
  lemma {:induction false} AfterDigitsExact(s: string, i: nat, j: nat, k: nat)
    requires i <= j <= |s| && k > 0
    requires DigitCount(s[i..j]) == k && IsDigit(s[j - 1])
    ensures AfterDigits(s, i, k) == Some(j)
    decreases j - i
  {
    assert s[i..j][1..] == s[i + 1..j];
    if IsDigit(s[i]) && k == 1 {
      if i + 1 < j {
        assert s[i + 1..j][j - 1 - (i + 1)] == s[j - 1];
        DigitCountPositive(s[i + 1..j], j - 1 - (i + 1));
      }
    } else if IsDigit(s[i]) {
      AfterDigitsExact(s, i + 1, j, k - 1);
    } else {
      AfterDigitsExact(s, i + 1, j, k);
    }
  }

  // ---------------------------------------------------------------------------
  // The pattern and the shape agree
  // ---------------------------------------------------------------------------

  lemma RegexAcceptsIsbn(s: string)
    requires IsIsbn(s)
    ensures RegexMatches(s)
  {
    var t := WithoutFinalNewline(s);
    var n := |t|;
    FinalNewline(s);
    assert s[..n] == t;
    assert AllIsbnChars(s[..n]) && AtEnd(s, n);
    assert BodyMatches(s);
    assert s[0..] == s;
    var p := AfterDigits(s, 0, 10).value;
    assert s[0..p] == s[..p];
    assert t == s[..p] + s[p..n];
    DigitCountAppend(s[..p], s[p..n]);
    if DigitCount(t) == 10 {
      if p < n {
        assert s[p..n][n - 1 - p] == t[n - 1];
        DigitCountPositive(s[p..n], n - 1 - p);
      }
      assert AtEnd(s, p);
    } else {
      AfterDigitsExact(s, p, n, 3);
    }
  }

  /** Where the body `[\d-]+` reaches `$` and where a digit just before `$` lies, the two agree. */
  lemma EndsAgree(s: string, j: nat, e: nat)
    requires 1 <= j <= |s| && AllIsbnChars(s[..j]) && AtEnd(s, j)
    requires 1 <= e <= |s| && IsDigit(s[e - 1]) && AtEnd(s, e)
    ensures e == j && WithoutFinalNewline(s) == s[..j]
    ensures AllIsbnChars(WithoutFinalNewline(s)) && IsDigit(WithoutFinalNewline(s)[j - 1])
  {
    if j == |s| {
      assert s[..j][j - 1] == s[j - 1];
    }
  }

  lemma RegexOnlyIsbn(s: string)
    requires RegexMatches(s)
    ensures IsIsbn(s)
  {
    var j :| 1 <= j <= |s| && AllIsbnChars(s[..j]) && AtEnd(s, j);
    assert s[0..] == s;
    var p := AfterDigits(s, 0, 10).value;
    assert s[0..p] == s[..p];
    if AtEnd(s, p) {
      EndsAgree(s, j, p);
    } else {
      var q := AfterDigits(s, p, 3).value;
      EndsAgree(s, j, q);
      assert s[..q] == s[..p] + s[p..q];
      DigitCountAppend(s[..p], s[p..q]);
    }
  }

  /** The pattern accepts exactly the strings of the stated shape. */
  lemma RegexCharacterisation(s: string)
    ensures RegexMatches(s) <==> IsIsbn(s)
  {
    if IsIsbn(s) {
      RegexAcceptsIsbn(s);
    }
    if RegexMatches(s) {
      RegexOnlyIsbn(s);
    }
  }

  // ---------------------------------------------------------------------------
  // Properties of the accepted shape
  // ---------------------------------------------------------------------------

  /** An accepted string is non-empty and holds only digits and hyphens, save one final line feed. */
  lemma CharacterSet(s: string)
    ensures IsIsbn(s) ==>
      && |s| > 0
      && forall i :: 0 <= i < |s| ==> IsIsbnChar(s[i]) || (i == |s| - 1 && s[i] == '\n')
  {
    if IsIsbn(s) {
      var t := WithoutFinalNewline(s);
      forall i | 0 <= i < |s|
        ensures IsIsbnChar(s[i]) || (i == |s| - 1 && s[i] == '\n')
      {
        if i < |t| {
          assert s[i] == t[i];
        }
      }
    }
  }

  /** Without a final line feed, the accepted strings are exactly the stated shape. */
  lemma NewlineFreeCharacterisation(s: string)
    requires s == [] || s[|s| - 1] != '\n'
    ensures IsIsbn(s) <==>
      && |s| > 0
      && AllIsbnChars(s)
      && (DigitCount(s) == 10 || DigitCount(s) == 13)
      && IsDigit(s[|s| - 1])
  {
  }

  /** A space, a letter or any other separator before the end rejects the string. */
  lemma ForeignCharRejected(s: string, i: nat)
    requires i < |s| && !IsIsbnChar(s[i]) && !(i == |s| - 1 && s[i] == '\n')
    ensures !IsIsbn(s)
  {
    CharacterSet(s);
  }

  /** An accepted string holds exactly 10 or exactly 13 digits; any other count is rejected. */
  lemma DigitCountRule(s: string)
    ensures IsIsbn(s) ==> DigitCount(s) == 10 || DigitCount(s) == 13
  {
    FinalNewline(s);
  }

  /** An accepted string ends with a digit, or with a digit followed by one line feed. */
  lemma LastCharacterRule(s: string)
    ensures IsIsbn(s) ==>
      || IsDigit(s[|s| - 1])
      || (|s| >= 2 && s[|s| - 1] == '\n' && IsDigit(s[|s| - 2]))
  {
  }

  /** A trailing hyphen rejects the string, whatever its digit count. */
  lemma TrailingHyphenRejected(s: string)
    requires |s| > 0 && s[|s| - 1] == '-'
    ensures !IsIsbn(s)
  {
  }

  /** Inserting a hyphen before the last character keeps the characters, the digit count and the last character. */
  lemma InsertHyphen(t: string, k: nat)
    requires k < |t|
    ensures var t' := t[..k] + "-" + t[k..];
      && t'[|t'| - 1] == t[|t| - 1]
      && DigitCount(t') == DigitCount(t)
      && (AllIsbnChars(t) ==> AllIsbnChars(t'))
  {
    var t' := t[..k] + "-" + t[k..];
    assert t == t[..k] + t[k..];
    DigitCountAppend(t[..k], t[k..]);
    DigitCountAppend(t[..k] + "-", t[k..]);
    DigitCountAppend(t[..k], "-");
    forall i | 0 <= i < |t'|
      ensures t'[i] == (if i < k then t[i] else if i == k then '-' else t[i - 1])
    {
    }
  }

  /**
   * A hyphen may be inserted anywhere before the last digit, including at the
   * front and next to another hyphen.
   */
  lemma HyphenInsertion(s: string, k: nat)
    requires IsIsbn(s) && k < |WithoutFinalNewline(s)|
    ensures IsIsbn(s[..k] + "-" + s[k..])
  {
    var t := WithoutFinalNewline(s);
    var rest := s[|t|..];
    FinalNewline(s);
    assert s == t + rest;
    var t' := t[..k] + "-" + t[k..];
    assert s[..k] == t[..k] && s[k..] == t[k..] + rest;
    assert s[..k] + "-" + s[k..] == t' + rest;
    InsertHyphen(t, k);
    assert WithoutFinalNewline(t' + rest) == t';
  }

  /** The digits' values are never checked: replacing one digit by another keeps the string accepted. */
  lemma DigitReplacement(s: string, i: nat, d: char)
    requires IsIsbn(s) && i < |s| && IsDigit(s[i]) && IsDigit(d)
    ensures IsIsbn(s[i := d])
  {
    var t := WithoutFinalNewline(s);
    FinalNewline(s);
    assert i < |t|;
    var rest := s[|t|..];
    assert s == t + rest;
    var t' := t[i := d];
    assert s[i := d] == t' + rest;
    assert t'[|t'| - 1] != '\n';
    assert WithoutFinalNewline(t' + rest) == t';
    assert AllIsbnChars(t') by {
      forall k | 0 <= k < |t'| ensures IsIsbnChar(t'[k]) {
        assert k != i ==> t'[k] == t[k];
      }
    }
    DigitCountUpdate(t, i, d);
  }

  /** .NET's `$`: a string without a final line feed is accepted exactly when it is with one added. */
  lemma TrailingNewline(s: string)
    requires s == [] || s[|s| - 1] != '\n'
    ensures IsIsbn(s + "\n") <==> IsIsbn(s)
  {
    assert (s + "\n")[..|s|] == s;
  }

  /** Only one final line feed is allowed: two reject the string. */
  lemma DoubleNewlineRejected(s: string)
    ensures !IsIsbn(s + "\n\n")
  {
    var t := WithoutFinalNewline(s + "\n\n");
    assert t == s + "\n";
    assert !IsIsbnChar(t[|t| - 1]);
  }

  // ---------------------------------------------------------------------------
  // Examples
  // ---------------------------------------------------------------------------

  /** A string without a final line feed that has the stated shape is accepted. */
  lemma ShapeAccepted(s: string)
    requires |s| > 0 && s[|s| - 1] != '\n'
    requires AllIsbnChars(s) && (DigitCount(s) == 10 || DigitCount(s) == 13) && IsDigit(s[|s| - 1])
    ensures IsIsbn(s)
  {
  }

  /** Any string of three digits, a hyphen and ten digits, the form of the seed records' ISBNs, is accepted. */
  lemma GroupedThirteenAccepted(s: string)
    requires |s| == 14 && s[3] == '-'
    requires forall i :: 0 <= i < 14 && i != 3 ==> IsDigit(s[i])
    ensures IsIsbn(s)
  {
    assert s == s[..3] + [s[3]] + s[4..];
    DigitCountAppend(s[..3] + [s[3]], s[4..]);
    DigitCountAppend(s[..3], [s[3]]);
    DigitCountOfDigits(s[..3]);
    DigitCountOfDigits(s[4..]);
    ShapeAccepted(s);
  }

  /**
   * A leading hyphen and a second hyphen next to the first are accepted: the
   * seed form "978-0138203283" becomes "-978--0138203283".
   */
  lemma LeadingAndDoubledHyphenAccepted(s: string)
    requires |s| == 14 && s[3] == '-'
    requires forall i :: 0 <= i < 14 && i != 3 ==> IsDigit(s[i])
    ensures IsIsbn("-" + s[..4] + "-" + s[4..])
  {
    GroupedThirteenAccepted(s);
    HyphenInsertion(s, 0);
    assert s[..0] + "-" + s[0..] == "-" + s;
    HyphenInsertion("-" + s, 4);
    assert ("-" + s)[..4] + "-" + ("-" + s)[4..] == "-" + s[..4] + "-" + s[4..];
  }

  lemma HyphenatedSeedIsbnAccepted()
    ensures IsIsbn("-978--0138203283")
  {
    var a := "978-0138203283";
    assert a[..4] == "978-" && a[4..] == "0138203283";
    assert "-" + a[..4] + "-" + a[4..] == "-978--0138203283";
    LeadingAndDoubledHyphenAccepted(a);
  }
}
