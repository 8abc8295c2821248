/**
 * `IsISBNConstraint`, the class-validator constraint behind the `@IsISBN()`
 * decorator: a non-string value is rejected, a string is stripped of hyphens
 * and whitespace and accepted when it passes the ISBN-10 or the ISBN-13 rule.
 */
module IsbnValidator {
  import opened Isbn

  /** The value handed to the constraint: a string, or anything else. */
  datatype Value = Str(s: string) | NonString

  const DefaultMessage: string := "isbn must be a valid ISBN-10 or ISBN-13 format"

  /** `isValidISBN10` with its own checksum loop. */
  method IsValidIsbn10(isbn: string) returns (ok: bool)
    ensures ok == Isbn10Rule(isbn)
  {
    if |isbn| != 10 {
      return false;
    }
    if !(AllDigits(isbn[..9]) && (IsDigit(isbn[9]) || isbn[9] == 'X')) {
      return false;
    }
    var sum := 0;
    var i := 0;
    while i < 9
      invariant 0 <= i <= 9
      invariant sum == Sum10(isbn, i)
    {
      sum := sum + DigitValue(isbn[i]) * (10 - i);
      i := i + 1;
    }
    var checkDigit := if isbn[9] == 'X' then 10 else DigitValue(isbn[9]);
    ok := (sum + checkDigit) % 11 == 0;
  }

  /** `isValidISBN13` with its own checksum loop. */
  method IsValidIsbn13(isbn: string) returns (ok: bool)
    ensures ok == Isbn13Rule(isbn)
  {
    if |isbn| != 13 {
      return false;
    }
    if !AllDigits(isbn) {
      return false;
    }
    var sum := 0;
    var i := 0;
    while i < 12
      invariant 0 <= i <= 12
      invariant sum == Sum13(isbn, i)
    {
      var digit := DigitValue(isbn[i]);
      sum := sum + digit * (if i % 2 == 0 then 1 else 3);
      i := i + 1;
    }
    var checkDigit := (10 - sum % 10) % 10;
    ok := checkDigit == DigitValue(isbn[12]);
  }

  /**
   * `validate`: false for a non-string; otherwise the stripped value must pass
   * one of the two rules. Accepts exactly the strings `IsbnGeneratorUtil.isValid`
   * accepts, since both are characterised by `ValidIsbn`.
   */
  method Validate(value: Value) returns (ok: bool)
    ensures value.NonString? ==> !ok
    ensures value.Str? ==> (ok <==> ValidIsbn(value.s))
    ensures ok ==> |Strip(value.s)| == 10 || |Strip(value.s)| == 13
  {
    match value {
      case NonString =>
        ok := false;
      case Str(s) =>
        var cleanIsbn := Strip(s);
        var ok10 := IsValidIsbn10(cleanIsbn);
        if ok10 {
          ok := true;
        } else {
          ok := IsValidIsbn13(cleanIsbn);
        }
    }
  }
}
