/**
 * The ISBN gate of `CreateBookDto` and `UpdateBookDto`: the pattern
 * `^(\d{13}|\d{3}-\d{1}-\d{2}-\d{5}-\d{1}|\d{3}-\d{10})$`. It checks the
 * shape only, never the check digit, and the `@IsISBN()` constraint is not
 * applied to either DTO.
 */
module BookDto {
  import opened Isbn
  import IsbnGenerator

  /** The three alternatives of the pattern: 13 digits, 3-1-2-5-1 digits, 3-10 digits. */
  predicate IsbnPattern(s: string) {
    (|s| == 13 && AllDigits(s)) ||
    (|s| == 16 && AllDigits(s[..3]) && s[3] == '-' && IsDigit(s[4]) && s[5] == '-' &&
     AllDigits(s[6..8]) && s[8] == '-' && AllDigits(s[9..14]) && s[14] == '-' && IsDigit(s[15])) ||
    (|s| == 14 && AllDigits(s[..3]) && s[3] == '-' && AllDigits(s[4..]))
  }

  /** Digit groups joined by hyphens strip back to the digits. */
  lemma StripGroups(a: string, b: string, c: string, d: string, e: string)
    requires AllDigits(a) && AllDigits(b) && AllDigits(c) && AllDigits(d) && AllDigits(e)
    ensures Strip(a + "-" + b + "-" + c + "-" + d + "-" + e) == a + b + c + d + e
    ensures Strip(a + "-" + b) == a + b
    ensures AllDigits(a + b + c + d + e) && AllDigits(a + b)
  {
    assert IsbnGenerator.NoSeparators(a) && IsbnGenerator.NoSeparators(b) && IsbnGenerator.NoSeparators(c);
    assert IsbnGenerator.NoSeparators(d) && IsbnGenerator.NoSeparators(e);
    IsbnGenerator.StripJoin5(a, b, c, d, e);
    IsbnGenerator.StripHyphenJoin(a, b);
    DigitsAreNotSeparators(a);
    DigitsAreNotSeparators(b);
    DigitsJoin(a, b);
    DigitsJoin(a + b, c);
    DigitsJoin(a + b + c, d);
    DigitsJoin(a + b + c + d, e);
  }

  lemma DigitsJoin(x: string, y: string)
    requires AllDigits(x) && AllDigits(y)
    ensures AllDigits(x + y)
  {
    assert forall i :: 0 <= i < |x + y| ==> (x + y)[i] == if i < |x| then x[i] else y[i - |x|];
  }

  /**
   * Whatever the pattern admits strips to twelve or thirteen digits, so it
   * never admits an ISBN-10, and its twelve-digit form never passes `isValid`.
   */
  lemma PatternStripsToDigits(s: string)
    requires IsbnPattern(s)
    ensures AllDigits(Strip(s)) && (|Strip(s)| == 13 || |Strip(s)| == 12)
    ensures !Isbn10Rule(Strip(s))
    ensures |Strip(s)| == 12 ==> !ValidIsbn(s)
  {
    if |s| == 13 {
      DigitsAreNotSeparators(s);
    } else if |s| == 16 {
      var a, b, c, d, e := s[..3], s[4..5], s[6..8], s[9..14], s[15..];
      assert s == a + "-" + b + "-" + c + "-" + d + "-" + e;
      StripGroups(a, b, c, d, e);
    } else {
      var a, b := s[..3], s[4..];
      assert s == a + "-" + b;
      StripGroups(a, b, [], [], []);
    }
  }

  /**
   * Every 3-1-2-5-1 grouping of digits, 978-0-12-34567-8 for one, matches the
   * pattern and is never a valid ISBN: it strips to twelve digits.
   */
  lemma HyphenatedFormTooShort(a: string, b: string, c: string, d: string, e: string)
    requires |a| == 3 && |b| == 1 && |c| == 2 && |d| == 5 && |e| == 1
    requires AllDigits(a) && AllDigits(b) && AllDigits(c) && AllDigits(d) && AllDigits(e)
    ensures IsbnPattern(a + "-" + b + "-" + c + "-" + d + "-" + e)
    ensures !ValidIsbn(a + "-" + b + "-" + c + "-" + d + "-" + e)
  {
    var s := a + "-" + b + "-" + c + "-" + d + "-" + e;
    assert s[..3] == a && s[4..5] == b && s[6..8] == c && s[9..14] == d && s[15..] == e;
    assert IsbnPattern(s);
    StripGroups(a, b, c, d, e);
  }

  /** The pattern with its hyphenated alternative widened to 3-1-2-6-1 digits, thirteen in all. */
  predicate IsbnPatternCorrected(s: string) {
    (|s| == 13 && AllDigits(s)) ||
    (|s| == 17 && AllDigits(s[..3]) && s[3] == '-' && IsDigit(s[4]) && s[5] == '-' &&
     AllDigits(s[6..8]) && s[8] == '-' && AllDigits(s[9..15]) && s[15] == '-' && IsDigit(s[16])) ||
    (|s| == 14 && AllDigits(s[..3]) && s[3] == '-' && AllDigits(s[4..]))
  }

  /** Everything the corrected pattern admits strips to exactly thirteen digits, the ISBN-13 shape. */
  lemma CorrectedPatternStripsToThirteenDigits(s: string)
    requires IsbnPatternCorrected(s)
    ensures AllDigits(Strip(s)) && |Strip(s)| == 13
  {
    if |s| == 13 {
      DigitsAreNotSeparators(s);
    } else if |s| == 17 {
      var a, b, c, d, e := s[..3], s[4..5], s[6..8], s[9..15], s[16..];
      assert s == a + "-" + b + "-" + c + "-" + d + "-" + e;
      StripGroups(a, b, c, d, e);
    } else {
      var a, b := s[..3], s[4..];
      assert s == a + "-" + b;
      StripGroups(a, b, [], [], []);
    }
  }

  /** Under the corrected pattern a string is a valid ISBN exactly when its digits meet the ISBN-13 rule. */
  lemma CorrectedPatternValidity(s: string)
    requires IsbnPatternCorrected(s)
    ensures ValidIsbn(s) <==> Isbn13Rule(Strip(s))
  {
    CorrectedPatternStripsToThirteenDigits(s);
  }

  /** The 3-1-4-4-1 rendering the generator produces is seventeen characters long and fails the pattern. */
  lemma PatternRejectsGeneratedRendering(v: string)
    requires |v| == 13
    ensures !IsbnPattern(IsbnGenerator.Hyphenate13(v))
  {
  }
}
