/**
 * The check-digit rules of ISO 2108 as both ISBN components of the catalog
 * apply them: characters, the separator stripping done by `replace(/[-\s]/g, '')`,
 * the weighted sums, and the ISBN-10 and ISBN-13 acceptance rules.
 */
module Isbn {

  predicate IsDigit(c: char) {
    '0' <= c <= '9'
  }

  /** The value `parseInt` gives a single decimal digit. */
  function DigitValue(c: char): (v: int)
    ensures IsDigit(c) ==> 0 <= v <= 9
  {
    c as int - '0' as int
  }

  function DigitChar(d: int): (c: char)
    requires 0 <= d <= 9
    ensures IsDigit(c) && DigitValue(c) == d
  {
    ('0' as int + d) as char
  }

  predicate AllDigits(s: string) {
    forall i :: 0 <= i < |s| ==> IsDigit(s[i])
  }

  /** The characters JavaScript's `\s` class matches: white space and line terminators. */
  predicate IsJsWhitespace(c: char) {
    var n := c as int;
    n == 0x09 || n == 0x0A || n == 0x0B || n == 0x0C || n == 0x0D || n == 0x20 ||
    n == 0xA0 || n == 0x1680 || (0x2000 <= n <= 0x200A) || n == 0x2028 || n == 0x2029 ||
    n == 0x202F || n == 0x205F || n == 0x3000 || n == 0xFEFF
  }

  /** The characters the pattern `[-\s]` matches. */
  predicate IsSeparator(c: char) {
    c == '-' || IsJsWhitespace(c)
  }

  /** `s.replace(/[-\s]/g, '')`: every separator deleted, everything else kept in order. */
  function Strip(s: string): (r: string)
    ensures |r| <= |s|
    ensures forall i :: 0 <= i < |r| ==> !IsSeparator(r[i])
    ensures (forall i :: 0 <= i < |s| ==> !IsSeparator(s[i])) ==> r == s
  {
    if s == [] then []
    else if IsSeparator(s[0]) then Strip(s[1..])
    else [s[0]] + Strip(s[1..])
  }

  lemma {:induction false} StripAppend(a: string, b: string)
    ensures Strip(a + b) == Strip(a) + Strip(b)
  {
    if a == [] {
      assert a + b == b;
    } else {
      assert (a + b)[0] == a[0];
      assert (a + b)[1..] == a[1..] + b;
      StripAppend(a[1..], b);
    }
  }

  lemma DigitsAreNotSeparators(s: string)
    requires AllDigits(s)
    ensures Strip(s) == s
  {
  }

  /** Sum over i < n of d_i * (10 - i): the ISBN-10 weighted sum of a prefix. */
  function Sum10(s: string, n: nat): int
    requires n <= |s|
  {
    if n == 0 then 0 else Sum10(s, n - 1) + DigitValue(s[n - 1]) * (10 - (n - 1))
  }

  /** The ISBN-13 weights: 1 at even positions, 3 at odd ones. */
  function Weight13(i: nat): int {
    if i % 2 == 0 then 1 else 3
  }

  /** Sum over i < n of d_i * w_i with w alternating 1, 3: the ISBN-13 weighted sum of a prefix. */
  function Sum13(s: string, n: nat): int
    requires n <= |s|
  {
    if n == 0 then 0 else Sum13(s, n - 1) + DigitValue(s[n - 1]) * Weight13(n - 1)
  }

  /** The value of an ISBN-10 check character: `X` is 10, a digit its value. */
  function CheckValue10(c: char): int {
    if c == 'X' then 10 else DigitValue(c)
  }

  /** The pattern `^\d{9}[\dX]$`. */
  predicate Isbn10Shape(s: string) {
    |s| == 10 && AllDigits(s[..9]) && (IsDigit(s[9]) || s[9] == 'X')
  }

  /** An ISBN-10 without separators: the shape, and the full weighted sum divisible by 11. */
  predicate Isbn10Rule(s: string) {
    Isbn10Shape(s) && (Sum10(s, 9) + CheckValue10(s[9])) % 11 == 0
  }

  /** `(10 - (sum % 10)) % 10` over the first twelve characters. */
  function Isbn13CheckDigit(s: string): (d: int)
    requires 12 <= |s|
    ensures 0 <= d <= 9
    ensures (Sum13(s, 12) + d) % 10 == 0
  {
    (10 - Sum13(s, 12) % 10) % 10
  }

  /** An ISBN-13 without separators: thirteen digits, the last equal to the check digit of the others. */
  predicate Isbn13Rule(s: string) {
    |s| == 13 && AllDigits(s) && DigitValue(s[12]) == Isbn13CheckDigit(s)
  }

  /** A string is a valid ISBN when, with its separators removed, it meets the ISBN-10 or the ISBN-13 rule. */
  predicate ValidIsbn(s: string) {
    Isbn10Rule(Strip(s)) || Isbn13Rule(Strip(s))
  }

  /** Inserting a hyphen or a white-space character anywhere never changes the verdict. */
  lemma ValidIsbnIgnoresSeparator(a: string, c: char, b: string)
    requires IsSeparator(c)
    ensures ValidIsbn(a + [c] + b) == ValidIsbn(a + b)
  {
    assert [c][1..] == [];
    assert Strip([c]) == [];
    StripAppend(a + [c], b);
    StripAppend(a, [c]);
    StripAppend(a, b);
    assert Strip(a + [c]) == Strip(a);
  }

  /** Only a string of ten or thirteen characters after stripping can be valid. */
  lemma ValidIsbnLength(s: string)
    requires ValidIsbn(s)
    ensures |Strip(s)| == 10 || |Strip(s)| == 13
  {
  }

  /** A lower-case `x` anywhere, or an upper-case `X` before the last position, fails the ISBN-10 rule. */
  lemma Isbn10RuleRejectsStrayX(s: string, i: nat)
    requires i < |s| && (s[i] == 'x' || (s[i] == 'X' && i != 9))
    ensures !Isbn10Rule(s)
  {
    if |s| == 10 && i < 9 {
      assert s[..9][i] == s[i];
    }
  }

  lemma {:induction false} Sum10Agrees(s: string, t: string, n: nat)
    requires n <= |s| && n <= |t|
    requires forall j :: 0 <= j < n ==> s[j] == t[j]
    ensures Sum10(s, n) == Sum10(t, n)
  {
    if n > 0 {
      Sum10Agrees(s, t, n - 1);
    }
  }

  lemma {:induction false} Sum13Agrees(s: string, t: string, n: nat)
    requires n <= |s| && n <= |t|
    requires forall j :: 0 <= j < n ==> s[j] == t[j]
    ensures Sum13(s, n) == Sum13(t, n)
  {
    if n > 0 {
      Sum13Agrees(s, t, n - 1);
    }
  }

  /** Two strings that differ at position i alone have ISBN-10 sums that differ by the change times weight 10 - i. */
  lemma {:induction false} Sum10Differ(s: string, t: string, i: nat, n: nat)
    requires |s| == |t| && n <= |s| && i < |s|
    requires forall j :: 0 <= j < |s| && j != i ==> s[j] == t[j]
    ensures Sum10(s, n) - Sum10(t, n) == if i < n then (DigitValue(s[i]) - DigitValue(t[i])) * (10 - i) else 0
  {
    if n > 0 {
      Sum10Differ(s, t, i, n - 1);
    }
  }

  lemma {:induction false} Sum13Differ(s: string, t: string, i: nat, n: nat)
    requires |s| == |t| && n <= |s| && i < |s|
    requires forall j :: 0 <= j < |s| && j != i ==> s[j] == t[j]
    ensures Sum13(s, n) - Sum13(t, n) == if i < n then (DigitValue(s[i]) - DigitValue(t[i])) * Weight13(i) else 0
  {
    if n > 0 {
      Sum13Differ(s, t, i, n - 1);
    }
  }

  /** 11 is prime: no product of two factors between 1 and 10 in magnitude is a multiple of it. */
  lemma NoMultipleOfEleven(d: int, w: int)
    requires -10 <= d <= 10 && d != 0 && 1 <= w <= 10
    ensures (d * w) % 11 != 0
  {
    if w == 1 {
    } else if w == 2 {
    } else if w == 3 {
    } else if w == 4 {
    } else if w == 5 {
    } else if w == 6 {
    } else if w == 7 {
    } else if w == 8 {
    } else if w == 9 {
    } else {
    }
  }

  /** The weights 1 and 3 are coprime to 10, so a one-digit change always moves the sum modulo 10. */
  lemma NoMultipleOfTen(d: int, w: int)
    requires -9 <= d <= 9 && d != 0 && (w == 1 || w == 3)
    ensures (d * w) % 10 != 0
  {
    if w == 1 {
    } else {
    }
  }


  lemma ModDifference10(a: int, b: int)
    requires a % 10 == 0 && b % 10 == 0
    ensures (a - b) % 10 == 0
  {
  }

  lemma ModDifference11(a: int, b: int)
    requires a % 11 == 0 && b % 11 == 0
    ensures (a - b) % 11 == 0
  {
  }

  /** Changing one character of a valid ISBN-10 always makes it invalid. */
  lemma Isbn10DetectsSingleChange(s: string, t: string, i: nat)
    requires Isbn10Rule(s)
    requires |t| == |s| && i < |s| && t[i] != s[i]
    requires forall j :: 0 <= j < |s| && j != i ==> t[j] == s[j]
    ensures !Isbn10Rule(t)
  {
    if Isbn10Rule(t) {
      Sum10Differ(s, t, i, 9);
      var a := Sum10(s, 9) + CheckValue10(s[9]);
      var b := Sum10(t, 9) + CheckValue10(t[9]);
      ModDifference11(a, b);
      if i < 9 {
        assert s[..9][i] == s[i] && t[..9][i] == t[i];
        var d := DigitValue(s[i]) - DigitValue(t[i]);
        assert a - b == d * (10 - i);
        NoMultipleOfEleven(d, 10 - i);
      } else {
        var d := CheckValue10(s[9]) - CheckValue10(t[9]);
        assert a - b == d * 1;
        NoMultipleOfEleven(d, 1);
      }
    }
  }

  /** Changing one character of a valid ISBN-13 always makes it invalid. */
  lemma Isbn13DetectsSingleChange(s: string, t: string, i: nat)
    requires Isbn13Rule(s)
    requires |t| == |s| && i < |s| && t[i] != s[i]
    requires forall j :: 0 <= j < |s| && j != i ==> t[j] == s[j]
    ensures !Isbn13Rule(t)
  {
    Sum13Differ(s, t, i, 12);
    if i < 12 && |t| == 13 && AllDigits(t) && Isbn13CheckDigit(t) == Isbn13CheckDigit(s) {
      var d := DigitValue(s[i]) - DigitValue(t[i]);
      var a := Sum13(s, 12) + Isbn13CheckDigit(s);
      var b := Sum13(t, 12) + Isbn13CheckDigit(t);
      ModDifference10(a, b);
      assert a - b == d * Weight13(i);
      NoMultipleOfTen(d, Weight13(i));
    }
  }

  /** For a twelve-digit body, exactly one final digit completes it to a valid ISBN-13. */
  lemma Isbn13CheckDigitUnique(body: string, c: char)
    requires |body| == 12 && AllDigits(body) && IsDigit(c)
    ensures Isbn13Rule(body + [c]) <==> DigitValue(c) == Isbn13CheckDigit(body)
  {
    Sum13Agrees(body + [c], body, 12);
  }

  lemma DigitStringValidity(s: string)
    requires AllDigits(s)
    ensures ValidIsbn(s) <==> Isbn10Rule(s) || Isbn13Rule(s)
  {
    DigitsAreNotSeparators(s);
  }

  lemma Example13Rule()
    ensures AllDigits("9780306406157") && Isbn13Rule("9780306406157")
  {
    var v := "9780306406157";
    assert v[0] == '9' && v[1] == '7' && v[2] == '8' && v[3] == '0' && v[4] == '3' && v[5] == '0';
    assert v[6] == '6' && v[7] == '4' && v[8] == '0' && v[9] == '6' && v[10] == '1' && v[11] == '5';
    assert v[12] == '7';
    assert Sum13(v, 4) == 38;
    assert Sum13(v, 8) == 59;
    assert Sum13(v, 12) == 93;
  }

  /** The published example 978-0-306-40615-7 (written without hyphens) is valid. */
  lemma KnownIsbn13()
    ensures ValidIsbn("9780306406157")
  {
    Example13Rule();
    DigitStringValidity("9780306406157");
  }

  lemma Example10Rule()
    ensures AllDigits("0306406152") && Isbn10Rule("0306406152")
  {
    var v := "0306406152";
    assert v[0] == '0' && v[1] == '3' && v[2] == '0' && v[3] == '6' && v[4] == '4';
    assert v[5] == '0' && v[6] == '6' && v[7] == '1' && v[8] == '5' && v[9] == '2';
    assert Sum10(v, 3) == 27;
    assert Sum10(v, 6) == 93;
    assert Sum10(v, 9) == 130;
  }

  /** The published example 0-306-40615-2 (written without hyphens) is valid; with its last digit changed it is not. */
  lemma KnownIsbn10()
    ensures ValidIsbn("0306406152")
    ensures !ValidIsbn("0306406153")
  {
    var v, w := "0306406152", "0306406153";
    Example10Rule();
    assert AllDigits(w) && |w| == 10 && w[9] == '3' && v[9] == '2';
    assert forall j :: 0 <= j < 9 ==> w[j] == v[j];
    Isbn10DetectsSingleChange(v, w, 9);
    DigitStringValidity(v);
    DigitStringValidity(w);
  }
}
