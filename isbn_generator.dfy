/**
 * `IsbnGeneratorUtil`: validation dispatch by length, the checksum loops, the
 * hyphenated renderings, and the ISBN-10 / ISBN-13 generators with their random
 * numbers passed in as parameters.
 *
 * The generators are modelled twice: as written (their defects exposed by the
 * contracts) and in the corrected form that the format comments describe.
 */
module IsbnGenerator {
  import opened Isbn
  import opened Wrappers

  /** `'Invalid ISBN structure'` is thrown; NotANumber stands for the NaN check value. */
  datatype Error = InvalidStructure | NotANumber

  datatype Result<T> = Ok(value: T) | Err(error: Error)

  predicate NoSeparators(s: string) {
    forall i :: 0 <= i < |s| ==> !IsSeparator(s[i])
  }

  predicate Distinct(xs: seq<string>) {
    forall i, j :: 0 <= i < j < |xs| ==> xs[i] != xs[j]
  }

  // ---------------------------------------------------------------- numbers

  function Pow10(k: nat): nat {
    if k == 0 then 1 else 10 * Pow10(k - 1)
  }

  lemma Pow10Values()
    ensures Pow10(0) == 1 && Pow10(1) == 10 && Pow10(2) == 100
    ensures Pow10(3) == 1000 && Pow10(4) == 10000 && Pow10(5) == 100000
  {
    assert Pow10(1) == 10 * Pow10(0);
    assert Pow10(2) == 10 * Pow10(1);
    assert Pow10(3) == 10 * Pow10(2);
    assert Pow10(4) == 10 * Pow10(3);
    assert Pow10(5) == 10 * Pow10(4);
  }

  /** `n.toString()` for a non-negative integer. */
  function NatToString(n: nat): (r: string)
    ensures |r| >= 1 && AllDigits(r)
  {
    if n < 10 then [DigitChar(n)] else NatToString(n / 10) + [DigitChar(n % 10)]
  }

  /** A number with k decimal digits renders as k characters. */
  lemma {:induction false} NatToStringLength(n: nat, k: nat)
    requires 1 <= k && Pow10(k - 1) <= n < Pow10(k)
    ensures |NatToString(n)| == k
  {
    if k > 1 {
      assert Pow10(k) == 10 * Pow10(k - 1);
      assert Pow10(k - 1) == 10 * Pow10(k - 2);
      NatToStringLength(n / 10, k - 1);
    }
  }

  // ------------------------------------------------------ checksum loops

  /** The loop `for (i = 0; i < 9; i++) sum += parseInt(isbn[i]) * (10 - i)`. */
  method WeightedSum10(s: string) returns (sum: int)
    requires |s| >= 9
    ensures sum == Sum10(s, 9)
  {
    sum := 0;
    for i := 0 to 9
      invariant sum == Sum10(s, i)
    {
      sum := sum + DigitValue(s[i]) * (10 - i);
    }
  }

  /** The loop `for (i = 0; i < 12; i++) sum += digit * (i % 2 === 0 ? 1 : 3)`. */
  method WeightedSum13(s: string) returns (sum: int)
    requires |s| >= 12
    ensures sum == Sum13(s, 12)
  {
    sum := 0;
    for i := 0 to 12
      invariant sum == Sum13(s, i)
    {
      sum := sum + DigitValue(s[i]) * (if i % 2 == 0 then 1 else 3);
    }
  }

  // ------------------------------------------------------------ validation

  /** `isValidISBN10`: length 10, the pattern `^\d{9}[\dX]$`, then the mod-11 test. */
  method IsValidIsbn10(isbn: string) returns (ok: bool)
    ensures ok == Isbn10Rule(isbn)
  {
    if |isbn| != 10 {
      return false;
    }
    if !Isbn10Shape(isbn) {
      return false;
    }
    var sum := WeightedSum10(isbn);
    var checkDigit := if isbn[9] == 'X' then 10 else DigitValue(isbn[9]);
    ok := (sum + checkDigit) % 11 == 0;
  }

  /** `isValidISBN13`: length 13, thirteen digits, then the mod-10 test. */
  method IsValidIsbn13(isbn: string) returns (ok: bool)
    ensures ok == Isbn13Rule(isbn)
  {
    if |isbn| != 13 {
      return false;
    }
    if !AllDigits(isbn) {
      return false;
    }
    var sum := WeightedSum13(isbn);
    var checkDigit := (10 - sum % 10) % 10;
    ok := checkDigit == DigitValue(isbn[12]);
  }

  /** `isValid`: strip separators, then choose the rule by the stripped length. */
  method IsValid(isbn: string) returns (ok: bool)
    ensures ok == ValidIsbn(isbn)
    ensures |Strip(isbn)| != 10 && |Strip(isbn)| != 13 ==> !ok
  {
    var cleanIsbn := Strip(isbn);
    if |cleanIsbn| == 10 {
      ok := IsValidIsbn10(cleanIsbn);
    } else if |cleanIsbn| == 13 {
      ok := IsValidIsbn13(cleanIsbn);
    } else {
      ok := false;
    }
  }

  // ------------------------------------------------------------- rendering

  lemma StripHyphenJoin(x: string, y: string)
    ensures Strip(x + "-" + y) == Strip(x) + Strip(y)
  {
    assert "-"[1..] == [];
    assert Strip("-") == [];
    StripAppend(x + "-", y);
    StripAppend(x, "-");
  }

  /** The rendering prefix-group-publisher-title-check: 3-1-4-4-1 characters. */
  function Hyphenate13(v: string): string
    requires |v| == 13
  {
    v[..3] + "-" + v[3..4] + "-" + v[4..8] + "-" + v[8..12] + "-" + v[12..]
  }

  /** Four separator-free parts joined by hyphens strip to the parts run together. */
  lemma StripJoin4(a: string, b: string, c: string, d: string)
    requires NoSeparators(a) && NoSeparators(b) && NoSeparators(c) && NoSeparators(d)
    ensures Strip(a + "-" + b + "-" + c + "-" + d) == a + b + c + d
  {
    StripHyphenJoin(a, b);
    StripHyphenJoin(a + "-" + b, c);
    StripHyphenJoin(a + "-" + b + "-" + c, d);
  }

  /** Five separator-free parts joined by hyphens strip to the parts run together. */
  lemma StripJoin5(a: string, b: string, c: string, d: string, e: string)
    requires NoSeparators(a) && NoSeparators(b) && NoSeparators(c) && NoSeparators(d) && NoSeparators(e)
    ensures Strip(a + "-" + b + "-" + c + "-" + d + "-" + e) == a + b + c + d + e
  {
    StripJoin4(a, b, c, d);
    StripHyphenJoin(a + "-" + b + "-" + c + "-" + d, e);
  }

  /** The five slices of the ISBN-13 rendering put back together. */
  lemma Slices13(v: string)
    requires |v| == 13
    ensures v[..3] + v[3..4] + v[4..8] + v[8..12] + v[12..] == v
  {
    assert v[..12] == v[..3] + v[3..4] + v[4..8] + v[8..12];
  }

  lemma StripHyphenate13(v: string)
    requires |v| == 13 && NoSeparators(v)
    ensures Strip(Hyphenate13(v)) == v
  {
    Slices13(v);
    StripJoin5(v[..3], v[3..4], v[4..8], v[8..12], v[12..]);
  }

  /** The `generateValidISBN10` rendering: `substring(0, 1)`, `(1, 4)`, `(4, 8)`, then the rest, joined by hyphens. */
  function Hyphenate10(v: string): string
    requires |v| >= 8
  {
    v[..1] + "-" + v[1..4] + "-" + v[4..8] + "-" + v[8..]
  }

  /** The four slices of the ISBN-10 rendering put back together. */
  lemma Slices10(v: string)
    requires |v| >= 8
    ensures v[..1] + v[1..4] + v[4..8] + v[8..] == v
  {
    assert v[..8] == v[..1] + v[1..4] + v[4..8];
  }

  lemma StripHyphenate10(v: string)
    requires |v| >= 8 && NoSeparators(v)
    ensures Strip(Hyphenate10(v)) == v
  {
    Slices10(v);
    StripJoin4(v[..1], v[1..4], v[4..8], v[8..]);
  }

  // ---------------------------------------------------------------- ISBN-13

  /** A twelve-digit body completed by its check digit, rendered with hyphens. */
  function Isbn13Of(body: string): string
    requires |body| == 12
  {
    Hyphenate13(body + [DigitChar(Isbn13CheckDigit(body))])
  }

  /** Completing a twelve-digit body gives a valid ISBN whose hyphens strip back to body + check digit. */
  lemma Isbn13OfRoundTrip(body: string)
    requires |body| == 12 && AllDigits(body)
    ensures Strip(Isbn13Of(body)) == body + [DigitChar(Isbn13CheckDigit(body))]
    ensures ValidIsbn(Isbn13Of(body))
  {
    var full := body + [DigitChar(Isbn13CheckDigit(body))];
    assert AllDigits(full);
    StripHyphenate13(full);
    Sum13Agrees(full, body, 12);
    assert Isbn13Rule(full);
  }

  /** The tail of `generateValidISBN13` applied to a supplied body: the `length !== 12` guard, the checksum, the rendering. */
  method CompleteIsbn13(body: string) returns (r: Result<string>)
    requires AllDigits(body)
    ensures |body| != 12 ==> r == Err(InvalidStructure)
    ensures |body| == 12 ==> r == Ok(Isbn13Of(body)) && ValidIsbn(r.value)
    ensures |body| == 12 ==> Strip(r.value) == body + [DigitChar(Isbn13CheckDigit(body))]
  {
    if |body| != 12 {
      return Err(InvalidStructure);
    }
    var sum := WeightedSum13(body);
    var checkDigit := (10 - sum % 10) % 10;
    assert checkDigit == Isbn13CheckDigit(body);
    var validIsbn := body + [DigitChar(checkDigit)];
    Isbn13OfRoundTrip(body);
    r := Ok(Hyphenate13(validIsbn));
  }

  /** `groupIdentifier || generateRandomNumber(0, 9)`: an absent or zero identifier falls back to the random digit. */
  function ChooseGroup(groupIdentifier: Option<nat>, randomGroup: nat): nat {
    match groupIdentifier
    case Some(g) => if g != 0 then g else randomGroup
    case None => randomGroup
  }

  /** `isbnWithoutCheck = prefix + group + publisher + title` of `generateValidISBN13`. */
  function Isbn13Body(group: nat, publisher: nat, title: nat): (r: string)
    ensures AllDigits(r)
  {
    "978" + NatToString(group) + NatToString(publisher) + NatToString(title)
  }

  /** With a four-digit publisher the body has 3 + |group| + 4 + |title| characters. */
  lemma Isbn13BodyLength(group: nat, publisher: nat, title: nat)
    requires 1000 <= publisher <= 9999 && 1000 <= title <= 99999
    ensures |Isbn13Body(group, publisher, title)| >= 12
    ensures title >= 10000 ==> |Isbn13Body(group, publisher, title)| >= 13
    ensures group <= 9 && title <= 9999 ==> |Isbn13Body(group, publisher, title)| == 12
  {
    Pow10Values();
    NatToStringLength(publisher, 4);
    if title >= 10000 {
      NatToStringLength(title, 5);
    } else {
      NatToStringLength(title, 4);
    }
    if group <= 9 {
      assert |NatToString(group)| == 1;
    }
  }

  /**
   * `generateValidISBN13` as written: a five-digit title (10000-99999) makes the
   * body at least thirteen characters long, so the `isbnWithoutCheck.length !== 12` guard always throws.
   */
  method GenerateValidIsbn13(groupIdentifier: Option<nat>, randomGroup: nat, publisher: nat, title: nat)
    returns (r: Result<string>)
    requires randomGroup <= 9
    requires 1000 <= publisher <= 9999 && 10000 <= title <= 99999
    ensures r == Err(InvalidStructure)
  {
    var group := ChooseGroup(groupIdentifier, randomGroup);
    var isbnWithoutCheck := Isbn13Body(group, publisher, title);
    Isbn13BodyLength(group, publisher, title);
    r := CompleteIsbn13(isbnWithoutCheck);
  }

  /**
   * The generator with the four-digit title (1000-9999) that the title slot
   * `substring(8, 12)` of the rendering and the 12-digit guard expect, and a one-digit group.
   */
  method GenerateIsbn13Corrected(groupIdentifier: Option<nat>, randomGroup: nat, publisher: nat, title: nat)
    returns (r: Result<string>)
    requires randomGroup <= 9 && (groupIdentifier.Some? ==> groupIdentifier.value <= 9)
    requires 1000 <= publisher <= 9999 && 1000 <= title <= 9999
    ensures r.Ok? && ValidIsbn(r.value)
    ensures r.value == DrawnIsbn13(Draw(ChooseGroup(groupIdentifier, randomGroup), publisher, title))
  {
    var group := ChooseGroup(groupIdentifier, randomGroup);
    var isbnWithoutCheck := Isbn13Body(group, publisher, title);
    Isbn13BodyLength(group, publisher, title);
    r := CompleteIsbn13(isbnWithoutCheck);
  }

  /** The random numbers one call of the ISBN-13 generator draws (group, publisher, title). */
  datatype Draw = Draw(group: nat, publisher: nat, title: nat)

  predicate AsWrittenDraw(d: Draw) {
    d.group <= 9 && 1000 <= d.publisher <= 9999 && 10000 <= d.title <= 99999
  }

  predicate CorrectedDraw(d: Draw) {
    d.group <= 9 && 1000 <= d.publisher <= 9999 && 1000 <= d.title <= 9999
  }

  /** The ISBN the corrected generator produces from one draw. */
  function DrawnIsbn13(d: Draw): string
    requires CorrectedDraw(d)
  {
    Isbn13BodyLength(d.group, d.publisher, d.title);
    Isbn13Of(Isbn13Body(d.group, d.publisher, d.title))
  }

  /**
   * `generateMultipleISBN13` as written: a `Set` filled by `count` calls of the
   * generator; the first call throws, so any positive count throws.
   */
  method GenerateMultipleIsbn13(count: int, draws: seq<Draw>) returns (r: Result<seq<string>>)
    requires count <= |draws|
    requires forall i :: 0 <= i < |draws| ==> AsWrittenDraw(draws[i])
    ensures count <= 0 ==> r == Ok([])
    ensures count >= 1 ==> r == Err(InvalidStructure)
  {
    var isbns: seq<string> := [];
    var failure: Option<Error> := None;
    var i := 0;
    while i < count && failure.None?
      invariant 0 <= i && (count <= 0 ==> i == 0)
      invariant i == 0 ==> isbns == [] && failure.None?
      invariant i > 0 ==> failure == Some(InvalidStructure)
    {
      var generated := GenerateValidIsbn13(None, draws[i].group, draws[i].publisher, draws[i].title);
      match generated {
        case Err(e) => failure := Some(e);
        case Ok(s) => if s !in isbns { isbns := isbns + [s]; }
      }
      i := i + 1;
    }
    match failure {
      case Some(e) => r := Err(e);
      case None => r := Ok(isbns);
    }
  }

  /**
   * `Array.from(new Set(xs))`: each value once, in the order of its first
   * appearance in `xs`.
   */
  function Dedup(xs: seq<string>): (r: seq<string>)
    ensures |r| <= |xs|
  {
    if xs == [] then [] else
      var d := Dedup(xs[..|xs| - 1]);
      if xs[|xs| - 1] in d then d else d + [xs[|xs| - 1]]
  }

  /** The deduplication holds each value of `xs` exactly once. */
  lemma {:induction false} DedupElements(xs: seq<string>)
    ensures Distinct(Dedup(xs))
    ensures forall x :: x in Dedup(xs) <==> x in xs
  {
    if xs != [] {
      var init := xs[..|xs| - 1];
      DedupElements(init);
      assert xs == init + [xs[|xs| - 1]];
    }
  }

  /** A sequence without repetitions is its own deduplication. */
  lemma {:induction false} DedupOfDistinct(xs: seq<string>)
    requires Distinct(xs)
    ensures Dedup(xs) == xs
  {
    if xs != [] {
      var init := xs[..|xs| - 1];
      DedupOfDistinct(init);
      assert xs[|xs| - 1] !in init;
      assert xs == init + [xs[|xs| - 1]];
    }
  }

  /**
   * Deduplication keeps the order of first appearance: for i < j, the value at
   * j first appears in `xs` at some q, and the value at i appears before q.
   */
  lemma {:induction false} DedupKeepsFirstOrder(xs: seq<string>, i: int, j: int)
    requires 0 <= i < j < |Dedup(xs)|
    ensures exists p, q ::
      (0 <= p < q < |xs| && xs[p] == Dedup(xs)[i] && xs[q] == Dedup(xs)[j] && Dedup(xs)[j] !in xs[..q])
  {
    var init := xs[..|xs| - 1];
    var d := Dedup(init);
    var last := xs[|xs| - 1];
    assert xs == init + [last];
    DedupElements(init);
    if last !in d && j == |d| {
      // the last element is new: it first appears at the end of xs
      assert Dedup(xs)[i] == d[i] && d[i] in init;
      var p :| 0 <= p < |init| && init[p] == d[i];
      assert last !in init;
      assert xs[p] == Dedup(xs)[i] && xs[|xs| - 1] == Dedup(xs)[j] && xs[..|xs| - 1] == init;
    } else {
      assert Dedup(xs)[i] == d[i] && Dedup(xs)[j] == d[j];
      DedupKeepsFirstOrder(init, i, j);
      var p, q :| 0 <= p < q < |init| && init[p] == d[i] && init[q] == d[j] && d[j] !in init[..q];
      assert xs[p] == init[p] && xs[q] == init[q] && xs[..q] == init[..q];
    }
  }

  /** The ISBNs the corrected generator produces from the first n draws, one per draw, in order. */
  function DrawnIsbns(draws: seq<Draw>, n: nat): (r: seq<string>)
    requires n <= |draws|
    requires forall i :: 0 <= i < |draws| ==> CorrectedDraw(draws[i])
    ensures |r| == n
  {
    if n == 0 then [] else DrawnIsbns(draws, n - 1) + [DrawnIsbn13(draws[n - 1])]
  }

  /** The i-th of the first n calls produces the ISBN of the i-th draw. */
  lemma {:induction false} DrawnIsbnsAt(draws: seq<Draw>, n: nat, i: nat)
    requires i < n <= |draws|
    requires forall i :: 0 <= i < |draws| ==> CorrectedDraw(draws[i])
    ensures DrawnIsbns(draws, n)[i] == DrawnIsbn13(draws[i])
  {
    if i < n - 1 {
      DrawnIsbnsAt(draws, n - 1, i);
    }
  }

  /** One `generateValidISBN13()` call, without a group identifier, on the given draw. */
  method GenerateFromDraw(d: Draw) returns (s: string)
    requires CorrectedDraw(d)
    ensures s == DrawnIsbn13(d)
  {
    var generated := GenerateIsbn13Corrected(None, d.group, d.publisher, d.title);
    s := generated.value;
  }

  /** Adding one more draw to the set appends its ISBN exactly when it is new. */
  lemma DedupStep(draws: seq<Draw>, n: nat, isbns: seq<string>)
    requires n < |draws|
    requires forall i :: 0 <= i < |draws| ==> CorrectedDraw(draws[i])
    requires isbns == Dedup(DrawnIsbns(draws, n))
    ensures DrawnIsbn13(draws[n]) in isbns ==> Dedup(DrawnIsbns(draws, n + 1)) == isbns
    ensures DrawnIsbn13(draws[n]) !in isbns ==> Dedup(DrawnIsbns(draws, n + 1)) == isbns + [DrawnIsbn13(draws[n])]
  {
    var xs := DrawnIsbns(draws, n + 1);
    assert xs[..|xs| - 1] == DrawnIsbns(draws, n);
  }

  /**
   * The batch over the corrected generator: one call per draw, duplicates
   * dropped by the set, the rest kept in order of first appearance, no retry
   * on a collision.
   */
  method GenerateMultipleIsbn13Corrected(count: int, draws: seq<Draw>) returns (r: seq<string>)
    requires count <= |draws|
    requires forall i :: 0 <= i < |draws| ==> CorrectedDraw(draws[i])
    ensures count <= 0 ==> r == []
    ensures count >= 0 ==> r == Dedup(DrawnIsbns(draws, count))
    ensures Distinct(r) && |r| <= (if count <= 0 then 0 else count)
    ensures forall k :: 0 <= k < |r| ==> ValidIsbn(r[k])
    ensures forall x :: x in r <==> exists i :: 0 <= i < count && x == DrawnIsbn13(draws[i])
  {
    var isbns: seq<string> := [];
    var i := 0;
    NoDrawsNoIsbns(draws);
    while i < count
      invariant 0 <= i <= |draws| && (count > 0 ==> i <= count) && (count <= 0 ==> i == 0)
      invariant isbns == Dedup(DrawnIsbns(draws, i))
    {
      var s := GenerateFromDraw(draws[i]);
      DedupStep(draws, i, isbns);
      if s !in isbns {
        isbns := isbns + [s];
      }
      i := i + 1;
    }
    r := isbns;
    BatchResult(draws, i, r);
  }

  /** Before the first call the set is empty. */
  lemma NoDrawsNoIsbns(draws: seq<Draw>)
    requires forall i :: 0 <= i < |draws| ==> CorrectedDraw(draws[i])
    ensures Dedup(DrawnIsbns(draws, 0)) == []
  {
  }

  /** What the deduplicated first n draws are: distinct valid ISBNs, exactly the drawn ones, at most n. */
  lemma BatchResult(draws: seq<Draw>, n: nat, r: seq<string>)
    requires n <= |draws|
    requires forall i :: 0 <= i < |draws| ==> CorrectedDraw(draws[i])
    requires r == Dedup(DrawnIsbns(draws, n))
    ensures Distinct(r) && |r| <= n
    ensures forall k :: 0 <= k < |r| ==> ValidIsbn(r[k])
    ensures forall x :: x in r <==> exists i :: 0 <= i < n && x == DrawnIsbn13(draws[i])
  {
    DedupElements(DrawnIsbns(draws, n));
    DrawnAreValid(draws, n);
    DrawnMembership(draws, n);
  }

  /** A value is among the first n drawn ISBNs exactly when some draw below n produced it. */
  lemma DrawnMembership(draws: seq<Draw>, n: nat)
    requires n <= |draws|
    requires forall i :: 0 <= i < |draws| ==> CorrectedDraw(draws[i])
    ensures forall x :: x in DrawnIsbns(draws, n) <==> exists i :: 0 <= i < n && x == DrawnIsbn13(draws[i])
  {
    var xs := DrawnIsbns(draws, n);
    forall x
      ensures x in xs <==> exists i :: 0 <= i < n && x == DrawnIsbn13(draws[i])
    {
      if x in xs {
        var i :| 0 <= i < |xs| && xs[i] == x;
        DrawnIsbnsAt(draws, n, i);
      }
      if exists i :: 0 <= i < n && x == DrawnIsbn13(draws[i]) {
        var i :| 0 <= i < n && x == DrawnIsbn13(draws[i]);
        DrawnIsbnsAt(draws, n, i);
      }
    }
  }

  /** Every ISBN drawn by the corrected generator is valid. */
  lemma DrawnAreValid(draws: seq<Draw>, n: nat)
    requires n <= |draws|
    requires forall i :: 0 <= i < |draws| ==> CorrectedDraw(draws[i])
    ensures forall x :: x in DrawnIsbns(draws, n) ==> ValidIsbn(x)
  {
    var xs := DrawnIsbns(draws, n);
    forall x | x in xs
      ensures ValidIsbn(x)
    {
      var i :| 0 <= i < |xs| && xs[i] == x;
      DrawnIsbnsAt(draws, n, i);
      var d := draws[i];
      Isbn13BodyLength(d.group, d.publisher, d.title);
      Isbn13OfRoundTrip(Isbn13Body(d.group, d.publisher, d.title));
    }
  }

  // ---------------------------------------------------------------- ISBN-10

  /** `isbnWithoutCheck = group + publisher + title` of `generateValidISBN10`. */
  function Isbn10Body(group: nat, publisher: nat, title: nat): (r: string)
    ensures AllDigits(r)
  {
    NatToString(group) + NatToString(publisher) + NatToString(title)
  }

  /** One digit, three digits and a four-digit title make eight characters; a five-digit title makes nine. */
  lemma Isbn10BodyLength(group: nat, publisher: nat, title: nat)
    requires 1 <= group <= 9 && 100 <= publisher <= 999 && 1000 <= title <= 99999
    ensures |Isbn10Body(group, publisher, title)| == if title <= 9999 then 8 else 9
  {
    Pow10Values();
    NatToStringLength(group, 1);
    NatToStringLength(publisher, 3);
    if title <= 9999 {
      NatToStringLength(title, 4);
    } else {
      NatToStringLength(title, 5);
    }
  }

  /** The `checkDigit = 11 - (sum % 11)` of `generateValidISBN10`: between 1 and 11, never 0. */
  function Isbn10CheckValue(body: string): (v: int)
    requires |body| >= 9
    ensures 1 <= v <= 11
    ensures (Sum10(body, 9) + v) % 11 == 0
  {
    11 - Sum10(body, 9) % 11
  }

  /** `checkDigit === 10 ? 'X' : checkDigit.toString()`. */
  function CheckText(v: int): string
    requires 1 <= v <= 11
  {
    if v == 10 then "X" else NatToString(v)
  }

  /** The as-written check text completes a nine-digit body to a valid ISBN exactly when the check value is not 11. */
  lemma AsWrittenIsbn10Verdict(body: string)
    requires |body| == 9 && AllDigits(body)
    ensures ValidIsbn(Hyphenate10(body + CheckText(Isbn10CheckValue(body)))) <==> Isbn10CheckValue(body) <= 10
  {
    var v := Isbn10CheckValue(body);
    var full := body + CheckText(v);
    if v <= 9 {
      assert CheckText(v) == [DigitChar(v)];
    } else if v == 11 {
      assert CheckText(v) == NatToString(1) + [DigitChar(1)];
    }
    assert NoSeparators(full);
    StripHyphenate10(full);
    if v <= 10 {
      assert |full| == 10 && full[..9] == body;
      Sum10Agrees(full, body, 9);
      assert CheckValue10(full[9]) == v;
      assert Isbn10Rule(full);
    } else {
      assert |full| == 11;
    }
  }

  /**
   * The tail of `generateValidISBN10` applied to a supplied body, as written. A body shorter than nine
   * digits makes the loop read past its end (NaN); a nine-digit body yields a
   * valid ISBN-10 unless the check value is 11.
   */
  method CompleteIsbn10(body: string) returns (r: Result<string>)
    requires AllDigits(body)
    ensures |body| < 9 ==> r == Err(NotANumber)
    ensures |body| >= 9 ==> r == Ok(Hyphenate10(body + CheckText(Isbn10CheckValue(body))))
    ensures |body| == 9 ==> (ValidIsbn(r.value) <==> Isbn10CheckValue(body) <= 10)
  {
    if |body| < 9 {
      return Err(NotANumber);
    }
    var sum := WeightedSum10(body);
    var checkDigit := 11 - sum % 11;
    var checkChar := if checkDigit == 10 then "X" else NatToString(checkDigit);
    var validIsbn := body + checkChar;
    r := Ok(Hyphenate10(validIsbn));
    if |body| == 9 {
      AsWrittenIsbn10Verdict(body);
    }
  }

  /** The body 000000000 has weighted sum 0, so the as-written check value is 11 and the result is invalid. */
  lemma CheckElevenCounterexample()
    ensures Isbn10CheckValue("000000000") == 11
    ensures !ValidIsbn(Hyphenate10("000000000" + CheckText(Isbn10CheckValue("000000000"))))
  {
    var body := "000000000";
    assert Sum10(body, 9) == 0;
    AsWrittenIsbn10Verdict(body);
  }

  /**
   * `generateValidISBN10` as written: group 1-9, publisher 100-999 and title
   * 1000-9999 give an eight-digit body, so the checksum reads a missing ninth digit.
   */
  method GenerateValidIsbn10(group: nat, publisher: nat, title: nat) returns (r: Result<string>)
    requires 1 <= group <= 9 && 100 <= publisher <= 999 && 1000 <= title <= 9999
    ensures r == Err(NotANumber)
  {
    var isbnWithoutCheck := Isbn10Body(group, publisher, title);
    Isbn10BodyLength(group, publisher, title);
    r := CompleteIsbn10(isbnWithoutCheck);
  }

  /** The ISBN-10 check value taken modulo 11, so that a sum divisible by 11 gets the check digit 0. */
  function Isbn10CheckDigit(body: string): (d: int)
    requires |body| >= 9
    ensures 0 <= d <= 10
    ensures (Sum10(body, 9) + d) % 11 == 0
  {
    (11 - Sum10(body, 9) % 11) % 11
  }

  function CheckChar10(d: int): char
    requires 0 <= d <= 10
  {
    if d == 10 then 'X' else DigitChar(d)
  }

  /** A nine-digit body completed by its corrected check character, rendered with hyphens. */
  function Isbn10Of(body: string): string
    requires |body| == 9
  {
    Hyphenate10(body + [CheckChar10(Isbn10CheckDigit(body))])
  }

  /** The corrected check completes every nine-digit body to a valid ISBN that strips back to body + check. */
  lemma Isbn10OfRoundTrip(body: string)
    requires |body| == 9 && AllDigits(body)
    ensures Strip(Isbn10Of(body)) == body + [CheckChar10(Isbn10CheckDigit(body))]
    ensures ValidIsbn(Isbn10Of(body))
  {
    var full := body + [CheckChar10(Isbn10CheckDigit(body))];
    assert NoSeparators(full);
    StripHyphenate10(full);
    assert full[..9] == body;
    Sum10Agrees(full, body, 9);
    assert Isbn10Rule(full);
  }

  /** The tail of `generateValidISBN10` with the check value reduced modulo 11. */
  method CompleteIsbn10Corrected(body: string) returns (r: string)
    requires |body| == 9 && AllDigits(body)
    ensures r == Isbn10Of(body) && ValidIsbn(r)
    ensures Strip(r) == body + [CheckChar10(Isbn10CheckDigit(body))]
  {
    var sum := WeightedSum10(body);
    var checkDigit := (11 - sum % 11) % 11;
    assert checkDigit == Isbn10CheckDigit(body);
    var checkChar := if checkDigit == 10 then 'X' else DigitChar(checkDigit);
    assert checkChar == CheckChar10(checkDigit);
    Isbn10OfRoundTrip(body);
    r := Hyphenate10(body + [checkChar]);
  }

  /** The ISBN-10 generator with the five-digit title (10000-99999) that makes a nine-digit body. */
  method GenerateIsbn10Corrected(group: nat, publisher: nat, title: nat) returns (r: string)
    requires 1 <= group <= 9 && 100 <= publisher <= 999 && 10000 <= title <= 99999
    ensures ValidIsbn(r)
    ensures Strip(r)[..9] == Isbn10Body(group, publisher, title)
  {
    var isbnWithoutCheck := Isbn10Body(group, publisher, title);
    Isbn10BodyLength(group, publisher, title);
    r := CompleteIsbn10Corrected(isbnWithoutCheck);
  }
}
