/**
 * The query shape shared by both `findAll` operations: matching rows ordered
 * by `createdAt` descending, `(page - 1) * limit` rows skipped and `limit`
 * rows taken, and the ILIKE `%search%` test as a case-insensitive substring.
 *
 * Rows are identified by their primary key; `stamps` maps each key to its
 * creation time. The SQL `ORDER BY createdAt DESC` leaves ties unordered; the
 * model breaks them by ascending key so that the page windows are well defined.
 */
module Query {
  type Id = nat

  function Min(a: int, b: int): int { if a <= b then a else b }
  function Max(a: int, b: int): int { if a >= b then a else b }

  // ----------------------------------------------------------------- order

  /** Row a is listed before row b: created later, or at the same time with a smaller key. */
  predicate Before(stamps: map<Id, nat>, a: Id, b: Id)
    requires a in stamps && b in stamps
  {
    stamps[a] > stamps[b] || (stamps[a] == stamps[b] && a < b)
  }

  /** x comes first among ids. */
  predicate IsFirst(stamps: map<Id, nat>, ids: set<Id>, x: Id)
    requires ids <= stamps.Keys
  {
    x in ids && forall y :: y in ids && y != x ==> Before(stamps, x, y)
  }

  lemma {:induction false} FirstExists(stamps: map<Id, nat>, ids: set<Id>)
    requires ids <= stamps.Keys && ids != {}
    ensures exists x :: IsFirst(stamps, ids, x)
    decreases ids
  {
    var y :| y in ids;
    if ids == {y} {
      assert IsFirst(stamps, ids, y);
    } else {
      FirstExists(stamps, ids - {y});
      var x :| IsFirst(stamps, ids - {y}, x);
      if Before(stamps, x, y) {
        assert IsFirst(stamps, ids, x);
      } else {
        assert Before(stamps, y, x);
        forall z | z in ids && z != y
          ensures Before(stamps, y, z)
        {
          if z != x {
            assert Before(stamps, x, z);
          }
        }
        assert IsFirst(stamps, ids, y);
      }
    }
  }

  /** The rows of ids in listing order: each exactly once, every earlier one Before every later one. */
  function Arrange(stamps: map<Id, nat>, ids: set<Id>): (r: seq<Id>)
    requires ids <= stamps.Keys
    ensures |r| == |ids|
    ensures forall i :: 0 <= i < |r| ==> r[i] in ids
    ensures forall x :: x in ids ==> x in r
    ensures forall i, j :: 0 <= i < j < |r| ==> r[i] != r[j] && Before(stamps, r[i], r[j])
    decreases ids
  {
    if ids == {} then []
    else
      FirstExists(stamps, ids);
      var x :| IsFirst(stamps, ids, x);
      [x] + Arrange(stamps, ids - {x})
  }

  ghost function Elems(s: seq<Id>): set<Id> {
    set x | x in s
  }

  /** The rows of ids listed before x. */
  ghost function Predecessors(stamps: map<Id, nat>, ids: set<Id>, x: Id): set<Id>
    requires ids <= stamps.Keys && x in stamps
  {
    set y | y in ids && Before(stamps, y, x)
  }

  /** The number of rows of ids listed before x: its zero-based position in the full listing. */
  ghost function Rank(stamps: map<Id, nat>, ids: set<Id>, x: Id): nat
    requires ids <= stamps.Keys && x in stamps
  {
    |Predecessors(stamps, ids, x)|
  }

  lemma {:induction false} DistinctCard(s: seq<Id>)
    requires forall i, j :: 0 <= i < j < |s| ==> s[i] != s[j]
    ensures |Elems(s)| == |s|
  {
    if s != [] {
      var t := s[..|s| - 1];
      DistinctCard(t);
      assert Elems(s) == Elems(t) + {s[|s| - 1]};
      assert s[|s| - 1] !in Elems(t);
    }
  }

  /** Every row listed before r[i] sits at a smaller position of the arrangement. */
  lemma PredecessorsInPrefix(stamps: map<Id, nat>, ids: set<Id>, r: seq<Id>, i: int)
    requires ids <= stamps.Keys
    requires r == Arrange(stamps, ids)
    requires 0 <= i < |r|
    ensures forall y :: y in Predecessors(stamps, ids, r[i]) ==> y in Elems(r[..i])
  {
    var prefix := r[..i];
    forall y | y in Predecessors(stamps, ids, r[i])
      ensures y in Elems(prefix)
    {
      var j :| 0 <= j < |r| && r[j] == y;
      if j >= i {
        assert false;
      }
      assert prefix[j] == y;
    }
  }

  /** Every row at a smaller position of the arrangement is listed before r[i]. */
  lemma PrefixInPredecessors(stamps: map<Id, nat>, ids: set<Id>, r: seq<Id>, i: int)
    requires ids <= stamps.Keys
    requires r == Arrange(stamps, ids)
    requires 0 <= i < |r|
    ensures forall y :: y in Elems(r[..i]) ==> y in Predecessors(stamps, ids, r[i])
  {
    var prefix := r[..i];
    forall y | y in Elems(prefix)
      ensures y in Predecessors(stamps, ids, r[i])
    {
      var j :| 0 <= j < i && prefix[j] == y;
      assert r[j] == y;
    }
  }

  /** In the arrangement, position and rank coincide. */
  lemma RankIsPosition(stamps: map<Id, nat>, ids: set<Id>, r: seq<Id>, i: int)
    requires ids <= stamps.Keys
    requires r == Arrange(stamps, ids)
    requires 0 <= i < |r|
    ensures Rank(stamps, ids, r[i]) == i
  {
    PredecessorsInPrefix(stamps, ids, r, i);
    PrefixInPredecessors(stamps, ids, r, i);
    assert Predecessors(stamps, ids, r[i]) == Elems(r[..i]);
    DistinctCard(r[..i]);
  }

  // ------------------------------------------------------------------ page

  /** `skip` rows dropped, then at most `limit` rows taken. */
  function Window(all: seq<Id>, skip: int, limit: int): (r: seq<Id>)
    requires skip >= 0 && limit >= 1
    ensures |r| == Min(limit, Max(0, |all| - skip))
    ensures forall i :: 0 <= i < |r| ==> r[i] == all[skip + i]
  {
    if skip >= |all| then [] else all[skip..Min(skip + limit, |all|)]
  }

  lemma WindowRanks(stamps: map<Id, nat>, ids: set<Id>, skip: int, limit: int)
    requires ids <= stamps.Keys && skip >= 0 && limit >= 1
    ensures var r := Window(Arrange(stamps, ids), skip, limit);
      forall i :: 0 <= i < |r| ==> r[i] in ids && Rank(stamps, ids, r[i]) == skip + i
  {
    var all := Arrange(stamps, ids);
    var r := Window(all, skip, limit);
    forall i | 0 <= i < |r|
      ensures r[i] in ids && Rank(stamps, ids, r[i]) == skip + i
    {
      var x := all[skip + i];
      assert r[i] == x;
      RankIsPosition(stamps, ids, all, skip + i);
      assert Rank(stamps, ids, x) == skip + i;
    }
  }

  lemma WindowMembership(stamps: map<Id, nat>, ids: set<Id>, skip: int, limit: int, x: Id)
    requires ids <= stamps.Keys && skip >= 0 && limit >= 1 && x in ids
    ensures x in Window(Arrange(stamps, ids), skip, limit) <==> skip <= Rank(stamps, ids, x) < skip + limit
  {
    var all := Arrange(stamps, ids);
    var r := Window(all, skip, limit);
    var k :| 0 <= k < |all| && all[k] == x;
    RankIsPosition(stamps, ids, all, k);
    if skip <= k < skip + limit {
      assert r[k - skip] == x;
    }
    if x in r {
      var i :| 0 <= i < |r| && r[i] == x;
      assert all[skip + i] == x;
    }
  }

  /**
   * The keys on one page: the arrangement with `(page - 1) * limit` rows
   * skipped and at most `limit` rows taken.
   */
  function PageKeys(stamps: map<Id, nat>, ids: set<Id>, page: int, limit: int): (r: seq<Id>)
    requires ids <= stamps.Keys && page >= 1 && limit >= 1
    ensures |r| == Min(limit, Max(0, |ids| - (page - 1) * limit))
    ensures forall i :: 0 <= i < |r| ==> r[i] in ids && Rank(stamps, ids, r[i]) == (page - 1) * limit + i
    ensures forall i, j :: 0 <= i < j < |r| ==> Before(stamps, r[i], r[j])
    ensures forall x :: x in ids ==> (x in r <==> (page - 1) * limit <= Rank(stamps, ids, x) < (page - 1) * limit + limit)
  {
    var skip := (page - 1) * limit;
    var all := Arrange(stamps, ids);
    WindowRanks(stamps, ids, skip, limit);
    forall x | x in ids
      ensures x in Window(all, skip, limit) <==> skip <= Rank(stamps, ids, x) < skip + limit
    {
      WindowMembership(stamps, ids, skip, limit, x);
    }
    Window(all, skip, limit)
  }

  /** Rank k lies in the window of page p exactly when p is k / limit + 1. */
  lemma PageOfRank(k: nat, limit: int, page: int)
    requires limit >= 1 && page >= 1
    ensures (page - 1) * limit <= k < (page - 1) * limit + limit <==> page == k / limit + 1
  {
    var q := k / limit;
    assert q * limit <= k < q * limit + limit;
    if page - 1 < q {
      MulMonotone(page, q, limit);
    } else if page - 1 > q {
      MulMonotone(q + 1, page - 1, limit);
    }
  }

  lemma MulMonotone(a: int, b: int, c: int)
    requires a <= b && c >= 0
    ensures a * c <= b * c
  {
  }

  /** Every matching row is on exactly one page: page Rank / limit + 1. */
  lemma OnExactlyOnePage(stamps: map<Id, nat>, ids: set<Id>, limit: int, x: Id, page: int)
    requires ids <= stamps.Keys && limit >= 1 && page >= 1 && x in ids
    ensures x in PageKeys(stamps, ids, page, limit) <==> page == Rank(stamps, ids, x) / limit + 1
  {
    PageOfRank(Rank(stamps, ids, x), limit, page);
  }

  // ---------------------------------------------------------------- search

  function LowerChar(c: char): char {
    if 'A' <= c <= 'Z' then (c as int + 32) as char else c
  }

  /** ASCII case folding. */
  function Lower(s: string): (r: string)
    ensures |r| == |s|
    ensures forall i :: 0 <= i < |s| ==> r[i] == LowerChar(s[i])
  {
    if s == [] then [] else [LowerChar(s[0])] + Lower(s[1..])
  }

  /** `%`, `_` and `\` are LIKE metacharacters; a plain search contains none of them. */
  predicate PlainSearch(s: string) {
    forall i :: 0 <= i < |s| ==> s[i] != '%' && s[i] != '_' && s[i] != '\\'
  }

  /** The pattern occurs at offset i of the text, up to case. */
  predicate MatchesAt(text: string, pattern: string, i: int)
    requires 0 <= i <= |text| - |pattern|
  {
    Lower(text[i..i + |pattern|]) == Lower(pattern)
  }

  /** `text ILIKE '%' || pattern || '%'` for a plain pattern. */
  predicate ContainsIgnoringCase(text: string, pattern: string) {
    exists i :: 0 <= i <= |text| - |pattern| && MatchesAt(text, pattern, i)
  }

  lemma LowerIdempotent(s: string)
    ensures Lower(Lower(s)) == Lower(s)
  {
    assert forall i :: 0 <= i < |s| ==> LowerChar(LowerChar(s[i])) == LowerChar(s[i]);
  }

  lemma LowerSlice(s: string, i: int, j: int)
    requires 0 <= i <= j <= |s|
    ensures Lower(s)[i..j] == Lower(s[i..j])
  {
  }

  /** A slice of the folded text, folded again, is the folded slice. */
  lemma FoldedSlice(text: string, i: int, j: int)
    requires 0 <= i <= j <= |text|
    ensures Lower(Lower(text)[i..j]) == Lower(text[i..j])
  {
    LowerSlice(text, i, j);
    LowerIdempotent(text[i..j]);
  }

  /** At a fixed offset, folding the text does not change whether the pattern matches. */
  lemma MatchesAtFolded(text: string, pattern: string, i: int)
    requires 0 <= i <= |text| - |pattern|
    ensures |Lower(text)| == |text|
    ensures MatchesAt(text, pattern, i) <==> MatchesAt(Lower(text), pattern, i)
  {
    var j := i + |pattern|;
    FoldedSlice(text, i, j);
    var folded, plain := Lower(Lower(text)[i..j]), Lower(text[i..j]);
    assert folded == plain;
    assert MatchesAt(text, pattern, i) == (plain == Lower(pattern));
    assert MatchesAt(Lower(text), pattern, i) == (folded == Lower(pattern));
  }

  /** At a fixed offset, folding the pattern does not change whether it matches. */
  lemma MatchesAtFoldedPattern(text: string, pattern: string, i: int)
    requires 0 <= i <= |text| - |pattern|
    ensures |Lower(pattern)| == |pattern|
    ensures MatchesAt(text, pattern, i) <==> MatchesAt(text, Lower(pattern), i)
  {
    LowerIdempotent(pattern);
    var slice := Lower(text[i..i + |pattern|]);
    assert MatchesAt(text, pattern, i) == (slice == Lower(pattern));
    assert MatchesAt(text, Lower(pattern), i) == (slice == Lower(Lower(pattern)));
  }

  /** Folding the search term to lower case never changes the verdict. */
  lemma SearchCaseIrrelevant(text: string, pattern: string)
    ensures ContainsIgnoringCase(text, pattern) <==> ContainsIgnoringCase(text, Lower(pattern))
  {
    if ContainsIgnoringCase(text, pattern) {
      var i :| 0 <= i <= |text| - |pattern| && MatchesAt(text, pattern, i);
      MatchesAtFoldedPattern(text, pattern, i);
    }
    if ContainsIgnoringCase(text, Lower(pattern)) {
      var i :| 0 <= i <= |text| - |Lower(pattern)| && MatchesAt(text, Lower(pattern), i);
      MatchesAtFoldedPattern(text, pattern, i);
    }
  }

  /** Folding the searched text to lower case never changes the verdict either. */
  lemma TextCaseIrrelevant(text: string, pattern: string)
    ensures ContainsIgnoringCase(text, pattern) <==> ContainsIgnoringCase(Lower(text), pattern)
  {
    if ContainsIgnoringCase(text, pattern) {
      var i :| 0 <= i <= |text| - |pattern| && MatchesAt(text, pattern, i);
      MatchesAtFolded(text, pattern, i);
    }
    if ContainsIgnoringCase(Lower(text), pattern) {
      var i :| 0 <= i <= |Lower(text)| - |pattern| && MatchesAt(Lower(text), pattern, i);
      MatchesAtFolded(text, pattern, i);
    }
  }

  /** A text contains each of its own substrings. */
  lemma ContainsOwnSlice(text: string, i: int, j: int)
    requires 0 <= i <= j <= |text|
    ensures ContainsIgnoringCase(text, text[i..j])
  {
    assert MatchesAt(text, text[i..j], i);
  }
}
