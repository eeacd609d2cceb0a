/** The designer recommendation of app.js: a fixed catalogue of designer
    profiles and `recommendDesigners`, which ranks the profiles against a
    free-text query by style-tag and name/bio matches. Everything here is a
    function of its arguments; nothing updates the catalogue. */
module Designers {
  import opened JsStrings
  import opened Options

  /** One designer profile. Ratings are exact decimals (4.8 is 48/10). */
  datatype Designer = Designer(
    id: int,
    name: string,
    styles: seq<string>,
    bio: string,
    rating: real,
    avatar: string)

  /** The seed catalogue the page searches. */
  const Catalogue: seq<Designer> := [
    Designer(1, "陳小白", ["極簡", "中性"], "善於簡約剪裁與永續面料", 4.8, "assets/designer1.jpg"),
    Designer(2, "李設計", ["街頭", "印花"], "大膽用色與印花設計", 4.6, "assets/designer2.jpg"),
    Designer(3, "王復古", ["復古", "手作"], "擅長復古元素與洗舊處理", 4.7, "assets/designer3.jpg"),
    Designer(4, "吳可愛", ["可愛", "插畫"], "插畫印花、年輕市場專家", 4.5, "assets/designer4.jpg")
  ]

  /** The value of `maxResults` when the caller leaves it out. */
  const DefaultMaxResults: int := 4

  // ---------------------------------------------------------------------
  // Scoring
  // ---------------------------------------------------------------------

  /** A style tag matches the normalised query when either contains the
      other, after the tag is lowercased. */
  predicate TagMatches(tag: string, q: string) {
    Contains(Lower(tag), q) || Contains(q, Lower(tag))
  }

  /** The positions of the tags that match `q`. */
  function MatchingTags(styles: seq<string>, q: string): set<int> {
    IndicesWhere(styles, t => TagMatches(t, q))
  }

  /** The `reduce` over the style tags: one point per matching tag, folded
      from the left. */
  function MatchCount(styles: seq<string>, q: string): (n: nat)
    ensures n <= |styles|
    ensures n > 0 <==> exists i :: 0 <= i < |styles| && TagMatches(styles[i], q)
  {
    if styles == [] then 0
    else
      var init := styles[..|styles| - 1];
      var n := MatchCount(init, q) + (if TagMatches(styles[|styles| - 1], q) then 1 else 0);
      assert forall i :: 0 <= i < |init| ==> init[i] == styles[i];
      n
  }

  /** The name and the bio, joined by a space and lowercased, contain `q`. */
  predicate TextMatches(d: Designer, q: string) {
    Contains(Lower(d.name + " " + d.bio), q)
  }

  /** A profile's relevance to the normalised query `q`. */
  function Score(d: Designer, q: string): (s: real)
    ensures 0.0 <= s <= |d.styles| as real + 0.5
    ensures s > 0.0 <==> (exists i :: 0 <= i < |d.styles| && TagMatches(d.styles[i], q)) || TextMatches(d, q)
  {
    MatchCount(d.styles, q) as real + (if TextMatches(d, q) then 0.5 else 0.0)
  }

  /** The tag count of the fold is the number of matching tags. */
  lemma {:induction false} MatchCountIsMatchingTags(styles: seq<string>, q: string)
    ensures MatchCount(styles, q) == |MatchingTags(styles, q)|
  {
    if styles != [] {
      var n := |styles| - 1;
      MatchCountIsMatchingTags(styles[..n], q);
      IndicesWhereStep(styles, t => TagMatches(t, q));
    }
  }

  /** The positions of the elements of `s` that satisfy `p`. */
  function IndicesWhere<T>(s: seq<T>, p: T -> bool): set<int> {
    set i | 0 <= i < |s| && p(s[i])
  }

  /** Growing `s` by one element grows the positions satisfying `p` by that
      element's position exactly when it satisfies `p`. */
  lemma IndicesWhereStep<T>(s: seq<T>, p: T -> bool)
    requires s != []
    ensures var n := |s| - 1;
      |IndicesWhere(s, p)| == |IndicesWhere(s[..n], p)| + (if p(s[n]) then 1 else 0)
  {
    var n := |s| - 1;
    var a, b := IndicesWhere(s, p), IndicesWhere(s[..n], p);
    if p(s[n]) {
      assert a == b + {n};
    } else {
      assert a == b;
    }
  }

  /** The score is one per matching tag plus one half exactly when the name
      and bio match. */
  lemma ScoreFormula(d: Designer, q: string)
    ensures Score(d, q) == |MatchingTags(d.styles, q)| as real + (if TextMatches(d, q) then 0.5 else 0.0)
  {
    MatchCountIsMatchingTags(d.styles, q);
  }

  // ---------------------------------------------------------------------
  // The scored list, its filter and its sort
  // ---------------------------------------------------------------------

  /** The `{ d, score }` records that `map` builds. */
  datatype Scored = Scored(d: Designer, score: real)

  /** `designers.map(...)`: every profile paired with its score. */
  function ScoreEach(ds: seq<Designer>, q: string): seq<Scored> {
    seq(|ds|, i requires 0 <= i < |ds| => Scored(ds[i], Score(ds[i], q)))
  }

  /** `filter(s => s.score > 0)`: keeps the positively scored records, in order. */
  function KeepPositive(xs: seq<Scored>): seq<Scored> {
    if xs == [] then []
    else
      var last := xs[|xs| - 1];
      KeepPositive(xs[..|xs| - 1]) + (if last.score > 0.0 then [last] else [])
  }

  /** The filter keeps exactly the positively scored records, each at most as
      often as it occurs. */
  lemma {:induction false} KeepPositiveSelects(xs: seq<Scored>)
    ensures forall x :: x in KeepPositive(xs) <==> x in xs && x.score > 0.0
    ensures multiset(KeepPositive(xs)) <= multiset(xs)
  {
    if xs != [] {
      var init, last := xs[..|xs| - 1], xs[|xs| - 1];
      KeepPositiveSelects(init);
      assert xs == init + [last];
    }
  }

  /** `a` goes before `b` under the comparator of the `sort` call: a higher
      score, or the same score and a higher rating. */
  predicate Outranks(a: Scored, b: Scored) {
    a.score > b.score || (a.score == b.score && a.d.rating > b.d.rating)
  }

  /** No record outranks one that precedes it. */
  predicate Ranked(s: seq<Scored>) {
    forall i, j :: 0 <= i < j < |s| ==> !Outranks(s[j], s[i])
  }

  /** Places `x` before the first record it outranks, so after every record
      of the same score and rating. */
  function Insert(x: Scored, s: seq<Scored>): seq<Scored> {
    if s == [] then [x]
    else if Outranks(x, s[0]) then [x] + s
    else [s[0]] + Insert(x, s[1..])
  }

  /** Insertion adds `x` and loses nothing. */
  lemma {:induction false} InsertPermutes(x: Scored, s: seq<Scored>)
    ensures multiset(Insert(x, s)) == multiset(s) + multiset{x}
  {
    if s != [] && !Outranks(x, s[0]) {
      InsertPermutes(x, s[1..]);
      assert s == [s[0]] + s[1..];
    }
  }

  /** Inserting into a ranked list keeps it ranked. */
  lemma {:induction false} InsertRanked(x: Scored, s: seq<Scored>)
    requires Ranked(s)
    ensures Ranked(Insert(x, s))
  {
    if s == [] {
    } else if Outranks(x, s[0]) {
      var r := [x] + s;
      forall i, j | 0 <= i < j < |r| ensures !Outranks(r[j], r[i]) {
        assert r[j] == s[j - 1];
        if i > 0 {
          assert r[i] == s[i - 1];
        } else if j > 1 {
          assert !Outranks(s[j - 1], s[0]);
        }
      }
    } else {
      var t := s[1..];
      assert Ranked(t) by {
        forall i, j | 0 <= i < j < |t| ensures !Outranks(t[j], t[i]) {
          assert t[i] == s[i + 1] && t[j] == s[j + 1];
        }
      }
      InsertRanked(x, t);
      var u := Insert(x, t);
      InsertPermutes(x, t);
      var r := [s[0]] + u;
      forall i, j | 0 <= i < j < |r| ensures !Outranks(r[j], r[i]) {
        assert r[j] == u[j - 1];
        if i > 0 {
          assert r[i] == u[i - 1];
        } else {
          assert u[j - 1] in multiset(u);
          if u[j - 1] != x {
            assert u[j - 1] in t;
            var k :| 0 <= k < |t| && t[k] == u[j - 1];
            assert t[k] == s[k + 1];
          }
        }
      }
    }
  }

  /** The stable sort: inserts the records one by one, from the first to the
      last. */
  function SortByRank(xs: seq<Scored>): seq<Scored> {
    if xs == [] then []
    else Insert(xs[|xs| - 1], SortByRank(xs[..|xs| - 1]))
  }

  /** The sort returns a ranked permutation of its input. */
  lemma {:induction false} SortByRankSorts(xs: seq<Scored>)
    ensures Ranked(SortByRank(xs))
    ensures multiset(SortByRank(xs)) == multiset(xs)
  {
    if xs != [] {
      var init, last := xs[..|xs| - 1], xs[|xs| - 1];
      SortByRankSorts(init);
      InsertRanked(last, SortByRank(init));
      InsertPermutes(last, SortByRank(init));
      assert xs == init + [last];
    }
  }

  /** The records of one score and one rating, in order. */
  function WithKey(xs: seq<Scored>, score: real, rating: real): seq<Scored> {
    if xs == [] then []
    else
      var head := if xs[0].score == score && xs[0].d.rating == rating then [xs[0]] else [];
      head + WithKey(xs[1..], score, rating)
  }

  lemma {:induction false} WithKeyAppend(a: seq<Scored>, b: seq<Scored>, score: real, rating: real)
    ensures WithKey(a + b, score, rating) == WithKey(a, score, rating) + WithKey(b, score, rating)
  {
    if a != [] {
      assert (a + b)[0] == a[0] && (a + b)[1..] == a[1..] + b;
      WithKeyAppend(a[1..], b, score, rating);
      var head := if a[0].score == score && a[0].d.rating == rating then [a[0]] else [];
      assert WithKey(a + b, score, rating) == head + WithKey(a[1..] + b, score, rating);
      assert WithKey(a, score, rating) == head + WithKey(a[1..], score, rating);
    } else {
      assert a + b == b;
    }
  }

  lemma {:induction false} WithKeyNone(xs: seq<Scored>, score: real, rating: real)
    requires forall j :: 0 <= j < |xs| ==> xs[j].score != score || xs[j].d.rating != rating
    ensures WithKey(xs, score, rating) == []
  {
    if xs != [] {
      WithKeyNone(xs[1..], score, rating);
    }
  }

  /** Inserting into a ranked list puts `x` after every record of its key. */
  lemma {:induction false} InsertStable(x: Scored, s: seq<Scored>, score: real, rating: real)
    requires Ranked(s)
    ensures WithKey(Insert(x, s), score, rating) == WithKey(s, score, rating) + WithKey([x], score, rating)
  {
    if s == [] {
      assert Insert(x, s) == [x];
    } else if Outranks(x, s[0]) {
      assert Insert(x, s) == [x] + s;
      InsertFrontStable(x, s, score, rating);
    } else {
      var t := s[1..];
      var u := Insert(x, t);
      var w, w0, wt := WithKey([x], score, rating), WithKey([s[0]], score, rating), WithKey(t, score, rating);
      assert WithKey(u, score, rating) == wt + w by {
        RankedTail(s);
        InsertStable(x, t, score, rating);
      }
      assert Insert(x, s) == [s[0]] + u;
      assert WithKey(Insert(x, s), score, rating) == w0 + WithKey(u, score, rating) by {
        WithKeyAppend([s[0]], u, score, rating);
      }
      assert WithKey(s, score, rating) == w0 + wt by {
        WithKeyAppend([s[0]], t, score, rating);
        assert [s[0]] + t == s;
      }
    }
  }

  /** Placing `x` in front of a ranked list whose head it outranks puts no
      record of `x`'s key behind it. */
  lemma InsertFrontStable(x: Scored, s: seq<Scored>, score: real, rating: real)
    requires Ranked(s) && s != [] && Outranks(x, s[0])
    ensures WithKey([x] + s, score, rating) == WithKey(s, score, rating) + WithKey([x], score, rating)
  {
    WithKeyAppend([x], s, score, rating);
    if x.score == score && x.d.rating == rating {
      OutrankedHasOtherKey(x, s);
      WithKeyNone(s, score, rating);
    }
  }

  lemma RankedTail(s: seq<Scored>)
    requires Ranked(s) && s != []
    ensures Ranked(s[1..])
  {
    var t := s[1..];
    forall i, j | 0 <= i < j < |t| ensures !Outranks(t[j], t[i]) {
      assert t[i] == s[i + 1] && t[j] == s[j + 1];
    }
  }

  /** A record that outranks the head of a ranked list shares its key with
      none of the list. */
  lemma OutrankedHasOtherKey(x: Scored, s: seq<Scored>)
    requires Ranked(s) && s != [] && Outranks(x, s[0])
    ensures forall j :: 0 <= j < |s| ==> s[j].score != x.score || s[j].d.rating != x.d.rating
  {
    forall j | 0 <= j < |s| ensures s[j].score != x.score || s[j].d.rating != x.d.rating {
      assert j == 0 || !Outranks(s[j], s[0]);
    }
  }

  /** The sort is stable: for every score and rating, the records with that
      key come out in the order they went in. */
  lemma {:induction false} SortByRankStable(xs: seq<Scored>, score: real, rating: real)
    ensures WithKey(SortByRank(xs), score, rating) == WithKey(xs, score, rating)
  {
    if xs != [] {
      var init, last := xs[..|xs| - 1], xs[|xs| - 1];
      SortByRankStable(init, score, rating);
      SortByRankSorts(init);
      InsertStable(last, SortByRank(init), score, rating);
      assert xs == init + [last];
      WithKeyAppend(init, [last], score, rating);
    }
  }

  // ---------------------------------------------------------------------
  // recommendDesigners
  // ---------------------------------------------------------------------

  /** The end index `slice(0, end)` uses on a list of `len` elements: a
      negative `end` counts back from the end of the list. */
  function SliceEnd(end: int, len: nat): (n: nat)
    ensures n <= len
  {
    if end < 0 then (if len + end > 0 then len + end else 0)
    else if end < len then end else len
  }

  /** `!query || !query.trim()`: the query is missing, empty or whitespace. */
  predicate IsBlankQuery(query: Option<string>) {
    query.None? || query.value == [] || Trim(query.value) == []
  }

  /** `query.trim().toLowerCase()`. */
  function Normalize(query: string): string {
    Lower(Trim(query))
  }

  /** The profiles of the records (the closing `map(s => s.d)`). */
  function Profiles(xs: seq<Scored>): (ds: seq<Designer>)
    ensures |ds| == |xs|
    ensures forall i :: 0 <= i < |xs| ==> ds[i] == xs[i].d
  {
    if xs == [] then [] else [xs[0].d] + Profiles(xs[1..])
  }

  /** The positively scored records of `catalog`, ranked. */
  function Ranking(catalog: seq<Designer>, q: string): seq<Scored> {
    SortByRank(KeepPositive(ScoreEach(catalog, q)))
  }

  /** recommendDesigners over an arbitrary catalogue. */
  function Recommend(catalog: seq<Designer>, query: Option<string>, maxResults: int): seq<Designer> {
    if IsBlankQuery(query) then catalog[..SliceEnd(maxResults, |catalog|)]
    else
      var ranked := Ranking(catalog, Normalize(query.value));
      Profiles(ranked[..SliceEnd(maxResults, |ranked|)])
  }

  /** recommendDesigners over the page's catalogue. */
  function RecommendDesigners(query: Option<string>, maxResults: int): seq<Designer> {
    Recommend(Catalogue, query, maxResults)
  }

  // ---------------------------------------------------------------------
  // What recommendDesigners promises
  // ---------------------------------------------------------------------

  /** Designer-level form of the comparator: `a` ranks strictly above `b`. */
  predicate RanksAbove(a: Designer, b: Designer, q: string) {
    Score(a, q) > Score(b, q) || (Score(a, q) == Score(b, q) && a.rating > b.rating)
  }

  /** The profiles of `ds` with one score and one rating, in order. */
  function DesignersWithKey(ds: seq<Designer>, q: string, score: real, rating: real): seq<Designer> {
    if ds == [] then []
    else
      var head := if Score(ds[0], q) == score && ds[0].rating == rating then [ds[0]] else [];
      head + DesignersWithKey(ds[1..], q, score, rating)
  }

  /** The positions of the profiles with a positive score. */
  function PositiveIndices(catalog: seq<Designer>, q: string): set<int> {
    IndicesWhere(catalog, d => Score(d, q) > 0.0)
  }

  /** Every record carries its own profile's score. */
  predicate Consistent(xs: seq<Scored>, q: string) {
    forall x :: x in xs ==> x.score == Score(x.d, q)
  }

  /** The ranked list is ranked and holds no record the scored list does
      not, each at most as often. */
  lemma RankingSorted(catalog: seq<Designer>, q: string)
    ensures Ranked(Ranking(catalog, q))
    ensures multiset(Ranking(catalog, q)) <= multiset(ScoreEach(catalog, q))
  {
    KeepPositiveSelects(ScoreEach(catalog, q));
    SortByRankSorts(KeepPositive(ScoreEach(catalog, q)));
  }

  /** The ranked list holds exactly the positively scored records. */
  lemma RankingMembers(catalog: seq<Designer>, q: string)
    ensures forall x :: x in Ranking(catalog, q) <==> x in ScoreEach(catalog, q) && x.score > 0.0
  {
    var kept := KeepPositive(ScoreEach(catalog, q));
    KeepPositiveSelects(ScoreEach(catalog, q));
    SortByRankSorts(kept);
    assert forall x :: x in Ranking(catalog, q) <==> x in multiset(kept);
  }

  /** Every ranked record carries its own profile's score. */
  lemma RankingConsistent(catalog: seq<Designer>, q: string)
    ensures Consistent(Ranking(catalog, q), q)
  {
    RankingMembers(catalog, q);
  }

  lemma {:induction false} KeepPositiveLength(xs: seq<Scored>)
    ensures |KeepPositive(xs)| == |IndicesWhere(xs, (x: Scored) => x.score > 0.0)|
  {
    if xs != [] {
      KeepPositiveLength(xs[..|xs| - 1]);
      IndicesWhereStep(xs, (x: Scored) => x.score > 0.0);
    }
  }

  /** Per-designer counting: in a consistent list, the copies of profile `d`
      are the copies of the record of `d` and its score. */
  lemma {:induction false} ProfilesCount(xs: seq<Scored>, q: string, d: Designer)
    requires Consistent(xs, q)
    ensures multiset(Profiles(xs))[d] == multiset(xs)[Scored(d, Score(d, q))]
  {
    if xs != [] {
      assert xs == [xs[0]] + xs[1..];
      assert Consistent(xs[1..], q) by {
        forall x | x in xs[1..] ensures x.score == Score(x.d, q) { assert x in xs; }
      }
      ProfilesCount(xs[1..], q, d);
    }
  }

  lemma ProfilesOfScoreEach(ds: seq<Designer>, q: string)
    ensures Profiles(ScoreEach(ds, q)) == ds
  {
  }

  lemma {:induction false} ProfilesAppend(a: seq<Scored>, b: seq<Scored>)
    ensures Profiles(a + b) == Profiles(a) + Profiles(b)
  {
  }

  lemma {:induction false} ProfilesWithKey(ds: seq<Designer>, q: string, score: real, rating: real)
    ensures Profiles(WithKey(ScoreEach(ds, q), score, rating)) == DesignersWithKey(ds, q, score, rating)
  {
    if ds != [] {
      var xs := ScoreEach(ds, q);
      assert xs[1..] == ScoreEach(ds[1..], q);
      ProfilesWithKey(ds[1..], q, score, rating);
      var head := if xs[0].score == score && xs[0].d.rating == rating then [xs[0]] else [];
      ProfilesAppend(head, WithKey(xs[1..], score, rating));
    }
  }

  /** On a consistent list, filtering the records by key and then dropping
      the scores is filtering the profiles by key. */
  lemma {:induction false} ProfilesWithKeyConsistent(xs: seq<Scored>, q: string, score: real, rating: real)
    requires Consistent(xs, q)
    ensures Profiles(WithKey(xs, score, rating)) == DesignersWithKey(Profiles(xs), q, score, rating)
  {
    if xs != [] {
      assert Consistent(xs[1..], q) by {
        forall x | x in xs[1..] ensures x.score == Score(x.d, q) { assert x in xs; }
      }
      ProfilesWithKeyConsistent(xs[1..], q, score, rating);
      var head := if xs[0].score == score && xs[0].d.rating == rating then [xs[0]] else [];
      ProfilesAppend(head, WithKey(xs[1..], score, rating));
      assert Profiles(xs)[1..] == Profiles(xs[1..]);
    }
  }

  /** Filtering out the non-positive scores leaves the records of a positive
      key as they were. */
  lemma {:induction false} KeepPositiveWithKey(xs: seq<Scored>, score: real, rating: real)
    requires score > 0.0
    ensures WithKey(KeepPositive(xs), score, rating) == WithKey(xs, score, rating)
  {
    if xs != [] {
      var init, last := xs[..|xs| - 1], xs[|xs| - 1];
      var tail := if last.score > 0.0 then [last] else [];
      assert WithKey(KeepPositive(init), score, rating) == WithKey(init, score, rating) by {
        KeepPositiveWithKey(init, score, rating);
      }
      assert WithKey(xs, score, rating) == WithKey(init, score, rating) + WithKey([last], score, rating) by {
        assert xs == init + [last];
        WithKeyAppend(init, [last], score, rating);
      }
      assert WithKey(KeepPositive(xs), score, rating)
          == WithKey(KeepPositive(init), score, rating) + WithKey(tail, score, rating) by {
        WithKeyAppend(KeepPositive(init), tail, score, rating);
      }
      assert WithKey(tail, score, rating) == WithKey([last], score, rating);
    }
  }

  lemma {:induction false} DistinctCount(s: seq<Designer>, d: Designer)
    requires forall i, j :: 0 <= i < j < |s| ==> s[i] != s[j]
    ensures multiset(s)[d] <= 1
  {
    if s != [] {
      assert s == [s[0]] + s[1..];
      DistinctCount(s[1..], d);
      if s[0] == d {
        assert d !in s[1..];
      }
    }
  }

  /** A blank query lists the first `maxResults` profiles of the catalogue, in
      catalogue order, without scoring (a negative `maxResults` counts back
      from the end, as `slice` does). */
  lemma RecommendBlankQuery(catalog: seq<Designer>, query: Option<string>, maxResults: int)
    requires IsBlankQuery(query)
    ensures var r := Recommend(catalog, query, maxResults);
      && (maxResults >= 0 ==> |r| == if maxResults < |catalog| then maxResults else |catalog|)
      && (maxResults < 0 ==> |r| == if |catalog| + maxResults > 0 then |catalog| + maxResults else 0)
      && forall i :: 0 <= i < |r| ==> r[i] == catalog[i]
  {
  }

  /** For a non-blank query, only catalogue profiles are returned, each at
      most as often as the catalogue holds it. */
  lemma RecommendFromCatalogue(catalog: seq<Designer>, query: Option<string>, maxResults: int)
    requires !IsBlankQuery(query)
    ensures multiset(Recommend(catalog, query, maxResults)) <= multiset(catalog)
  {
    var q := Normalize(query.value);
    var scored := ScoreEach(catalog, q);
    var ranked := Ranking(catalog, q);
    var n := SliceEnd(maxResults, |ranked|);
    var taken := ranked[..n];
    assert ranked == taken + ranked[n..];
    assert multiset(taken) <= multiset(scored) by {
      RankingSorted(catalog, q);
    }
    assert Consistent(taken, q) by {
      RankingConsistent(catalog, q);
      forall x | x in taken ensures x.score == Score(x.d, q) { assert x in ranked; }
    }
    ProfilesOfScoreEach(catalog, q);
    ProfilesSubMultiset(taken, scored, q);
  }

  /** Dropping the scores of consistent records keeps multiset inclusion. */
  lemma ProfilesSubMultiset(a: seq<Scored>, b: seq<Scored>, q: string)
    requires Consistent(a, q) && Consistent(b, q) && multiset(a) <= multiset(b)
    ensures multiset(Profiles(a)) <= multiset(Profiles(b))
  {
    forall d ensures multiset(Profiles(a))[d] <= multiset(Profiles(b))[d] {
      ProfilesCount(a, q, d);
      ProfilesCount(b, q, d);
    }
  }

  /** For a non-blank query, every returned profile has a positive score. */
  lemma RecommendPositive(catalog: seq<Designer>, query: Option<string>, maxResults: int)
    requires !IsBlankQuery(query)
    ensures var r := Recommend(catalog, query, maxResults);
      forall i :: 0 <= i < |r| ==> Score(r[i], Normalize(query.value)) > 0.0
  {
    var q := Normalize(query.value);
    var ranked := Ranking(catalog, q);
    RankingMembers(catalog, q);
    var r := Recommend(catalog, query, maxResults);
    forall i | 0 <= i < |r| ensures Score(r[i], q) > 0.0 {
      assert ranked[i] in ranked;
    }
  }

  /** A catalogue without repeated profiles gives a result without repeats. */
  lemma RecommendNoDuplicates(catalog: seq<Designer>, query: Option<string>, maxResults: int)
    requires forall i, j :: 0 <= i < j < |catalog| ==> catalog[i] != catalog[j]
    ensures var r := Recommend(catalog, query, maxResults);
      forall i, j :: 0 <= i < j < |r| ==> r[i] != r[j]
  {
    var r := Recommend(catalog, query, maxResults);
    if !IsBlankQuery(query) {
      forall d ensures multiset(catalog)[d] <= 1 {
        DistinctCount(catalog, d);
      }
      RecommendFromCatalogue(catalog, query, maxResults);
      CountsAtMostOne(r);
    }
  }

  /** A list holding no element twice has no repeated position. */
  lemma CountsAtMostOne(s: seq<Designer>)
    requires forall d :: multiset(s)[d] <= 1
    ensures forall i, j :: 0 <= i < j < |s| ==> s[i] != s[j]
  {
    forall i, j | 0 <= i < j < |s| ensures s[i] != s[j] {
      assert s == s[..i] + [s[i]] + s[i + 1..j] + [s[j]] + s[j + 1..];
      assert multiset(s)[s[i]] >= if s[j] == s[i] then 2 else 1;
    }
  }

  /** For a non-blank query the result holds `maxResults` profiles, or every
      positively scored profile when there are fewer. */
  lemma RecommendLength(catalog: seq<Designer>, query: Option<string>, maxResults: int)
    requires !IsBlankQuery(query)
    ensures var r, n := Recommend(catalog, query, maxResults), |PositiveIndices(catalog, Normalize(query.value))|;
      && (maxResults >= 0 ==> |r| == if maxResults < n then maxResults else n)
      && (maxResults < 0 ==> |r| == if n + maxResults > 0 then n + maxResults else 0)
  {
    var q := Normalize(query.value);
    var scored := ScoreEach(catalog, q);
    var kept := KeepPositive(scored);
    var ranked := Ranking(catalog, q);
    assert |kept| == |PositiveIndices(catalog, q)| by {
      KeepPositiveLength(scored);
      var a, b := IndicesWhere(scored, (x: Scored) => x.score > 0.0), PositiveIndices(catalog, q);
      forall i ensures i in a <==> i in b {
        if 0 <= i < |catalog| {
          assert scored[i].score == Score(catalog[i], q);
        }
      }
      assert a == b;
    }
    assert |ranked| == |kept| by {
      SortByRankSorts(kept);
      assert |multiset(ranked)| == |multiset(kept)|;
    }
    assert |Recommend(catalog, query, maxResults)| == SliceEnd(maxResults, |ranked|);
  }

  /** The result is in ranking order: no profile ranks above one before it. */
  lemma RecommendOrder(catalog: seq<Designer>, query: Option<string>, maxResults: int)
    requires !IsBlankQuery(query)
    ensures var r := Recommend(catalog, query, maxResults);
      forall i, j :: 0 <= i < j < |r| ==> !RanksAbove(r[j], r[i], Normalize(query.value))
  {
    var q := Normalize(query.value);
    var ranked := Ranking(catalog, q);
    RankingSorted(catalog, q);
    RankingConsistent(catalog, q);
    var r := Recommend(catalog, query, maxResults);
    forall i, j | 0 <= i < j < |r| ensures !RanksAbove(r[j], r[i], q) {
      assert ranked[i] in ranked && ranked[j] in ranked;
    }
  }

  /** Profiles with the same score and the same rating keep their catalogue
      order: those returned are the first ones of the catalogue with that key. */
  lemma RecommendStable(catalog: seq<Designer>, query: Option<string>, maxResults: int, score: real, rating: real)
    requires !IsBlankQuery(query) && score > 0.0
    ensures var q := Normalize(query.value);
      DesignersWithKey(Recommend(catalog, query, maxResults), q, score, rating)
        <= DesignersWithKey(catalog, q, score, rating)
  {
    var q := Normalize(query.value);
    var scored := ScoreEach(catalog, q);
    var ranked := Ranking(catalog, q);
    var n := SliceEnd(maxResults, |ranked|);
    var taken := ranked[..n];
    var rest := ranked[n..];
    var wt, wr := WithKey(taken, score, rating), WithKey(rest, score, rating);
    assert WithKey(ranked, score, rating) == wt + wr by {
      assert ranked == taken + rest;
      WithKeyAppend(taken, rest, score, rating);
    }
    assert WithKey(ranked, score, rating) == WithKey(scored, score, rating) by {
      SortByRankStable(KeepPositive(scored), score, rating);
      KeepPositiveWithKey(scored, score, rating);
    }
    assert Profiles(WithKey(scored, score, rating)) == DesignersWithKey(catalog, q, score, rating) by {
      ProfilesWithKey(catalog, q, score, rating);
    }
    assert Profiles(wt) <= Profiles(wt + wr) by {
      ProfilesAppend(wt, wr);
    }
    assert Profiles(wt) == DesignersWithKey(Profiles(taken), q, score, rating) by {
      RankingConsistent(catalog, q);
      assert ranked == taken + rest;
      assert Consistent(taken, q) by {
        forall x | x in taken ensures x.score == Score(x.d, q) { assert x in ranked; }
      }
      ProfilesWithKeyConsistent(taken, q, score, rating);
    }
  }

  /** The result is the best of the matches: a positively scored catalogue
      profile left out ranks above none of the returned ones. */
  lemma RecommendTopRanked(catalog: seq<Designer>, query: Option<string>, maxResults: int, d: Designer)
    requires !IsBlankQuery(query)
    requires d in catalog && Score(d, Normalize(query.value)) > 0.0
    requires d !in Recommend(catalog, query, maxResults)
    ensures var r := Recommend(catalog, query, maxResults);
      forall i :: 0 <= i < |r| ==> !RanksAbove(d, r[i], Normalize(query.value))
  {
    var q := Normalize(query.value);
    var scored := ScoreEach(catalog, q);
    var ranked := Ranking(catalog, q);
    var n := SliceEnd(maxResults, |ranked|);
    var r := Recommend(catalog, query, maxResults);
    var x := Scored(d, Score(d, q));
    assert x in ranked by {
      var k :| 0 <= k < |catalog| && catalog[k] == d;
      assert scored[k] == x;
      RankingMembers(catalog, q);
    }
    var j :| 0 <= j < |ranked| && ranked[j] == x;
    assert forall i :: 0 <= i < n ==> ranked[i].d == r[i] != d;
    assert n <= j;
    RankingSorted(catalog, q);
    RankingConsistent(catalog, q);
    forall i | 0 <= i < |r| ensures !RanksAbove(d, r[i], q) {
      assert ranked[i] in ranked;
    }
  }

  // ---------------------------------------------------------------------
  // The page's catalogue
  // ---------------------------------------------------------------------

  /** No two catalogue entries are the same profile, so no search on the page
      returns a profile twice. */
  lemma CatalogueDistinct(query: Option<string>, maxResults: int)
    ensures forall i, j :: 0 <= i < j < |Catalogue| ==> Catalogue[i].id != Catalogue[j].id
    ensures var r := RecommendDesigners(query, maxResults);
      forall i, j :: 0 <= i < j < |r| ==> r[i] != r[j]
  {
    RecommendNoDuplicates(Catalogue, query, maxResults);
  }

  /** A profile none of whose tags, name or bio shares a character with the
      (uncased) query at the places the two containment tests look scores 0. */
  lemma ScoreZero(d: Designer, q: string)
    requires q != []
    requires forall t :: t in d.styles ==> t != [] && Uncased(t) && q[0] !in t && t[0] !in q
    requires Uncased(d.name + " " + d.bio) && q[0] !in d.name + " " + d.bio
    ensures Score(d, q) == 0.0
  {
    forall t | t in d.styles ensures !TagMatches(t, q) {
      LowerIdempotent(t);
      ContainsFirstChar(t, q);
      ContainsFirstChar(q, t);
    }
    LowerIdempotent(d.name + " " + d.bio);
    ContainsFirstChar(d.name + " " + d.bio, q);
  }


  /** Of the first profile's tags only the first matches "極簡". */
  lemma MinimalistFirstTags()
    ensures MatchCount(Catalogue[0].styles, "極簡") == 1
  {
    var q, tags := "極簡", Catalogue[0].styles;
    assert TagMatches(tags[0], q) by {
      LowerIdempotent(q);
      ContainsSelfAndLength(q, q);
    }
    assert !TagMatches(tags[1], q) by {
      LowerIdempotent(tags[1]);
      ContainsFirstChar(tags[1], q);
      ContainsFirstChar(q, tags[1]);
    }
    assert tags[..1][..0] == [];
    assert tags[..1] == [tags[0]];
    assert tags[..2] == tags;
  }

  /** The first profile's name and bio do not contain "極簡". */
  lemma MinimalistFirstText()
    ensures !TextMatches(Catalogue[0], "極簡")
  {
    var text := Catalogue[0].name + " " + Catalogue[0].bio;
    assert '極' !in text;
    LowerKeepsOthers(text, '極');
    ContainsFirstChar(Lower(text), "極簡");
  }


  /** The first profile lists "極簡" once and its name and bio do not contain it. */
  lemma MinimalistFirstScore()
    ensures Score(Catalogue[0], "極簡") == 1.0
  {
    MinimalistFirstTags();
    MinimalistFirstText();
  }

  /** The second profile does not mention "極簡". */
  lemma MinimalistSecondScore()
    ensures Score(Catalogue[1], "極簡") == 0.0
  {
    ScoreZero(Catalogue[1], "極簡");
  }

  /** The third profile does not mention "極簡". */
  lemma MinimalistThirdScore()
    ensures Score(Catalogue[2], "極簡") == 0.0
  {
    ScoreZero(Catalogue[2], "極簡");
  }

  /** The fourth profile does not mention "極簡". */
  lemma MinimalistFourthScore()
    ensures Score(Catalogue[3], "極簡") == 0.0
  {
    ScoreZero(Catalogue[3], "極簡");
  }

  /** A filter over four records of which only the first scores above 0. */
  lemma KeepPositiveFirstOfFour(xs: seq<Scored>)
    requires |xs| == 4 && xs[0].score > 0.0
    requires xs[1].score <= 0.0 && xs[2].score <= 0.0 && xs[3].score <= 0.0
    ensures KeepPositive(xs) == [xs[0]]
  {
    assert KeepPositive(xs[..1]) == [xs[0]] by {
      assert xs[..1][..0] == [];
    }
    assert KeepPositive(xs[..2]) == [xs[0]] by {
      assert xs[..2][..1] == xs[..1];
    }
    assert KeepPositive(xs[..3]) == [xs[0]] by {
      assert xs[..3][..2] == xs[..2];
    }
    assert xs[..3] == xs[..|xs| - 1];
  }

  /** Ranking the page's catalogue against "極簡" keeps only the first profile. */
  lemma MinimalistRanking()
    ensures Ranking(Catalogue, "極簡") == [Scored(Catalogue[0], 1.0)]
  {
    var first := Scored(Catalogue[0], 1.0);
    assert KeepPositive(ScoreEach(Catalogue, "極簡")) == [first] by {
      MinimalistFirstScore();
      MinimalistSecondScore();
      MinimalistThirdScore();
      MinimalistFourthScore();
      KeepPositiveFirstOfFour(ScoreEach(Catalogue, "極簡"));
    }
    assert SortByRank([first]) == [first] by {
      assert [first][..0] == [];
    }
  }

  /** When the ranking holds a single profile, a search asking for at least
      one result returns just that profile. */
  lemma RecommendSingle(catalog: seq<Designer>, query: Option<string>, maxResults: int, d: Designer, score: real)
    requires !IsBlankQuery(query) && maxResults >= 1
    requires Ranking(catalog, Normalize(query.value)) == [Scored(d, score)]
    ensures Recommend(catalog, query, maxResults) == [d]
  {
    var ranked := Ranking(catalog, Normalize(query.value));
    assert ranked[..SliceEnd(maxResults, |ranked|)] == ranked;
  }

  /** Searching the page's catalogue for the style "極簡" (in any spacing)
      returns only the designer who lists that style. */
  lemma MinimalistSearch(query: string)
    requires Normalize(query) == "極簡"
    ensures RecommendDesigners(Some(query), DefaultMaxResults) == [Catalogue[0]]
  {
    assert Trim(query) != [] by {
      assert |Lower(Trim(query))| == |Trim(query)|;
    }
    MinimalistRanking();
    RecommendSingle(Catalogue, Some(query), DefaultMaxResults, Catalogue[0], 1.0);
  }



}
