/**
  The client-side trail filter of the trails listing page: the `filtered`
  value of `TrailsPage`, which keeps the trails that satisfy the free-text,
  difficulty, season and maximum-duration criteria, in their fetched order.
*/
module TrailFilter {
  import opened JsString

  /** `undefined` (None) or a value. */
  datatype Option<T> = None | Some(value: T)

  datatype Difficulty = Easy | Moderate | Hard

  datatype Season = Spring | Summer | Autumn | Winter

  /** The string a trail record carries for its difficulty. */
  function DifficultyName(d: Difficulty): string {
    match d
    case Easy => "easy"
    case Moderate => "moderate"
    case Hard => "hard"
  }

  /** The string a trail record carries for its season. */
  function SeasonName(s: Season): string {
    match s
    case Spring => "spring"
    case Summer => "summer"
    case Autumn => "autumn"
    case Winter => "winter"
  }

  /** The fields of a trail record that the filter reads. */
  datatype Trail = Trail(
    title: string,
    description: string,
    difficulty: Difficulty,
    durationHours: int,
    season: Season)

  /**
    The page's filter state. Difficulty and season are the strings the
    drop-downs produce ("" for "all"); maxDuration is undefined until the user
    picks a duration, and 0 after picking "any duration".
  */
  datatype Criteria = Criteria(
    search: string,
    difficulty: string,
    season: string,
    maxDuration: Option<int>)

  /** The state the page starts in. */
  const UNFILTERED := Criteria("", "", "", None)

  /** JavaScript truthiness of `maxDuration`: neither undefined nor 0. */
  predicate BoundSet(maxDuration: Option<int>) {
    maxDuration.Some? && maxDuration.value != 0
  }

  predicate MatchText(t: Trail, search: string) {
    Includes(Lower(t.title), Lower(search)) || Includes(Lower(t.description), Lower(search))
  }

  predicate MatchDifficulty(t: Trail, difficulty: string) {
    difficulty == "" || DifficultyName(t.difficulty) == difficulty
  }

  predicate MatchSeason(t: Trail, season: string) {
    season == "" || SeasonName(t.season) == season
  }

  predicate MatchDuration(t: Trail, maxDuration: Option<int>) {
    !BoundSet(maxDuration) || t.durationHours <= maxDuration.value
  }

  /** The callback given to `trails.filter`. */
  predicate Matches(t: Trail, c: Criteria) {
    && MatchText(t, c.search)
    && MatchDifficulty(t, c.difficulty)
    && MatchSeason(t, c.season)
    && MatchDuration(t, c.maxDuration)
  }

  /** `trails.filter(...)`: a trail is kept exactly when it matches, and nothing is added. */
  function Filter(ts: seq<Trail>, c: Criteria): (r: seq<Trail>)
    ensures |r| <= |ts|
    ensures forall t :: t in r <==> t in ts && Matches(t, c)
  {
    if ts == [] then []
    else (if Matches(ts[0], c) then [ts[0]] else []) + Filter(ts[1..], c)
  }

  // ---------------------------------------------------------------------------
  // Order: the result is the input restricted to the matching positions.

  /** The positions from i on whose trail matches, in increasing order. */
  function MatchingFrom(ts: seq<Trail>, c: Criteria, i: nat): (r: seq<nat>)
    requires i <= |ts|
    ensures forall k :: 0 <= k < |r| ==> i <= r[k] < |ts| && Matches(ts[r[k]], c)
    ensures forall k, l :: 0 <= k < l < |r| ==> r[k] < r[l]
    ensures forall j :: i <= j < |ts| && Matches(ts[j], c) ==> j in r
    decreases |ts| - i
  {
    if i == |ts| then []
    else (if Matches(ts[i], c) then [i] else []) + MatchingFrom(ts, c, i + 1)
  }

  /** idx lists strictly increasing positions of ys, and xs holds ys's elements at them. */
  ghost predicate Picks(xs: seq<Trail>, ys: seq<Trail>, idx: seq<nat>) {
    && |idx| == |xs|
    && (forall k :: 0 <= k < |idx| ==> idx[k] < |ys| && xs[k] == ys[idx[k]])
    && (forall k, l :: 0 <= k < l < |idx| ==> idx[k] < idx[l])
  }

  ghost predicate IsSubsequence(xs: seq<Trail>, ys: seq<Trail>) {
    exists idx :: Picks(xs, ys, idx)
  }

  lemma {:induction false} FilterFrom(ts: seq<Trail>, c: Criteria, i: nat)
    requires i <= |ts|
    ensures Picks(Filter(ts[i..], c), ts, MatchingFrom(ts, c, i))
    decreases |ts| - i
  {
    if i < |ts| {
      FilterFrom(ts, c, i + 1);
      assert ts[i..][1..] == ts[i + 1..];
    }
  }

  /**
    The result is exactly the matching trails of the input, taken at their
    positions in increasing order: every matching position appears, no other does.
  */
  lemma FilterPicksMatching(ts: seq<Trail>, c: Criteria)
    ensures Picks(Filter(ts, c), ts, MatchingFrom(ts, c, 0))
    ensures forall j :: j in MatchingFrom(ts, c, 0) <==> 0 <= j < |ts| && Matches(ts[j], c)
  {
    FilterFrom(ts, c, 0);
    assert ts[0..] == ts;
  }

  /** Every trail in the result comes from the input, in the input's relative order. */
  lemma FilterIsSubsequence(ts: seq<Trail>, c: Criteria)
    ensures IsSubsequence(Filter(ts, c), ts)
  {
    FilterPicksMatching(ts, c);
  }

  /** Duplicates are kept or dropped together: each trail occurs as often as in the input, or not at all. */
  lemma {:induction false} FilterMultiplicity(ts: seq<Trail>, c: Criteria, t: Trail)
    ensures multiset(Filter(ts, c))[t] == if Matches(t, c) then multiset(ts)[t] else 0
  {
    if ts != [] {
      FilterMultiplicity(ts[1..], c, t);
      assert ts == [ts[0]] + ts[1..];
    }
  }

  /** Filtering a concatenation filters each part. */
  lemma {:induction false} FilterAppend(a: seq<Trail>, b: seq<Trail>, c: Criteria)
    ensures Filter(a + b, c) == Filter(a, c) + Filter(b, c)
  {
    if a != [] {
      var head := if Matches(a[0], c) then [a[0]] else [];
      assert (a + b)[0] == a[0] && (a + b)[1..] == a[1..] + b;
      FilterAppend(a[1..], b, c);
      assert Filter(a + b, c) == head + (Filter(a[1..], c) + Filter(b, c));
      assert Filter(a, c) == head + Filter(a[1..], c);
    } else {
      assert a + b == b;
    }
  }

  // ---------------------------------------------------------------------------
  // Identity, idempotence and extensionality.

  /** A list whose every trail matches is returned unchanged. */
  lemma {:induction false} FilterKeepsAllMatching(ts: seq<Trail>, c: Criteria)
    requires forall t :: t in ts ==> Matches(t, c)
    ensures Filter(ts, c) == ts
  {
    if ts != [] {
      FilterKeepsAllMatching(ts[1..], c);
    }
  }

  /** Filtering the filtered list again with the same criteria changes nothing. */
  lemma FilterIdempotent(ts: seq<Trail>, c: Criteria)
    ensures Filter(Filter(ts, c), c) == Filter(ts, c)
  {
    FilterKeepsAllMatching(Filter(ts, c), c);
  }

  /** Criteria that agree on every trail of the list give the same result. */
  lemma {:induction false} FilterExt(ts: seq<Trail>, c1: Criteria, c2: Criteria)
    requires forall t :: t in ts ==> (Matches(t, c1) <==> Matches(t, c2))
    ensures Filter(ts, c1) == Filter(ts, c2)
  {
    if ts != [] {
      FilterExt(ts[1..], c1, c2);
    }
  }

  /**
    With an empty search, no difficulty, no season and the duration bound
    undefined or 0, every trail is kept, in order.
  */
  lemma NoCriteriaKeepsAll(ts: seq<Trail>, c: Criteria)
    requires c.search == "" && c.difficulty == "" && c.season == ""
    requires c.maxDuration == None || c.maxDuration == Some(0)
    ensures Filter(ts, c) == ts
  {
  }

  /** The page's initial state shows every fetched trail. */
  lemma InitiallyAllShown(ts: seq<Trail>)
    ensures Filter(ts, UNFILTERED) == ts
  {
    NoCriteriaKeepsAll(ts, UNFILTERED);
  }

  // ---------------------------------------------------------------------------
  // The criteria one at a time.

  /** A set difficulty excludes every trail of another difficulty. */
  lemma DifficultyExcludes(ts: seq<Trail>, c: Criteria, t: Trail)
    requires c.difficulty != "" && DifficultyName(t.difficulty) != c.difficulty
    ensures t !in Filter(ts, c)
  {
  }

  /** A set season excludes every trail of another season. */
  lemma SeasonExcludes(ts: seq<Trail>, c: Criteria, t: Trail)
    requires c.season != "" && SeasonName(t.season) != c.season
    ensures t !in Filter(ts, c)
  {
  }

  /** A non-zero bound excludes every longer trail. */
  lemma DurationExcludes(ts: seq<Trail>, c: Criteria, t: Trail, bound: int)
    requires c.maxDuration == Some(bound) && bound != 0 && t.durationHours > bound
    ensures t !in Filter(ts, c)
  {
  }

  /** The bound is inclusive: a trail exactly as long as the bound is kept if it meets the other criteria. */
  lemma DurationBoundInclusive(ts: seq<Trail>, c: Criteria, t: Trail)
    requires t in ts && c.maxDuration == Some(t.durationHours)
    requires MatchText(t, c.search) && MatchDifficulty(t, c.difficulty) && MatchSeason(t, c.season)
    ensures t in Filter(ts, c)
  {
  }

  /** A bound of 0 (the "any duration" option) filters exactly as an undefined bound. */
  lemma ZeroBoundIsNoBound(ts: seq<Trail>, c: Criteria)
    ensures Filter(ts, c.(maxDuration := Some(0))) == Filter(ts, c.(maxDuration := None))
  {
    FilterExt(ts, c.(maxDuration := Some(0)), c.(maxDuration := None));
  }

  /** Difficulty names are distinct, so matching a difficulty's name is matching that difficulty. */
  lemma DifficultyCriterion(t: Trail, d: Difficulty)
    ensures MatchDifficulty(t, DifficultyName(d)) <==> t.difficulty == d
  {
  }

  /** Season names are distinct, so matching a season's name is matching that season. */
  lemma SeasonCriterion(t: Trail, s: Season)
    ensures MatchSeason(t, SeasonName(s)) <==> t.season == s
  {
  }

  /** A difficulty string that names no difficulty leaves nothing. */
  lemma {:induction false} UnknownDifficultyExcludesAll(ts: seq<Trail>, c: Criteria)
    requires c.difficulty != ""
    requires forall d: Difficulty :: DifficultyName(d) != c.difficulty
    ensures Filter(ts, c) == []
  {
    if ts != [] {
      UnknownDifficultyExcludesAll(ts[1..], c);
      assert DifficultyName(ts[0].difficulty) != c.difficulty;
    }
  }

  // ---------------------------------------------------------------------------
  // Text search.

  /**
    A trail matches the text criterion exactly when the lowered search occurs,
    at some position, in the lowered title or the lowered description.
  */
  lemma MatchTextIff(t: Trail, search: string)
    ensures MatchText(t, search) <==>
      IsSubstring(Lower(search), Lower(t.title)) || IsSubstring(Lower(search), Lower(t.description))
  {
    IncludesIff(Lower(t.title), Lower(search));
    IncludesIff(Lower(t.description), Lower(search));
  }

  /** Searches that differ only in letter case give the same result. */
  lemma SearchIgnoresCase(ts: seq<Trail>, c: Criteria, s1: string, s2: string)
    requires Lower(s1) == Lower(s2)
    ensures Filter(ts, c.(search := s1)) == Filter(ts, c.(search := s2))
  {
    FilterExt(ts, c.(search := s1), c.(search := s2));
  }

  /** Searches that differ, position by position, only in letter case give the same result. */
  lemma SearchDifferingInCase(ts: seq<Trail>, c: Criteria, s1: string, s2: string)
    requires |s1| == |s2| && forall i :: 0 <= i < |s1| ==> SameUpToCase(s1[i], s2[i])
    ensures Filter(ts, c.(search := s1)) == Filter(ts, c.(search := s2))
  {
    LowerEqIff(s1, s2);
    SearchIgnoresCase(ts, c, s1, s2);
  }

  /** Lower-casing the search beforehand changes nothing. */
  lemma LoweredSearchSame(ts: seq<Trail>, c: Criteria)
    ensures Filter(ts, c.(search := Lower(c.search))) == Filter(ts, c)
  {
    LowerIdempotent(c.search);
    SearchIgnoresCase(ts, c, Lower(c.search), c.search);
    assert c.(search := c.search) == c;
  }

  /** Trails whose title and description differ only in letter case match the same searches. */
  lemma TrailCaseIgnored(t1: Trail, t2: Trail, search: string)
    requires |t1.title| == |t2.title|
    requires forall i :: 0 <= i < |t1.title| ==> SameUpToCase(t1.title[i], t2.title[i])
    requires |t1.description| == |t2.description|
    requires forall i :: 0 <= i < |t1.description| ==> SameUpToCase(t1.description[i], t2.description[i])
    ensures MatchText(t1, search) == MatchText(t2, search)
  {
    LowerEqIff(t1.title, t2.title);
    LowerEqIff(t1.description, t2.description);
  }

  // ---------------------------------------------------------------------------
  // The criteria are independent: their conjunction is the composition of
  // one-criterion filters, in any order.

  function TextOnly(c: Criteria): Criteria { UNFILTERED.(search := c.search) }

  function DifficultyOnly(c: Criteria): Criteria { UNFILTERED.(difficulty := c.difficulty) }

  function SeasonOnly(c: Criteria): Criteria { UNFILTERED.(season := c.season) }

  function DurationOnly(c: Criteria): Criteria { UNFILTERED.(maxDuration := c.maxDuration) }

  /** Filtering by c1 and then by c2 is filtering by any c that is their conjunction. */
  lemma {:induction false} FilterCompose(ts: seq<Trail>, c1: Criteria, c2: Criteria, c: Criteria)
    requires forall t :: Matches(t, c) <==> Matches(t, c1) && Matches(t, c2)
    ensures Filter(Filter(ts, c1), c2) == Filter(ts, c)
  {
    if ts != [] {
      FilterCompose(ts[1..], c1, c2, c);
      var head := if Matches(ts[0], c1) then [ts[0]] else [];
      assert Filter(ts, c1) == head + Filter(ts[1..], c1);
      FilterAppend(head, Filter(ts[1..], c1), c2);
      if Matches(ts[0], c1) {
        assert [ts[0]][1..] == [];
        assert Filter(head, c2) == (if Matches(ts[0], c2) then [ts[0]] else []) + Filter([], c2);
      }
    }
  }

  /** Each one-criterion filter tests exactly its own criterion. */
  lemma OneCriterion(t: Trail, c: Criteria)
    ensures Matches(t, TextOnly(c)) == MatchText(t, c.search)
    ensures Matches(t, DifficultyOnly(c)) == MatchDifficulty(t, c.difficulty)
    ensures Matches(t, SeasonOnly(c)) == MatchSeason(t, c.season)
    ensures Matches(t, DurationOnly(c)) == MatchDuration(t, c.maxDuration)
  {
  }

  /** The combined filter is the text, difficulty, season and duration filters applied in turn. */
  lemma FilterIsConjunction(ts: seq<Trail>, c: Criteria)
    ensures Filter(ts, c) ==
      Filter(Filter(Filter(Filter(ts, TextOnly(c)), DifficultyOnly(c)), SeasonOnly(c)), DurationOnly(c))
  {
    var cTD := UNFILTERED.(search := c.search, difficulty := c.difficulty);
    var cTDS := cTD.(season := c.season);
    forall t
      ensures Matches(t, cTD) <==> Matches(t, TextOnly(c)) && Matches(t, DifficultyOnly(c))
      ensures Matches(t, cTDS) <==> Matches(t, cTD) && Matches(t, SeasonOnly(c))
      ensures Matches(t, c) <==> Matches(t, cTDS) && Matches(t, DurationOnly(c))
    {
      OneCriterion(t, c);
      IncludesEmpty(Lower(t.title));
    }
    FilterCompose(ts, TextOnly(c), DifficultyOnly(c), cTD);
    FilterCompose(ts, cTD, SeasonOnly(c), cTDS);
    FilterCompose(ts, cTDS, DurationOnly(c), c);
  }

  /** Filters applied one after the other can be applied in either order. */
  lemma {:induction false} FilterCommutes(ts: seq<Trail>, c1: Criteria, c2: Criteria)
    ensures Filter(Filter(ts, c1), c2) == Filter(Filter(ts, c2), c1)
  {
    if ts != [] {
      FilterCommutes(ts[1..], c1, c2);
      FilterAppend(if Matches(ts[0], c1) then [ts[0]] else [], Filter(ts[1..], c1), c2);
      FilterAppend(if Matches(ts[0], c2) then [ts[0]] else [], Filter(ts[1..], c2), c1);
    }
  }
}
