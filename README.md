# Trail filter of the Escursioni front-end

The trails listing page of the Escursioni site (`TrailsPage`) loads every
trail once and then narrows the visible list on the client as the user edits
four controls: a free-text search, a difficulty, a season and a maximum
duration. This project models that filter and proves what it promises:

- the result holds the input's matching trails, in their original order;
- a trail is shown exactly when all four tests hold:
  - the lowered search occurs in the lowered title or the lowered description;
  - difficulty and season match exactly, unless the control is "" ("all");
  - the duration is at most the bound, unless the bound is undefined or 0;
- the page's initial state shows everything;
- filtering is idempotent, commutes with itself, distributes over
  concatenation, and is the composition of four one-criterion filters.

Files:

- `js_string.dfy` (module `JsString`): the two JavaScript string operations
  the filter uses. `toLowerCase` is `Lower`, restricted to ASCII. `includes`
  is `Includes`. It is proved equal to the positional definition of a
  substring.
- `trail_filter.dfy` (module `TrailFilter`): the trail record fields the
  filter reads, the criteria, the `filter` callback (`Matches`), the filter
  itself (`Filter`) and its properties.
- `scenarios.dfy` (module `FilterScenarios`): concrete scenarios, proved as lemmas.
  - Durations 2/5/8 with a 4-hour bound keep only the 2-hour trail.
  - "valle" finds "Valle dell'Orso" and not "Monte Bianco".
  - "VALLE" finds what "valle" finds.

The criteria follow the page's own types. Difficulty and season are the
strings the drop-downs of `src/components/SearchFilter.tsx` produce, compared
with the enumeration's string names (`DifficultyName`, `SeasonName`).
`maxDuration` is `Option<int>`: `None` is `undefined`, the page's initial
value. The "Qualsiasi durata" option yields `Number("") = 0`
(`src/components/SearchFilter.tsx:66-68`). `BoundSet` models the
JavaScript truthiness test `!maxDuration`, so both `None` and `Some(0)`
impose no bound.

## Model

| member | source | states |
|---|---|---|
| `JsString.LowerChar` | src/pages/trails/index.tsx:86-87 | the lowered character is never an upper-case ASCII letter; an upper-case letter becomes its own lower-case form (same position in the alphabet); every other character is unchanged |
| `JsString.Lower` | src/pages/trails/index.tsx:86-87 | `toLowerCase` keeps the length and lowers each character in place |
| `JsString.LowerIdempotent` | src/pages/trails/index.tsx:86-87 | lowering an already lowered string changes nothing |
| `JsString.LowerOfLowered` | src/pages/trails/index.tsx:86-87 | a string with no upper-case letter is its own lower form |
| `JsString.LowerCharEqIff` | src/pages/trails/index.tsx:86-87 | two characters have the same lower form exactly when they are equal or one is the upper-case form of the other (`SameUpToCase`, both directions) |
| `JsString.LowerEqIff` | src/pages/trails/index.tsx:86-87 | two strings have the same lower form exactly when they have equal length and differ at most in case at each position (`SameUpToCase`, both directions) |
| `JsString.Includes` | src/pages/trails/index.tsx:86-87 | `includes`; its meaning, "occurs at some position", is stated by `IncludesIff` |
| `JsString.IncludesIff` | src/pages/trails/index.tsx:86-87 | `includes` holds exactly when the needle occurs at some position of the haystack (both directions) |
| `JsString.IncludesEmpty` | src/pages/trails/index.tsx:85-87 | the empty search string is included in every string |
| `JsString.IncludesFirstChar` | src/pages/trails/index.tsx:86-87 | a non-empty included string has its first character in the haystack |
| `TrailFilter.DifficultyName` | src/pages/trails/index.tsx:25 | the string values `"easy"`, `"moderate"`, `"hard"` of `trail.difficulty`, the same strings the difficulty drop-down offers (src/components/SearchFilter.tsx:44-46) and that line 89 compares with `===`; `DifficultyCriterion` proves them distinct |
| `TrailFilter.SeasonName` | src/pages/trails/index.tsx:28 | the string values `"spring"`, `"summer"`, `"autumn"`, `"winter"` of `trail.season`, the same strings the season drop-down offers (src/components/SearchFilter.tsx:56-59) and that line 90 compares with `===`; `SeasonCriterion` proves them distinct |
| `TrailFilter.BoundSet` | src/pages/trails/index.tsx:91 | the JavaScript truthiness of `maxDuration` (neither undefined nor 0); its effect is stated by `ZeroBoundIsNoBound` and `DurationExcludes` |
| `TrailFilter.MatchText` | src/pages/trails/index.tsx:85-87 | the text test; its meaning is stated by `MatchTextIff`, `SearchIgnoresCase` and `SearchDifferingInCase` |
| `TrailFilter.MatchDifficulty` | src/pages/trails/index.tsx:89 | the difficulty test; its meaning is stated by `DifficultyCriterion`, `DifficultyExcludes` and `UnknownDifficultyExcludesAll` |
| `TrailFilter.MatchSeason` | src/pages/trails/index.tsx:90 | the season test; its meaning is stated by `SeasonCriterion` and `SeasonExcludes` |
| `TrailFilter.MatchDuration` | src/pages/trails/index.tsx:91 | the duration test; its meaning is stated by `DurationExcludes`, `DurationBoundInclusive` and `ZeroBoundIsNoBound` |
| `TrailFilter.Matches` | src/pages/trails/index.tsx:84-93 | the `filter` callback, the conjunction of the four tests; `OneCriterion` and `FilterIsConjunction` state that each test acts on its own |
| `TrailFilter.Filter` | src/pages/trails/index.tsx:84-94 | the result is no longer than the input, and a trail is in it exactly when it is in the input and passes all four tests |
| `TrailFilter.MatchingFrom` | src/pages/trails/index.tsx:84-94 | the positions it lists are strictly increasing, in range, all matching, and include every matching position |
| `TrailFilter.FilterFrom` | src/pages/trails/index.tsx:84-94 | the filtered suffix from position i is the input taken at the matching positions from i on |
| `TrailFilter.FilterPicksMatching` | src/pages/trails/index.tsx:84-94 | the result is the input taken at exactly the matching positions, in increasing order |
| `TrailFilter.FilterIsSubsequence` | src/pages/trails/index.tsx:84 | every trail of the result comes from the input, and the input's relative order is kept |
| `TrailFilter.FilterMultiplicity` | src/pages/trails/index.tsx:84-94 | a matching trail occurs in the result as often as in the input; a non-matching one does not occur |
| `TrailFilter.FilterAppend` | src/pages/trails/index.tsx:84 | filtering a concatenation is concatenating the filtered parts |
| `TrailFilter.FilterKeepsAllMatching` | src/pages/trails/index.tsx:84-94 | a list whose every trail matches is returned unchanged |
| `TrailFilter.FilterIdempotent` | src/pages/trails/index.tsx:84-94 | filtering the filtered list again with the same criteria returns the same sequence |
| `TrailFilter.FilterExt` | src/pages/trails/index.tsx:84-94 | criteria that accept the same trails of a list filter it identically |
| `TrailFilter.NoCriteriaKeepsAll` | src/pages/trails/index.tsx:85-91 | with search, difficulty and season "" and the bound undefined or 0, every trail is kept in order |
| `TrailFilter.InitiallyAllShown` | src/pages/trails/index.tsx:78-95 | the page's initial state shows the whole fetched list |
| `TrailFilter.DifficultyExcludes` | src/pages/trails/index.tsx:89 | a set difficulty excludes every trail whose difficulty differs |
| `TrailFilter.SeasonExcludes` | src/pages/trails/index.tsx:90 | a set season excludes every trail whose season differs |
| `TrailFilter.DurationExcludes` | src/pages/trails/index.tsx:91 | a non-zero bound excludes every trail longer than the bound |
| `TrailFilter.DurationBoundInclusive` | src/pages/trails/index.tsx:91 | a trail whose duration equals the bound, and which meets the other tests, is kept |
| `TrailFilter.ZeroBoundIsNoBound` | src/pages/trails/index.tsx:91 | a bound of 0 filters exactly as an undefined bound |
| `TrailFilter.DifficultyCriterion` | src/pages/trails/index.tsx:89 | selecting a difficulty's name keeps exactly the trails of that difficulty |
| `TrailFilter.SeasonCriterion` | src/pages/trails/index.tsx:90 | selecting a season's name keeps exactly the trails of that season |
| `TrailFilter.UnknownDifficultyExcludesAll` | src/pages/trails/index.tsx:89 | a non-empty difficulty string that names no difficulty leaves an empty result |
| `TrailFilter.MatchTextIff` | src/pages/trails/index.tsx:85-87 | the text test holds exactly when the lowered search is a substring of the lowered title or of the lowered description |
| `TrailFilter.SearchIgnoresCase` | src/pages/trails/index.tsx:85-87 | searches with the same lower form give the same result |
| `TrailFilter.SearchDifferingInCase` | src/pages/trails/index.tsx:85-87 | searches of equal length that differ at each position at most in letter case give the same result |
| `TrailFilter.LoweredSearchSame` | src/pages/trails/index.tsx:85-87 | lower-casing the search beforehand does not change the result |
| `TrailFilter.TrailCaseIgnored` | src/pages/trails/index.tsx:85-87 | trails whose titles and descriptions have equal lengths and differ at each position at most in letter case (`SameUpToCase`) match the same searches |
| `TrailFilter.OneCriterion` | src/pages/trails/index.tsx:85-93 | each one-criterion filter applies exactly its own test |
| `TrailFilter.FilterCompose` | src/pages/trails/index.tsx:93 | filtering by c1 and then c2 equals filtering by any criteria that accept exactly the trails both accept |
| `TrailFilter.FilterIsConjunction` | src/pages/trails/index.tsx:93 | the combined filter equals the text, difficulty, season and duration filters applied in turn |
| `TrailFilter.FilterCommutes` | src/pages/trails/index.tsx:84-94 | two filters applied one after the other give the same result in either order |
| `FilterScenarios.DurationScenario` | src/pages/trails/index.tsx:91 | durations 2, 5 and 8 with a bound of 4 leave only the 2-hour trail |
| `FilterScenarios.SearchScenario` | src/pages/trails/index.tsx:85-87 | the search "valle" keeps "Valle dell'Orso" and drops "Monte Bianco" |
| `FilterScenarios.CapitalSearchScenario` | src/pages/trails/index.tsx:85-87 | searching "VALLE" gives the same result as searching "valle" |

## Left out

- `getStaticProps` (src/pages/trails/index.tsx:180-211) and the other pages' fetchers: network I/O through an HTTP client that is not part of this model, with a fixed empty fallback.
- Rendering, the label maps, image URLs, and the React `useState`/`useMemo` hooks: presentation and memoisation. The filtered value does not depend on them.
- `src/components/SearchFilter.tsx`, `Header.tsx`, `Layout.tsx` and the framework configuration files: presentational or static. SearchFilter only fixes the criterion domains described above.
- Trail fields the filter does not read (identifiers, slug, elevation, timestamps, locale, media, location, localizations).
- JsString.Lower: models `toLowerCase` for ASCII letters only. Full Unicode case mapping is not modelled. Strings are sequences of Unicode characters, not UTF-16 code units.
- Durations: durations and bounds are integers. JavaScript floating-point numbers and the falsiness of `NaN` in `!maxDuration` are not modelled.
