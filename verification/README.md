# Event recommendations and relative dates, modelled in Dafny

This project models the algorithmic core of a community-events web
application:

- **The recommendation service** has four read-only ranking operations over
  an in-memory list of events:
  - `getRecommendedEvents` scores the events a user has not registered for
    against the user's interests.
  - `getPopularEvents` ranks by registration count, then by start time.
  - `getSimilarEvents` scores the other events against a target event.
  - `getUpcomingEvents` keeps the events that start in a window from now and
    puts them in start order.

  Three operations filter the list; all four stably sort and then slice to
  `limit`.
- **The date helpers** are `isDatePast` and `getRelativeTimeString`. The
  second turns a moment into "3 days ago", "in 2 hours" or "just now".

Files and modules:

- `event_types.dfy` (`EventTypes`): the canonical `Event` and `User` records.
  - An absent optional field takes its neutral value: no tags is `[]`, no
    registration count is `0`, no interests or registrations is `[]`.
  - Times are integer milliseconds.
  - The current time `now` is a parameter of every operation that needs it.
- `js_math.dfy` (`JsMath`): `Math.abs` on integers, shared by both
  source files.
- `js_array.dfy` (`JsArray`): the array built-ins the service is written
  with.
  - `filter` and `slice(0, n)` are modelled.
  - The stable `sort(comparefn)` that ECMA-262 requires since its 2019
    edition is defined as stable insertion sort. `SortIsUnique` proves that
    every stable sort with a consistent comparator returns that same
    sequence, so the choice of algorithm does not matter.
- `recommendation_service.dfy` (`RecommendationService`): the scores, the
  four operations and their ranking properties.
  - Each scoring callback appears twice. It is a function stating the score
    formula. It is also a method with the source's accumulating loop over
    the tags, proved equal to that function.
  - The score / sort / slice / map pipeline that two operations share is
    defined once, in `TopByScore`.
- `date_utils.dfy` (`DateUtils`): the whole-second difference, the unit
  buckets, pluralisation, the "ago" / "in" affix, and `isDatePast`.

## Model

| member | source | states |
|---|---|---|
| `JsArray.Filter` | src/services/recommendationService.ts:28 | `filter` keeps an element iff it satisfies the predicate; each element satisfying it keeps every one of its occurrences and every other element has none |
| `JsArray.FilterConcat` | src/services/recommendationService.ts:183-186 | filtering distributes over concatenation, so kept elements stay in input order |
| `JsArray.Slice` | src/services/recommendationService.ts:67 | `slice(0, end)` is the prefix of length min(end, length) |
| `JsArray.Sort` | src/services/recommendationService.ts:66 | sorting returns a permutation of its input |
| `JsArray.SortIsSorted` | src/services/recommendationService.ts:66 | with a consistent comparator, the sorted sequence puts no element after one it ranks below |
| `JsArray.SortIsStable` | src/services/recommendationService.ts:66 | for every key, the elements ranked equal to it appear in the same order as in the input |
| `JsArray.SortIsUnique` | src/services/recommendationService.ts:66 | any sorted, stable permutation of the input equals `Sort`'s result, so a stable engine sort is fully determined |
| `JsArray.SliceOfSort` | src/services/recommendationService.ts:65-68 | sort-then-slice yields min(n, length) input elements in order, no omitted element ranks before a kept one, and ties kept are the first ones of the input |
| `JsMath.Abs` | src/utils/dateUtils.ts:126 | `Math.abs` returns the non-negative one of x and −x |
| `RecommendationService.ScoreAll` | src/services/recommendationService.ts:35 | the mapping pairs each event, position by position, with its score |
| `RecommendationService.EventsOf` | src/services/recommendationService.ts:68 | the mapping takes each scored record, position by position, to its event |
| `RecommendationService.EventsOfScoreAll` | src/services/recommendationService.ts:35-68 | dropping the scores of the scored events gives back the events |
| `RecommendationService.ByScoreDesc` | src/services/recommendationService.ts:66 | the comparator is negative iff `a` scores higher and zero iff the scores are equal |
| `RecommendationService.TopByScore` | src/services/recommendationService.ts:65-68 | the pipeline returns exactly min(limit, #candidates) events; its ranking is stated by `TopByScoreRanks` |
| `RecommendationService.MatchingTags` | src/services/recommendationService.ts:44-50 | the tag-match count never exceeds the number of tags |
| `RecommendationService.MatchingTagsCountsPositions` | src/services/recommendationService.ts:44-50 | the count is the number of positions whose tag is in the pool, so a repeated tag counts at each occurrence |
| `RecommendationService.MatchingDistinctTags` | src/services/recommendationService.ts:131-137 | without repeated tags the count is the number of distinct shared tags |
| `RecommendationService.RecommendationScore` | src/services/recommendationService.ts:35-62 | the recommendation score is at most 4 + 2 per tag |
| `RecommendationService.ComputeRecommendationScore` | src/services/recommendationService.ts:35-62 | the accumulating callback returns exactly 3·[category in interests] + 2·(tags in interests) + 1·[now < start < now + 7 days] |
| `RecommendationService.MoreInterestsNeverLowerScore` | src/services/recommendationService.ts:38-50 | adding interests never lowers an event's score |
| `RecommendationService.SimilarityScore` | src/services/recommendationService.ts:122-154 | the similarity score is at most 5 + 2 per candidate tag |
| `RecommendationService.ComputeSimilarityScore` | src/services/recommendationService.ts:122-154 | the accumulating callback returns exactly 3·[same category] + 2·(candidate tags in target's) + 1·[abs(Δstart) < 14 days] + 1·[same location] |
| `RecommendationService.SimilarityIsSymmetric` | src/services/recommendationService.ts:122-154 | if neither event repeats a tag, swapping the candidate and the target gives the same score |
| `RecommendationService.RepeatedTagBreaksSymmetry` | src/services/recommendationService.ts:131-137 | with a repeated candidate tag the score is not symmetric (9 against 7 in the example) |
| `RecommendationService.ByScoreDescConsistent` | src/services/recommendationService.ts:66 | `b.score - a.score` is a consistent comparator |
| `RecommendationService.TopByScoreRanks` | src/services/recommendationService.ts:65-68 | the score, sort, slice and map pipeline returns the best-first selection described in its comment: exact length, drawn from the candidates, non-increasing score, no better candidate omitted, equal scores in input order |
| `RecommendationService.Unregistered` | src/services/recommendationService.ts:28 | keeps exactly the events whose id is not among the registered ids |
| `RecommendationService.RecommendedEvents` | src/services/recommendationService.ts:12-69 | empty without a user or without events; every result is an input event the user has not registered for; at most `limit` results (`limit` defaults to 3) |
| `RecommendationService.RecommendedEventsRanking` | src/services/recommendationService.ts:28-68 | for a present user the result is the best-first selection, by recommendation score, of the unregistered events, of length min(limit, #unregistered) |
| `RecommendationService.ByPopularity` | src/services/recommendationService.ts:87-98 | the comparator is negative iff `a` has more registrations, or as many and a later start; zero iff both keys are equal |
| `RecommendationService.ByPopularityConsistent` | src/services/recommendationService.ts:87-98 | the popularity comparator is consistent |
| `RecommendationService.PopularEvents` | src/services/recommendationService.ts:77-100 | min(limit, #events) results, drawn from the input (`limit` defaults to 3) |
| `RecommendationService.PopularEventsRanking` | src/services/recommendationService.ts:86-99 | ordered by registration count descending, then start time descending; no omitted event ranks before a returned one; events equal in both keys keep input order |
| `RecommendationService.OtherThan` | src/services/recommendationService.ts:119 | keeps exactly the events whose id differs from the target's |
| `RecommendationService.SimilarEvents` | src/services/recommendationService.ts:109-161 | empty without a target or with at most one event; no result has the target's id; all results are inputs; at most `limit` results (`limit` defaults to 3) |
| `RecommendationService.SimilarEventsRanking` | src/services/recommendationService.ts:118-160 | with a target and two or more events the result is the best-first selection, by similarity, of the events with another id |
| `RecommendationService.InWindow` | src/services/recommendationService.ts:183-186 | keeps exactly the events with from ≤ start ≤ to, both ends inclusive, each with all its occurrences (the caller passes now and now + days·86 400 000 ms) |
| `RecommendationService.ByStartTime` | src/services/recommendationService.ts:190 | the comparator is negative iff `a` starts earlier and zero iff the starts are equal |
| `RecommendationService.ByStartTimeConsistent` | src/services/recommendationService.ts:190 | `a.startTime - b.startTime` is a consistent comparator |
| `RecommendationService.UpcomingEvents` | src/services/recommendationService.ts:170-192 | empty for no events; every result is an input inside the closed window; at most `limit` results (`days` defaults to 7, `limit` to 5) |
| `RecommendationService.DefaultArguments` | src/services/recommendationService.ts:15 | without the optional arguments, recommended, popular and similar events number at most three; upcoming events number at most five and start within seven days (lines 79, 112 and 172-173 hold the other defaults) |
| `RecommendationService.UpcomingEventsRanking` | src/services/recommendationService.ts:179-191 | min(limit, #in-window) results in ascending start order; no omitted in-window event starts earlier than a returned one; equal starts keep input order |
| `DateUtils.IsDatePast` | src/utils/dateUtils.ts:87-92 | a moment is past iff its whole-second difference from now is negative |
| `DateUtils.DiffInSeconds` | src/utils/dateUtils.ts:125 | the difference is the floor of milliseconds / 1000: d·1000 ≤ date − now < d·1000 + 1000 |
| `DateUtils.NatToString` | src/utils/dateUtils.ts:142 | a count prints as a non-empty string of decimal digits without a leading zero |
| `DateUtils.NatToStringRoundTrip` | src/utils/dateUtils.ts:142 | the printed count reads back as the count |
| `DateUtils.Counted` | src/utils/dateUtils.ts:142 | a counted unit starts with a digit, and ends in "s" iff the count is above one or the unit word already ends in "s" |
| `DateUtils.Bucket` | src/utils/dateUtils.ts:136-158 | below one minute the bucket is "just now"; from one minute on it starts with a digit; it never ends in "o" |
| `DateUtils.BucketUsesLargestUnit` | src/utils/dateUtils.ts:129-158 | from one minute on, the text is floor(abs / u) units of the largest unit u ≤ abs (60, 3600, 86400, 604800, 2592000, 31536000 s), and that count is at least one |
| `DateUtils.JustNowBelowAMinute` | src/utils/dateUtils.ts:138-139 | the bucket is "just now" iff the absolute difference is below 60 s |
| `DateUtils.PluralIffMoreThanOne` | src/utils/dateUtils.ts:142-157 | the unit takes a trailing "s" iff the count is greater than one |
| `DateUtils.RelativeTimeStringAsWritten` | src/utils/dateUtils.ts:116-168 | as written, every past moment reads "<bucket> ago" (even under a minute), a moment under a minute ahead reads "just now", a later one "in <bucket>" |
| `DateUtils.RelativeTimeString` | src/utils/dateUtils.ts:116-168 | corrected, a moment at least a minute past reads "<bucket> ago", one under a minute away either way "just now", one at least a minute ahead "in <bucket>" |
| `DateUtils.AffixBySign` | src/utils/dateUtils.ts:160-167 | in the corrected affix choice, under a minute either way gives exactly "just now", past gives "<bucket> ago" and future gives "in <bucket>" |
| `DateUtils.OppositeDiffsMirror` | src/utils/dateUtils.ts:125-165 | d and −d (at least one minute) share the bucket and differ only in "in" against "ago" |
| `DateUtils.JustNowIffWithinAMinute` | src/utils/dateUtils.ts:136-167 | the corrected description is "just now" iff the whole-second difference is under a minute either way |
| `DateUtils.JustNowAgo` | src/utils/dateUtils.ts:161-162 | as written, a moment under a minute in the past reads "just now ago"; corrected, it reads "just now" |
| `DateUtils.OneMillisecondAgo` | src/utils/dateUtils.ts:161-162 | as written, the moment 1 ms before now reads "just now ago" |
| `DateUtils.AsWrittenAgreesOutsidePastMinute` | src/utils/dateUtils.ts:160-167 | outside the last past minute, the code as written and the corrected affix choice agree |
| `DateUtils.PastIffAgo` | src/utils/dateUtils.ts:87-92 | `isDatePast` holds iff the date is strictly before now. That is iff the whole-second difference is negative. As written, that is also iff the description ends in " ago" |

## Findings

| source | as written | input that shows it | evidently intended | confidence | as-written member | corrected member |
|---|---|---|---|---|---|---|
| src/utils/dateUtils.ts:161-162 | the " ago" branch appends to every result, including "just now"; only the "in" branch (line 163) tests `result !== 'just now'` | a date 1 ms before now: the difference floors to −1 s and the text is "just now ago" | "just now" without an affix in both directions | high, not executed | `DateUtils.OneMillisecondAgo` | `DateUtils.JustNowIffWithinAMinute` |

The relative-time model has two versions. `RelativeTimeStringAsWritten`
follows the code as written. `RelativeTimeString` adds the missing
"just now" test to the past branch. `AsWrittenAgreesOutsidePastMinute`
proves the two differ only within the last past minute.

## Left out

- `formatDate`, `formatDateRange` and `formatDateForInput` in
  src/utils/dateUtils.ts are left out. They depend on locale-dependent
  `Intl` / `toLocaleDateString` output and on `Date.toISOString`.
- Parsing of date strings and invalid dates are left out. This covers the
  "Invalid date" return of `getRelativeTimeString` (lines 121-123) and the
  NaN comparisons that drop such events from the window filters. Every time
  here is a valid integer.
- The range of a JavaScript `Date` is left out. A `Date` holds at most
  ±8.64e15 ms from the epoch, and a time outside that range is an invalid
  date. For example, `getUpcomingEvents(events, 1e9)` makes `futureDate`
  (src/services/recommendationService.ts:180) invalid, so every comparison
  with it is false and the source returns `[]`. `UpcomingEvents` instead
  returns the window's events, because its times are unbounded integers.
- The wall clock is left out. `now` is a parameter. `getRecommendedEvents`
  reads the clock again for every event (line 54). The model uses one `now`
  for the whole call.
- A negative `limit` is not modelled: `slice(0, -k)` would drop elements
  from the end. `limit` is a `nat`. A fractional `days` is not modelled
  either: `days` is an integer.
- In-place mutation is not modelled. The source sorts freshly built arrays,
  or a copy (`[...events]`, line 86). On sequence values the caller's input
  cannot change, so "the input is not mutated" holds by construction and is
  not stated as a contract.
- Event fields the service never reads (title, description, end time,
  image, organiser) are not modelled. Neither are user fields other than
  interests and registered event ids.
- Everything outside src/services/recommendationService.ts and
  src/utils/dateUtils.ts is not part of this model. That includes the
  Firestore, HTTP, authentication and calendar services and the React pages
  and components.
