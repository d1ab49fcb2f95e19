/**
  The event recommendation service: four read-only ranking operations over an
  in-memory list of events. Three of them filter the list; all four order
  it with a stable sort and keep the first `limit` entries. Two first score
  every candidate, one for a user's interests and one for likeness to a
  target event. The current time `now` (milliseconds) is a parameter.
 */
module RecommendationService {
  import opened EventTypes
  import opened JsArray
  import opened JsMath

  const MsPerDay: int := 24 * 60 * 60 * 1000
  const OneWeek: int := 7 * MsPerDay
  const TwoWeeks: int := 14 * MsPerDay

  predicate Distinct(s: seq<string>) {
    forall i, j :: 0 <= i < j < |s| ==> s[i] != s[j]
  }

  // ---------------------------------------------------------------------
  // Scores
  // ---------------------------------------------------------------------

  /** How many entries of `tags` occur in `pool`; a tag listed twice counts twice. */
  function MatchingTags(tags: seq<string>, pool: seq<string>): (n: nat)
    ensures n <= |tags|
  {
    if tags == [] then 0
    else MatchingTags(tags[..|tags| - 1], pool) + (if tags[|tags| - 1] in pool then 1 else 0)
  }

  /** MatchingTags counts the positions of `tags` whose tag is in `pool`. */
  lemma {:induction false} MatchingTagsCountsPositions(tags: seq<string>, pool: seq<string>)
    ensures MatchingTags(tags, pool) == |set i | 0 <= i < |tags| && tags[i] in pool|
  {
    if tags != [] {
      var n := |tags| - 1;
      MatchingTagsCountsPositions(tags[..n], pool);
      var before := set i | 0 <= i < n && tags[..n][i] in pool;
      var all := set i | 0 <= i < |tags| && tags[i] in pool;
      if tags[n] in pool {
        assert all == before + {n};
      } else {
        assert all == before;
      }
    }
  }

  /** Appending a tag not yet listed adds it to the shared tags exactly when the pool has it. */
  lemma SharedTagsAppend(init: seq<string>, last: string, pool: seq<string>)
    requires last !in init
    ensures |set t | t in init + [last] && t in pool|
         == |set t | t in init && t in pool| + (if last in pool then 1 else 0)
  {
    var before := set t | t in init && t in pool;
    var all := set t | t in init + [last] && t in pool;
    if last in pool {
      assert all == before + {last};
    } else {
      assert all == before;
    }
  }

  /** Without repeated tags, MatchingTags is the number of distinct shared tags. */
  lemma {:induction false} MatchingDistinctTags(tags: seq<string>, pool: seq<string>)
    requires Distinct(tags)
    ensures MatchingTags(tags, pool) == |set t | t in tags && t in pool|
  {
    if tags != [] {
      var n := |tags| - 1;
      var init, last := tags[..n], tags[n];
      assert Distinct(init) by {
        forall i, j | 0 <= i < j < n ensures init[i] != init[j] {
          assert init[i] == tags[i] && init[j] == tags[j];
        }
      }
      MatchingDistinctTags(init, pool);
      assert last !in init by {
        forall m | 0 <= m < n ensures init[m] != last {
          assert init[m] == tags[m];
        }
      }
      SharedTagsAppend(init, last, pool);
      assert tags == init + [last];
    }
  }

  /** Widening the pool never lowers the count. */
  lemma {:induction false} MatchingTagsMonotone(tags: seq<string>, pool: seq<string>, wider: seq<string>)
    requires forall t :: t in pool ==> t in wider
    ensures MatchingTags(tags, pool) <= MatchingTags(tags, wider)
  {
    if tags != [] {
      MatchingTagsMonotone(tags[..|tags| - 1], pool, wider);
    }
  }

  /**
    The score getRecommendedEvents gives an event: 3 when its category is
    among the interests, 2 for every tag among them, and 1 when it starts
    after `now` and less than a week later.
   */
  function RecommendationScore(e: Event, interests: seq<string>, now: int): (score: nat)
    ensures score <= 4 + 2 * |e.tags|
  {
    (if e.category in interests then 3 else 0)
    + 2 * MatchingTags(e.tags, interests)
    + (if e.startTime > now && e.startTime - now < OneWeek then 1 else 0)
  }

  /** The scoring callback as the source runs it, accumulating into `score`. */
  method ComputeRecommendationScore(e: Event, interests: seq<string>, now: int) returns (score: int)
    ensures score == RecommendationScore(e, interests, now)
  {
    score := 0;
    if e.category in interests {
      score := score + 3;
    }
    for i := 0 to |e.tags|
      invariant score == (if e.category in interests then 3 else 0)
                         + 2 * MatchingTags(e.tags[..i], interests)
    {
      assert e.tags[..i + 1][..i] == e.tags[..i];
      if e.tags[i] in interests {
        score := score + 2;
      }
    }
    assert e.tags[..|e.tags|] == e.tags;
    if e.startTime > now && e.startTime - now < OneWeek {
      score := score + 1;
    }
  }

  /** More interests never lower an event's recommendation score. */
  lemma MoreInterestsNeverLowerScore(e: Event, interests: seq<string>, wider: seq<string>, now: int)
    requires forall t :: t in interests ==> t in wider
    ensures RecommendationScore(e, interests, now) <= RecommendationScore(e, wider, now)
  {
    MatchingTagsMonotone(e.tags, interests, wider);
  }

  /**
    The score getSimilarEvents gives a candidate against the target: 3 for
    the same category, 2 for every candidate tag the target also has, 1 when
    the start times are less than two weeks apart, 1 for the same location.
   */
  function SimilarityScore(e: Event, target: Event): (score: nat)
    ensures score <= 5 + 2 * |e.tags|
  {
    (if e.category == target.category then 3 else 0)
    + 2 * MatchingTags(e.tags, target.tags)
    + (if Abs(e.startTime - target.startTime) < TwoWeeks then 1 else 0)
    + (if e.location == target.location then 1 else 0)
  }

  /** The similarity callback as the source runs it, accumulating into `score`. */
  method ComputeSimilarityScore(e: Event, target: Event) returns (score: int)
    ensures score == SimilarityScore(e, target)
  {
    score := 0;
    if e.category == target.category {
      score := score + 3;
    }
    for i := 0 to |e.tags|
      invariant score == (if e.category == target.category then 3 else 0)
                         + 2 * MatchingTags(e.tags[..i], target.tags)
    {
      assert e.tags[..i + 1][..i] == e.tags[..i];
      if e.tags[i] in target.tags {
        score := score + 2;
      }
    }
    assert e.tags[..|e.tags|] == e.tags;
    if Abs(e.startTime - target.startTime) < TwoWeeks {
      score := score + 1;
    }
    if e.location == target.location {
      score := score + 1;
    }
  }

  /** When neither event repeats a tag, similarity does not depend on which is the target. */
  lemma SimilarityIsSymmetric(a: Event, b: Event)
    requires Distinct(a.tags) && Distinct(b.tags)
    ensures SimilarityScore(a, b) == SimilarityScore(b, a)
  {
    MatchingDistinctTags(a.tags, b.tags);
    MatchingDistinctTags(b.tags, a.tags);
    assert (set t | t in a.tags && t in b.tags) == (set t | t in b.tags && t in a.tags);
  }

  /** With a repeated tag it does: the candidate's repeats each count. */
  lemma RepeatedTagBreaksSymmetry()
    ensures var a := Event("a", "music", ["free", "free"], "hall", 0, 0);
            var b := Event("b", "music", ["free"], "hall", 0, 0);
            SimilarityScore(a, b) == 9 && SimilarityScore(b, a) == 7
  {
    var a := Event("a", "music", ["free", "free"], "hall", 0, 0);
    var b := Event("b", "music", ["free"], "hall", 0, 0);
    assert a.tags[..1] == ["free"] && b.tags[..0] == [];
    assert MatchingTags(a.tags, b.tags) == 2;
    assert MatchingTags(b.tags, a.tags) == 1;
  }

  // ---------------------------------------------------------------------
  // Score, sort by score, slice: shared by the two scoring operations
  // ---------------------------------------------------------------------

  /** Which of the two scoring callbacks is applied. */
  datatype Scoring =
    | ForUser(interests: seq<string>, now: int)
    | LikeEvent(target: Event)

  function Score(scoring: Scoring, e: Event): nat {
    match scoring
    case ForUser(interests, now) => RecommendationScore(e, interests, now)
    case LikeEvent(target) => SimilarityScore(e, target)
  }

  /** The `{ event, score }` records the scoring callbacks return. */
  datatype Scored = Scored(event: Event, score: int)

  /** Each event paired with its score, in the order of `events`. */
  function ScoreAll(scoring: Scoring, events: seq<Event>): (r: seq<Scored>)
    ensures |r| == |events|
    ensures forall i :: 0 <= i < |r| ==> r[i] == Scored(events[i], Score(scoring, events[i]))
  {
    if events == [] then []
    else [Scored(events[0], Score(scoring, events[0]))] + ScoreAll(scoring, events[1..])
  }

  /** The events of the scored records, in their order. */
  function EventsOf(items: seq<Scored>): (r: seq<Event>)
    ensures |r| == |items|
    ensures forall i :: 0 <= i < |r| ==> r[i] == items[i].event
  {
    if items == [] then [] else [items[0].event] + EventsOf(items[1..])
  }

  /** Dropping the scores of the scored events gives back the events. */
  lemma EventsOfScoreAll(scoring: Scoring, events: seq<Event>)
    ensures EventsOf(ScoreAll(scoring, events)) == events
  {
  }

  /** The comparator `(a, b) => b.score - a.score`: highest score first. */
  function ByScoreDesc(a: Scored, b: Scored): (c: int)
    ensures c < 0 <==> a.score > b.score
    ensures c == 0 <==> a.score == b.score
  {
    b.score - a.score
  }

  lemma ByScoreDescConsistent()
    ensures Consistent(ByScoreDesc)
  {
  }

  /**
    The candidates scored, stably sorted by score from highest to lowest,
    cut to the first `limit`, and stripped of their scores.
   */
  function TopByScore(scoring: Scoring, candidates: seq<Event>, limit: nat): (r: seq<Event>)
    ensures |r| == if limit < |candidates| then limit else |candidates|
  {
    var sorted := Sort(ByScoreDesc, ScoreAll(scoring, candidates));
    assert |sorted| == |multiset(sorted)| == |candidates|;
    EventsOf(Slice(sorted, limit))
  }

  /** The events of `events` whose score is `v`, in their order in `events`. */
  function WithScore(scoring: Scoring, events: seq<Event>, v: int): (r: seq<Event>)
    ensures forall e :: e in r ==> e in events && Score(scoring, e) == v
  {
    if events == [] then []
    else (if Score(scoring, events[0]) == v then [events[0]] else []) + WithScore(scoring, events[1..], v)
  }

  ghost predicate Faithful(scoring: Scoring, items: seq<Scored>) {
    forall p :: p in items ==> p.score == Score(scoring, p.event)
  }

  lemma EventsOfConcat(a: seq<Scored>, b: seq<Scored>)
    ensures EventsOf(a + b) == EventsOf(a) + EventsOf(b)
  {
  }

  /** The events of `[e] + es` with score v: e's contribution followed by those of es. */
  lemma WithScoreCons(scoring: Scoring, e: Event, es: seq<Event>, v: int)
    ensures WithScore(scoring, [e] + es, v)
         == (if Score(scoring, e) == v then [e] else []) + WithScore(scoring, es, v)
  {
    assert ([e] + es)[1..] == es;
  }

  lemma {:induction false} TiedIsWithScore(scoring: Scoring, items: seq<Scored>, k: Scored)
    requires Faithful(scoring, items)
    ensures EventsOf(Tied(ByScoreDesc, items, k)) == WithScore(scoring, EventsOf(items), k.score)
  {
    if items != [] {
      var p, rest := items[0], items[1..];
      assert Faithful(scoring, rest) by {
        forall q | q in rest ensures q.score == Score(scoring, q.event) {
          assert q in items;
        }
      }
      TiedIsWithScore(scoring, rest, k);
      var t0 := if ByScoreDesc(p, k) == 0 then [p] else [];
      assert EventsOf(Tied(ByScoreDesc, items, k)) == EventsOf(t0) + EventsOf(Tied(ByScoreDesc, rest, k)) by {
        TiedHead(ByScoreDesc, items, k);
        EventsOfConcat(t0, Tied(ByScoreDesc, rest, k));
      }
      assert WithScore(scoring, EventsOf(items), k.score)
          == (if p.score == k.score then [p.event] else []) + WithScore(scoring, EventsOf(rest), k.score) by {
        assert p in items;
        assert EventsOf(items) == [p.event] + EventsOf(rest);
        WithScoreCons(scoring, p.event, EventsOf(rest), k.score);
      }
    }
  }

  /** Counting the record (x, its score) among faithful records counts x among their events. */
  lemma {:induction false} CountOfScored(scoring: Scoring, items: seq<Scored>, x: Event)
    requires Faithful(scoring, items)
    ensures multiset(items)[Scored(x, Score(scoring, x))] == multiset(EventsOf(items))[x]
  {
    if items != [] {
      var p, rest := items[0], items[1..];
      assert Faithful(scoring, rest) by {
        forall q | q in rest ensures q.score == Score(scoring, q.event) {
          assert q in items;
        }
      }
      CountOfScored(scoring, rest, x);
      assert multiset(items) == multiset{p} + multiset(rest) by {
        assert items == [p] + rest;
      }
      assert multiset(EventsOf(items)) == multiset{p.event} + multiset(EventsOf(rest)) by {
        assert EventsOf(items) == [p.event] + EventsOf(rest);
      }
      assert p.event == x <==> p == Scored(x, Score(scoring, x)) by {
        assert p in items;
      }
    }
  }

  lemma EventsOfPrefix(a: seq<Scored>, b: seq<Scored>)
    requires a <= b
    ensures EventsOf(a) <= EventsOf(b)
  {
    assert EventsOf(a) == EventsOf(b)[..|a|];
  }

  lemma FaithfulPart(scoring: Scoring, part: seq<Scored>, whole: seq<Scored>)
    requires Faithful(scoring, whole) && multiset(part) <= multiset(whole)
    ensures Faithful(scoring, part)
  {
    forall p | p in part ensures p.score == Score(scoring, p.event) {
      assert p in multiset(part);
      assert p in multiset(whole);
    }
  }

  /** Scoring and mapping back returns the candidates. */
  lemma ScoreAllFaithful(scoring: Scoring, candidates: seq<Event>)
    ensures Faithful(scoring, ScoreAll(scoring, candidates))
    ensures EventsOf(ScoreAll(scoring, candidates)) == candidates
  {
  }

  lemma TopByScoreDrawsFromCandidates(scoring: Scoring, candidates: seq<Event>, out: seq<Scored>)
    requires multiset(out) <= multiset(ScoreAll(scoring, candidates))
    ensures Faithful(scoring, out)
    ensures multiset(EventsOf(out)) <= multiset(candidates)
  {
    var scored := ScoreAll(scoring, candidates);
    ScoreAllFaithful(scoring, candidates);
    FaithfulPart(scoring, out, scored);
    forall x ensures multiset(EventsOf(out))[x] <= multiset(candidates)[x] {
      CountOfScored(scoring, out, x);
      CountOfScored(scoring, scored, x);
    }
  }

  lemma TopByScoreKeepsBest(scoring: Scoring, candidates: seq<Event>, out: seq<Scored>)
    requires Faithful(scoring, out)
    requires forall i, p :: 0 <= i < |out| && p in multiset(ScoreAll(scoring, candidates)) - multiset(out)
                            ==> ByScoreDesc(out[i], p) <= 0
    ensures NoneBetterLeftOut(scoring, candidates, EventsOf(out))
  {
    var scored := ScoreAll(scoring, candidates);
    forall i, x | 0 <= i < |out| && x in multiset(candidates) - multiset(EventsOf(out))
      ensures Score(scoring, x) <= Score(scoring, EventsOf(out)[i])
    {
      var p := Scored(x, Score(scoring, x));
      assert p in multiset(scored) - multiset(out) by {
        ScoreAllFaithful(scoring, candidates);
        CountOfScored(scoring, out, x);
        CountOfScored(scoring, scored, x);
      }
      assert ByScoreDesc(out[i], p) <= 0;
      assert out[i].score == Score(scoring, EventsOf(out)[i]) by {
        assert out[i] in out;
      }
    }
  }

  lemma TiesInOrderAt(scoring: Scoring, all: seq<Scored>, out: seq<Scored>, k: Scored)
    requires Faithful(scoring, out) && Faithful(scoring, all)
    requires Tied(ByScoreDesc, out, k) <= Tied(ByScoreDesc, all, k)
    ensures WithScore(scoring, EventsOf(out), k.score) <= WithScore(scoring, EventsOf(all), k.score)
  {
    TiedIsWithScore(scoring, out, k);
    TiedIsWithScore(scoring, all, k);
    EventsOfPrefix(Tied(ByScoreDesc, out, k), Tied(ByScoreDesc, all, k));
  }

  lemma TopByScoreKeepsTiesInOrder(scoring: Scoring, candidates: seq<Event>, out: seq<Scored>)
    requires Faithful(scoring, out)
    requires forall k :: Tied(ByScoreDesc, out, k) <= Tied(ByScoreDesc, ScoreAll(scoring, candidates), k)
    ensures FirstOfEachScore(scoring, candidates, EventsOf(out))
  {
    var scored := ScoreAll(scoring, candidates);
    forall v ensures WithScore(scoring, EventsOf(out), v) <= WithScore(scoring, candidates, v) {
      var k := Scored(Event("", "", [], "", 0, 0), v);
      assert Tied(ByScoreDesc, out, k) <= Tied(ByScoreDesc, scored, k);
      ScoreAllFaithful(scoring, candidates);
      TiesInOrderAt(scoring, scored, out, k);
    }
  }

  /**
    `r` is a best-first selection of `candidates` under `scoring`:
    min(limit, |candidates|) candidates, in non-increasing score; no
    candidate left out scores above one returned; and for every score, the
    returned events with that score are the first candidates with that
    score, in input order.
   */
  ghost predicate RankedByScore(scoring: Scoring, candidates: seq<Event>, limit: nat, r: seq<Event>) {
    && |r| == (if limit < |candidates| then limit else |candidates|)
    && multiset(r) <= multiset(candidates)
    && ScoresDescend(scoring, r)
    && NoneBetterLeftOut(scoring, candidates, r)
    && FirstOfEachScore(scoring, candidates, r)
  }

  /** The scores of `r` never increase along it. */
  ghost predicate ScoresDescend(scoring: Scoring, r: seq<Event>) {
    forall i, j :: 0 <= i < j < |r| ==> Score(scoring, r[i]) >= Score(scoring, r[j])
  }

  /** No candidate missing from `r` scores above an element of `r`. */
  ghost predicate NoneBetterLeftOut(scoring: Scoring, candidates: seq<Event>, r: seq<Event>) {
    forall i, x :: 0 <= i < |r| && x in multiset(candidates) - multiset(r)
                   ==> Score(scoring, x) <= Score(scoring, r[i])
  }

  /** For every score, the elements of `r` with it are the first candidates with it, in order. */
  ghost predicate FirstOfEachScore(scoring: Scoring, candidates: seq<Event>, r: seq<Event>) {
    forall v :: WithScore(scoring, r, v) <= WithScore(scoring, candidates, v)
  }

  lemma SortedScoresDescend(scoring: Scoring, out: seq<Scored>)
    requires Faithful(scoring, out) && SortedBy(ByScoreDesc, out)
    ensures ScoresDescend(scoring, EventsOf(out))
  {
    var r := EventsOf(out);
    forall i, j | 0 <= i < j < |r| ensures Score(scoring, r[i]) >= Score(scoring, r[j]) {
      assert ByScoreDesc(out[i], out[j]) <= 0;
      assert out[i] in out && out[j] in out;
    }
  }

  /** Mapping a top-ranked selection of the scored candidates back to events gives a best-first selection. */
  lemma RankedFromTopRanked(scoring: Scoring, candidates: seq<Event>, limit: nat, out: seq<Scored>)
    requires TopRanked(ByScoreDesc, ScoreAll(scoring, candidates), limit, out)
    ensures RankedByScore(scoring, candidates, limit, EventsOf(out))
  {
    TopByScoreDrawsFromCandidates(scoring, candidates, out);
    TopByScoreKeepsBest(scoring, candidates, out);
    TopByScoreKeepsTiesInOrder(scoring, candidates, out);
    SortedScoresDescend(scoring, out);
  }

  /** Score, stable sort by score descending, slice: a best-first selection. */
  lemma TopByScoreRanks(scoring: Scoring, candidates: seq<Event>, limit: nat)
    ensures RankedByScore(scoring, candidates, limit, TopByScore(scoring, candidates, limit))
  {
    var scored := ScoreAll(scoring, candidates);
    ByScoreDescConsistent();
    SliceOfSort(ByScoreDesc, scored, limit);
    RankedFromTopRanked(scoring, candidates, limit, Slice(Sort(ByScoreDesc, scored), limit));
  }

  /** The selection holds at most `limit` events, each one a candidate. */
  lemma TopByScoreWithin(scoring: Scoring, candidates: seq<Event>, limit: nat)
    ensures |TopByScore(scoring, candidates, limit)| <= limit
    ensures forall e :: e in TopByScore(scoring, candidates, limit) ==> e in candidates
  {
    var r := TopByScore(scoring, candidates, limit);
    TopByScoreRanks(scoring, candidates, limit);
    forall e | e in r ensures e in candidates {
      assert e in multiset(r);
    }
  }

  // ---------------------------------------------------------------------
  // getRecommendedEvents
  // ---------------------------------------------------------------------

  /** The events whose id is not among the user's registered event ids, in input order. */
  function Unregistered(events: seq<Event>, registered: seq<string>): (r: seq<Event>)
    ensures forall e :: e in r <==> e in events && e.id !in registered
    ensures multiset(r) <= multiset(events)
    ensures forall e :: e in events ==> multiset(r)[e] == if e.id !in registered then multiset(events)[e] else 0
  {
    Filter((e: Event) => e.id !in registered, events)
  }

  /**
    Events recommended to `user`: none without a user or without events;
    otherwise the events the user has not registered for, best
    RecommendationScore first, at most `limit` of them (by default three).
   */
  function RecommendedEvents(events: seq<Event>, user: Option<User>, limit: nat := 3, now: int): (r: seq<Event>)
    ensures user.None? || events == [] ==> r == []
    ensures user.Some? ==> forall e :: e in r ==> e in events && e.id !in user.value.registeredEvents
    ensures |r| <= limit
  {
    if user.None? || |events| == 0 then []
    else
      var available := Unregistered(events, user.value.registeredEvents);
      if |available| == 0 then []
      else
        var scoring := ForUser(user.value.interests, now);
        TopByScoreWithin(scoring, available, limit);
        TopByScore(scoring, available, limit)
  }

  /**
    For a present user, getRecommendedEvents is a best-first selection, by
    RecommendationScore, of the events the user has not registered for.
   */
  lemma RecommendedEventsRanking(events: seq<Event>, user: User, limit: nat, now: int)
    ensures RankedByScore(ForUser(user.interests, now), Unregistered(events, user.registeredEvents), limit,
                          RecommendedEvents(events, Some(user), limit, now))
  {
    var candidates := Unregistered(events, user.registeredEvents);
    var scoring := ForUser(user.interests, now);
    if |events| == 0 || |candidates| == 0 {
      assert candidates == [];
    } else {
      assert RecommendedEvents(events, Some(user), limit, now) == TopByScore(scoring, candidates, limit);
      TopByScoreRanks(scoring, candidates, limit);
    }
  }

  // ---------------------------------------------------------------------
  // getPopularEvents
  // ---------------------------------------------------------------------

  /** Most registrations first; equal counts: latest start first. */
  function ByPopularity(a: Event, b: Event): (c: int)
    ensures c < 0 <==> (a.registrationCount > b.registrationCount
                        || (a.registrationCount == b.registrationCount && a.startTime > b.startTime))
    ensures c == 0 <==> a.registrationCount == b.registrationCount && a.startTime == b.startTime
  {
    if a.registrationCount != b.registrationCount then b.registrationCount - a.registrationCount
    else b.startTime - a.startTime
  }

  lemma ByPopularityConsistent()
    ensures Consistent(ByPopularity)
  {
    forall a: Event, b: Event, c: Event
      | NotAfter(ByPopularity, a, b) && NotAfter(ByPopularity, b, c)
      ensures NotAfter(ByPopularity, a, c)
    {
    }
  }

  /**
    A copy of the events, stably sorted by popularity, cut to the first
    `limit`; by default three.
   */
  function PopularEvents(events: seq<Event>, limit: nat := 3): (r: seq<Event>)
    ensures |r| == if limit < |events| then limit else |events|
    ensures multiset(r) <= multiset(events)
  {
    if |events| == 0 then []
    else
      ByPopularityConsistent();
      SliceOfSort(ByPopularity, events, limit);
      Slice(Sort(ByPopularity, events), limit)
  }

  /**
    getPopularEvents orders by registration count, highest first, then by
    start time, latest first; no event left out ranks before one returned;
    events equal in both keys keep their input order.
   */
  lemma PopularEventsRanking(events: seq<Event>, limit: nat)
    ensures TopRanked(ByPopularity, events, limit, PopularEvents(events, limit))
    ensures var r := PopularEvents(events, limit);
      forall i, j :: 0 <= i < j < |r| ==>
        r[i].registrationCount > r[j].registrationCount
        || (r[i].registrationCount == r[j].registrationCount && r[i].startTime >= r[j].startTime)
  {
    if |events| > 0 {
      ByPopularityConsistent();
      SliceOfSort(ByPopularity, events, limit);
      var r := PopularEvents(events, limit);
      forall i, j | 0 <= i < j < |r|
        ensures r[i].registrationCount > r[j].registrationCount
             || (r[i].registrationCount == r[j].registrationCount && r[i].startTime >= r[j].startTime)
      {
        assert ByPopularity(r[i], r[j]) <= 0;
      }
    }
  }

  // ---------------------------------------------------------------------
  // getSimilarEvents
  // ---------------------------------------------------------------------

  /** The events whose id differs from `id`, in input order. */
  function OtherThan(events: seq<Event>, id: string): (r: seq<Event>)
    ensures forall e :: e in r <==> e in events && e.id != id
    ensures multiset(r) <= multiset(events)
    ensures forall e :: e in events ==> multiset(r)[e] == if e.id != id then multiset(events)[e] else 0
  {
    Filter((e: Event) => e.id != id, events)
  }

  /**
    Events similar to `target`: none without a target or with at most one
    event; otherwise the events with another id, most similar first, at most
    `limit` of them (by default three).
   */
  function SimilarEvents(target: Option<Event>, allEvents: seq<Event>, limit: nat := 3): (r: seq<Event>)
    ensures target.None? || |allEvents| <= 1 ==> r == []
    ensures target.Some? ==> forall e :: e in r ==> e in allEvents && e.id != target.value.id
    ensures |r| <= limit
  {
    if target.None? || |allEvents| <= 1 then []
    else
      var others := OtherThan(allEvents, target.value.id);
      var scoring := LikeEvent(target.value);
      TopByScoreWithin(scoring, others, limit);
      TopByScore(scoring, others, limit)
  }

  /**
    With a target and at least two events, getSimilarEvents is a best-first
    selection, by SimilarityScore, of the events whose id differs from the
    target's.
   */
  lemma SimilarEventsRanking(target: Event, allEvents: seq<Event>, limit: nat)
    requires |allEvents| > 1
    ensures RankedByScore(LikeEvent(target), OtherThan(allEvents, target.id), limit,
                          SimilarEvents(Some(target), allEvents, limit))
  {
    TopByScoreRanks(LikeEvent(target), OtherThan(allEvents, target.id), limit);
  }

  // ---------------------------------------------------------------------
  // getUpcomingEvents
  // ---------------------------------------------------------------------

  /** The events starting between `from` and `to`, both included, in input order. */
  function InWindow(events: seq<Event>, from: int, to: int): (r: seq<Event>)
    ensures forall e :: e in r <==> e in events && from <= e.startTime <= to
    ensures multiset(r) <= multiset(events)
    ensures forall e :: e in events ==> multiset(r)[e] == if from <= e.startTime <= to then multiset(events)[e] else 0
  {
    Filter((e: Event) => from <= e.startTime <= to, events)
  }

  /** The comparator `(a, b) => a.startTime - b.startTime`: earliest first. */
  function ByStartTime(a: Event, b: Event): (c: int)
    ensures c < 0 <==> a.startTime < b.startTime
    ensures c == 0 <==> a.startTime == b.startTime
  {
    a.startTime - b.startTime
  }

  lemma ByStartTimeConsistent()
    ensures Consistent(ByStartTime)
  {
  }

  /**
    Events starting in the closed window [now, now + days], earliest first,
    at most `limit` of them. By default the window is seven days and the
    limit five.
   */
  function UpcomingEvents(events: seq<Event>, days: int := 7, limit: nat := 5, now: int): (r: seq<Event>)
    ensures events == [] ==> r == []
    ensures forall e :: e in r ==> e in events && now <= e.startTime <= now + days * MsPerDay
    ensures |r| <= limit
  {
    if |events| == 0 then []
    else
      var upcoming := InWindow(events, now, now + days * MsPerDay);
      ByStartTimeConsistent();
      SliceOfSort(ByStartTime, upcoming, limit);
      assert forall e :: e in Slice(Sort(ByStartTime, upcoming), limit) ==> e in multiset(upcoming);
      Slice(Sort(ByStartTime, upcoming), limit)
  }

  /**
    getUpcomingEvents returns the earliest min(limit, #in-window) events of
    the window in ascending start order, equal starts in input order.
   */
  lemma UpcomingEventsRanking(events: seq<Event>, days: int, limit: nat, now: int)
    ensures TopRanked(ByStartTime, InWindow(events, now, now + days * MsPerDay), limit,
                      UpcomingEvents(events, days, limit, now))
    ensures var r := UpcomingEvents(events, days, limit, now);
      forall i, j :: 0 <= i < j < |r| ==> r[i].startTime <= r[j].startTime
  {
    var window := InWindow(events, now, now + days * MsPerDay);
    if |events| == 0 {
      assert window == [];
    } else {
      ByStartTimeConsistent();
      SliceOfSort(ByStartTime, window, limit);
    }
    var r := UpcomingEvents(events, days, limit, now);
    forall i, j | 0 <= i < j < |r| ensures r[i].startTime <= r[j].startTime {
      assert ByStartTime(r[i], r[j]) <= 0;
    }
  }

  // ---------------------------------------------------------------------
  // Default arguments
  // ---------------------------------------------------------------------

  /**
    Called without the optional arguments, the first three operations
    return at most three events, and getUpcomingEvents at most five events
    from the coming seven days.
   */
  lemma DefaultArguments(events: seq<Event>, user: Option<User>, target: Option<Event>, now: int)
    ensures |RecommendedEvents(events, user, now := now)| <= 3
    ensures |PopularEvents(events)| == if |events| < 3 then |events| else 3
    ensures |SimilarEvents(target, events)| <= 3
    ensures var r := UpcomingEvents(events, now := now);
      |r| <= 5 && forall e :: e in r ==> now <= e.startTime <= now + 7 * MsPerDay
  {
  }
}
