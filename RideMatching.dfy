/**
  The ride-matching engine of the `ride-matching` edge function: the fuzzy
  word-overlap score between two location texts, the distance-to-score decay,
  and the GET_MATCHED_RIDES pipeline (score every active ride 40/40/20, keep
  those scoring above 30, sort by descending score).

  Scores are exact reals. Lower-casing (`toLowerCase`) and the haversine
  distance between two "lat,lng" coordinate pairs (with their `parseFloat`)
  are parameters of the model.
*/
module RideMatching {
  import opened Wrappers
  import opened Strings
  import StableSort

  // ---------------------------------------------------------------------------
  // calculateLocationMatch

  /**
    `words2.some(word2 => word2.includes(word1) || word1.includes(word2))`:
    some word of `others` contains `word` or is contained in it.
  */
  predicate WordMatches(word: string, others: seq<string>)
    ensures WordMatches(word, others) ==> others != []
    ensures word in others ==> WordMatches(word, others)
  {
    ContainsSelfAndEmpty(word);
    exists j :: 0 <= j < |others| && (Contains(others[j], word) || Contains(word, others[j]))
  }

  /** How many of `words` match some word of `others`. */
  function MatchCount(words: seq<string>, others: seq<string>): (n: nat)
    ensures n <= |words|
  {
    if words == [] then 0
    else
      var last := |words| - 1;
      MatchCount(words[..last], others) + (if WordMatches(words[last], others) then 1 else 0)
  }

  /** `Math.max` of two counts. */
  function Max(a: nat, b: nat): (m: nat)
    ensures m >= a && m >= b
    ensures m == a || m == b
  {
    if a >= b then a else b
  }

  /**
    `calculateLocationMatch(str1, str2)`: the number of words of `str1` that
    match a word of `str2`, over the larger of the two word counts. The
    denominator is never zero, since `split(/\s+/)` yields at least one word.
  */
  function LocationMatch(str1: string, str2: string): (score: real)
    ensures 0.0 <= score <= 1.0
  {
    var words1, words2 := SplitWords(str1), SplitWords(str2);
    var n, d := MatchCount(words1, words2) as real, Max(|words1|, |words2|) as real;
    FractionInUnit(n, d);
    n / d
  }

  /** The loop of `calculateLocationMatch`, counting matched words one by one. */
  method CalculateLocationMatch(str1: string, str2: string) returns (score: real)
    ensures score == LocationMatch(str1, str2)
    ensures 0.0 <= score <= 1.0
  {
    var words1 := SplitWords(str1);
    var words2 := SplitWords(str2);
    var matchCount := 0;
    var i := 0;
    while i < |words1|
      invariant 0 <= i <= |words1|
      invariant matchCount == MatchCount(words1[..i], words2)
    {
      assert words1[..i + 1][..i] == words1[..i];
      if WordMatches(words1[i], words2) {
        matchCount := matchCount + 1;
      }
      i := i + 1;
    }
    assert words1[..i] == words1;
    score := matchCount as real / Max(|words1|, |words2|) as real;
  }

  /** The positions below `n` whose flag is set. */
  ghost function SetPositions(flags: seq<bool>, n: nat): set<int>
    requires n <= |flags|
  {
    set i | 0 <= i < n && flags[i]
  }

  lemma SetPositionsStep(flags: seq<bool>, n: nat)
    requires 0 < n <= |flags|
    ensures |SetPositions(flags, n)| == |SetPositions(flags, n - 1)| + if flags[n - 1] then 1 else 0
  {
    var before := SetPositions(flags, n - 1);
    if flags[n - 1] {
      assert SetPositions(flags, n) == before + {n - 1};
    } else {
      assert SetPositions(flags, n) == before;
    }
  }

  /** Counting the first `n` words counts the positions flagged as matching. */
  lemma {:induction false} MatchCountOfPrefix(words: seq<string>, others: seq<string>, flags: seq<bool>, n: nat)
    requires |flags| == |words| && n <= |words|
    requires forall i :: 0 <= i < |words| ==> flags[i] == WordMatches(words[i], others)
    ensures MatchCount(words[..n], others) == |SetPositions(flags, n)|
  {
    if n > 0 {
      MatchCountOfPrefix(words, others, flags, n - 1);
      assert words[..n][..n - 1] == words[..n - 1];
      assert words[..n][n - 1] == words[n - 1];
      SetPositionsStep(flags, n);
    }
  }

  /** The counted words are exactly the positions whose word matches. */
  lemma MatchCountCountsMatchedWords(words: seq<string>, others: seq<string>)
    ensures MatchCount(words, others) == |set i | 0 <= i < |words| && WordMatches(words[i], others)|
  {
    var flags := seq(|words|, i requires 0 <= i < |words| => WordMatches(words[i], others));
    MatchCountOfPrefix(words, others, flags, |words|);
    assert words[..|words|] == words;
    assert SetPositions(flags, |words|) == set i | 0 <= i < |words| && WordMatches(words[i], others);
  }

  /** All words are counted exactly when every word matches. */
  lemma {:induction false} MatchCountAll(words: seq<string>, others: seq<string>)
    ensures MatchCount(words, others) == |words| <==>
            forall i :: 0 <= i < |words| ==> WordMatches(words[i], others)
  {
    if words != [] {
      var last := |words| - 1;
      MatchCountAll(words[..last], others);
      if MatchCount(words, others) == |words| {
        forall i | 0 <= i < |words| ensures WordMatches(words[i], others) {
          if i < last {
            assert words[..last][i] == words[i];
          }
        }
      }
      if forall i :: 0 <= i < |words| ==> WordMatches(words[i], others) {
        forall i | 0 <= i < last ensures WordMatches(words[..last][i], others) {
          assert words[..last][i] == words[i];
        }
      }
    }
  }

  /** A fraction whose numerator is between 0 and its positive denominator lies in [0, 1]. */
  lemma FractionInUnit(n: real, d: real)
    requires 0.0 <= n <= d && d > 0.0
    ensures 0.0 <= n / d <= 1.0
  {
    var q := n / d;
    assert q * d == n;
    assert (1.0 - q) * d == d - n;
  }

  /**
    The location match is 1 exactly when every word of `str1` matches a word of
    `str2` and `str2` has no more words than `str1`.
  */
  lemma LocationMatchIsOne(str1: string, str2: string)
    ensures LocationMatch(str1, str2) == 1.0 <==>
            (forall i :: 0 <= i < |SplitWords(str1)| ==> WordMatches(SplitWords(str1)[i], SplitWords(str2)))
            && |SplitWords(str2)| <= |SplitWords(str1)|
  {
    var words1, words2 := SplitWords(str1), SplitWords(str2);
    var n, d := MatchCount(words1, words2), Max(|words1|, |words2|);
    MatchCountAll(words1, words2);
    FractionIsOne(n, d);
  }

  lemma FractionIsOne(n: nat, d: nat)
    requires d > 0
    ensures n as real / d as real == 1.0 <==> n == d
  {
    if n as real / d as real == 1.0 {
      assert n as real == (n as real / d as real) * d as real;
    }
  }

  /** Identical texts match fully. */
  lemma LocationMatchSelf(str: string)
    ensures LocationMatch(str, str) == 1.0
  {
    var words := SplitWords(str);
    forall i | 0 <= i < |words| ensures WordMatches(words[i], words) {
      ContainsSelfAndEmpty(words[i]);
    }
    LocationMatchIsOne(str, str);
  }

  /**
    The empty word produced by leading or trailing whitespace (or by the empty
    text) is contained in every word, so it always matches.
  */
  lemma EmptyWordMatches(others: seq<string>)
    requires |others| >= 1
    ensures WordMatches("", others)
  {
    ContainsSelfAndEmpty(others[0]);
  }

  /**
    Text made of whitespace alone splits into two empty words, both of which
    match, so it matches any single word fully.
  */
  lemma BlankTextMatchesAnyWord(blank: string, word: string)
    requires |blank| > 0 && AllWhitespace(blank) && NoWhitespace(word)
    ensures LocationMatch(blank, word) == 1.0
  {
    assert WordLength(blank) == 0;
    assert BlankLength(blank) == |blank|;
    assert SplitWords(blank) == [""] + SplitWords([]);
    assert SplitWords(blank) == ["", ""];
    SplitWordsOfClean(word);
    EmptyWordMatches([word]);
    LocationMatchIsOne(blank, word);
  }

  /** The first word of `word + [sep] + rest` is `word`. */
  lemma {:induction false} WordLengthBeforeBlank(word: string, sep: char, rest: string)
    requires NoWhitespace(word) && IsWhitespace(sep)
    ensures WordLength(word + [sep] + rest) == |word|
    decreases |word|
  {
    var s := word + [sep] + rest;
    if word == [] {
      assert s[0] == sep;
    } else {
      assert s[0] == word[0];
      assert s[1..] == word[1..] + [sep] + rest;
      WordLengthBeforeBlank(word[1..], sep, rest);
    }
  }

  /** One whitespace character before a word is a run of length 1. */
  lemma BlankLengthBeforeWord(sep: char, word: string)
    requires IsWhitespace(sep) && NoWhitespace(word)
    ensures BlankLength([sep] + word) == 1
  {
    var s := [sep] + word;
    assert s[0] == sep && s[1..] == word;
    if |word| > 0 {
      assert word[0] == s[1..][0];
    }
  }

  /** Two words separated by one whitespace character split back into those two words. */
  lemma SplitWordsOfTwo(word1: string, sep: char, word2: string)
    requires NoWhitespace(word1) && IsWhitespace(sep) && NoWhitespace(word2)
    ensures SplitWords(word1 + [sep] + word2) == [word1, word2]
  {
    var s := word1 + [sep] + word2;
    WordLengthBeforeBlank(word1, sep, word2);
    ThreePieces(word1, sep, word2);
    BlankLengthBeforeWord(sep, word2);
    SplitWordsOfClean(word2);
    SplitAtOneBlank(s, |word1|);
  }

  /** The pieces of `a + [c] + b`, cut around `c`. */
  lemma ThreePieces(a: string, c: char, b: string)
    ensures var s := a + [c] + b;
            s[..|a|] == a && s[|a|..] == [c] + b && s[|a| + 1..] == b
  {
  }

  /** A word of length `n` followed by a single whitespace character splits off there. */
  lemma SplitAtOneBlank(s: string, n: nat)
    requires WordLength(s) == n < |s| && BlankLength(s[n..]) == 1
    requires SplitWords(s[n + 1..]) == [s[n + 1..]]
    ensures SplitWords(s) == [s[..n], s[n + 1..]]
  {
    assert s[n..][1..] == s[n + 1..];
  }

  /**
    Only the words of the first text are counted, so the match is not
    symmetric: "a a" against "a b" is 1 ...
  */
  lemma LocationMatchAsymmetricForward()
    ensures LocationMatch("a a", "a b") == 1.0
  {
    ExampleSplits();
    var words1, words2 := ["a", "a"], ["a", "b"];
    assert Contains(words2[0], "a");
    assert WordMatches(words1[0], words2) && WordMatches(words1[1], words2);
    LocationMatchIsOne("a a", "a b");
  }

  /** ... but "a b" against "a a" is 1/2. */
  lemma LocationMatchAsymmetricBackward()
    ensures LocationMatch("a b", "a a") == 0.5
  {
    ExampleSplits();
    OneOfTwoWordsMatches();
  }

  /** How the texts of the asymmetry example split into words. */
  lemma ExampleSplits()
    ensures SplitWords("a b") == ["a", "b"] && SplitWords("a a") == ["a", "a"]
  {
    SplitWordsOfTwo("a", ' ', "b");
    SplitWordsOfTwo("a", ' ', "a");
    assert "a" + [' '] + "b" == "a b" && "a" + [' '] + "a" == "a a";
  }

  /** Of the words "a" and "b", only "a" matches a word of "a a". */
  lemma OneOfTwoWordsMatches()
    ensures MatchCount(["a", "b"], ["a", "a"]) == 1
  {
    var words1, words2 := ["a", "b"], ["a", "a"];
    assert WordMatches("a", words2) by {
      assert Contains(words2[0], "a");
    }
    assert !WordMatches("b", words2) by {
      assert "b"[0] != "a"[0];
      assert !Contains("a"[1..], "b") && !Contains("b"[1..], "a");
    }
    assert words1[..1] == ["a"] && ["a"][..0] == [];
  }

  // ---------------------------------------------------------------------------
  // calculateDistanceMatch

  /** Within this many kilometres a ride is a full distance match. */
  const NearKm: real := 2.0
  /** Beyond this many kilometres a ride is no distance match at all. */
  const FarKm: real := 10.0

  /** The piecewise-linear decay of `calculateDistanceMatch` from 1 at 2 km to 0 at 10 km. */
  function DistanceDecay(distance: real): (decay: real)
    ensures 0.0 <= decay <= 1.0
    ensures distance <= NearKm ==> decay == 1.0
    ensures distance >= FarKm ==> decay == 0.0
  {
    if distance < NearKm then 1.0
    else if distance > FarKm then 0.0
    else 1.0 - (distance - NearKm) / (FarKm - NearKm)
  }

  /** The decay never grows with the distance. */
  lemma DistanceDecayMonotonic(d1: real, d2: real)
    requires d1 <= d2
    ensures DistanceDecay(d1) >= DistanceDecay(d2)
  {
  }

  /** Halfway between 2 km and 10 km the decay is 1/2. */
  lemma DistanceDecayHalfway()
    ensures DistanceDecay(6.0) == 0.5
  {
  }

  /** The two comma-separated parts of a "lat,lng" location string. */
  datatype LatLng = LatLng(lat: string, lng: string)

  /**
    `calculateDistanceMatch(loc1, loc2)`: 0 unless both strings split on ','
    into exactly two parts; otherwise the decay of the great-circle distance
    `haversine` gives for the two coordinate pairs.
  */
  function DistanceMatch(loc1: string, loc2: string, haversine: (LatLng, LatLng) -> real): (score: real)
    ensures 0.0 <= score <= 1.0
    ensures Occurrences(loc1, ',') != 1 || Occurrences(loc2, ',') != 1 ==> score == 0.0
  {
    SplitOnSpec(loc1, ',');
    SplitOnSpec(loc2, ',');
    var coords1, coords2 := SplitOn(loc1, ','), SplitOn(loc2, ',');
    if |coords1| != 2 || |coords2| != 2 then 0.0
    else DistanceDecay(haversine(LatLng(coords1[0], coords1[1]), LatLng(coords2[0], coords2[1])))
  }

  // ---------------------------------------------------------------------------
  // GET_MATCHED_RIDES

  type ObjectId = nat

  /** The status of a ride that is open for matching. */
  const Active: string := "active"
  /** The status DELETE_RIDE gives a ride. */
  const Deleted: string := "deleted"

  /**
    A stored ride document: its `_id`, the owner, the free-text pickup and
    dropoff, the optional "lat,lng" location, its status, its creation time,
    and the other fields of the request that created it.
  */
  datatype Ride = Ride(
    oid: ObjectId,
    userId: string,
    pickup: Option<string>,
    dropoff: Option<string>,
    location: Option<string>,
    status: string,
    createdAt: int,
    details: map<string, string>)

  /** The `ride` body of a GET_MATCHED_RIDES request (`ride || {}`). */
  datatype RideQuery = RideQuery(pickup: Option<string>, dropoff: Option<string>, location: Option<string>)

  /** `{ ...r, id: r._id.toString(), matchScore: score }`. */
  datatype ScoredRide = ScoredRide(ride: Ride, matchScore: real) {
    /** The `id` field added to the record: its `_id`. */
    function Id(): ObjectId {
      ride.oid
    }
  }

  const PickupWeight: real := 40.0
  const DropoffWeight: real := 40.0
  const DistanceWeight: real := 20.0
  /** Rides must score strictly more than this to be returned. */
  const MatchThreshold: real := 30.0

  /** JavaScript truthiness of an optional string field: present and non-empty. */
  predicate Truthy(field: Option<string>)
    ensures Truthy(field) <==> field !in {None, Some("")}
  {
    field.Some? && field.value != ""
  }

  /** A text sub-score: the lower-cased location match when both sides are truthy, else 0. */
  function TextScore(wanted: Option<string>, offered: Option<string>, lower: string -> string): (score: real)
    ensures 0.0 <= score <= 1.0
    ensures !(Truthy(wanted) && Truthy(offered)) ==> score == 0.0
  {
    if Truthy(wanted) && Truthy(offered) then LocationMatch(lower(wanted.value), lower(offered.value))
    else 0.0
  }

  /** The distance sub-score: the distance match when both locations are truthy, else 0. */
  function GeoScore(wanted: Option<string>, offered: Option<string>, haversine: (LatLng, LatLng) -> real): (score: real)
    ensures 0.0 <= score <= 1.0
    ensures !(Truthy(wanted) && Truthy(offered)) ==> score == 0.0
  {
    if Truthy(wanted) && Truthy(offered) then DistanceMatch(wanted.value, offered.value, haversine)
    else 0.0
  }

  /**
    A ride's `matchScore`: 40 × pickup match + 40 × dropoff match + 20 ×
    distance match. It lies in [0, 100], and each weighted term is 0 unless
    both the query and the ride carry a non-empty value for it.
  */
  function RideScore(query: RideQuery, r: Ride, lower: string -> string, haversine: (LatLng, LatLng) -> real)
    : (score: real)
    ensures 0.0 <= score <= 100.0
    ensures !Truthy(query.location) || !Truthy(r.location) ==> score <= PickupWeight + DropoffWeight
    ensures (!Truthy(query.pickup) || !Truthy(r.pickup)) && (!Truthy(query.dropoff) || !Truthy(r.dropoff)) ==>
            score <= DistanceWeight
  {
    PickupWeight * TextScore(query.pickup, r.pickup, lower)
    + DropoffWeight * TextScore(query.dropoff, r.dropoff, lower)
    + DistanceWeight * GeoScore(query.location, r.location, haversine)
  }

  /** The `map` callback of GET_MATCHED_RIDES, accumulating `score` term by term. */
  method ScoreRide(query: RideQuery, r: Ride, lower: string -> string, haversine: (LatLng, LatLng) -> real)
    returns (scored: ScoredRide)
    ensures scored.ride == r
    ensures scored.matchScore == RideScore(query, r, lower, haversine)
    ensures 0.0 <= scored.matchScore <= 100.0
  {
    var score := 0.0;
    if Truthy(query.pickup) && Truthy(r.pickup) {
      var pickupMatch := CalculateLocationMatch(lower(query.pickup.value), lower(r.pickup.value));
      score := score + pickupMatch * PickupWeight;
    }
    if Truthy(query.dropoff) && Truthy(r.dropoff) {
      var dropoffMatch := CalculateLocationMatch(lower(query.dropoff.value), lower(r.dropoff.value));
      score := score + dropoffMatch * DropoffWeight;
    }
    if Truthy(query.location) && Truthy(r.location) {
      var distanceMatch := DistanceMatch(query.location.value, r.location.value, haversine);
      score := score + distanceMatch * DistanceWeight;
    }
    scored := ScoredRide(r, score);
  }

  /** `find({ status: 'active' })`: the active rides, in store order. */
  function ActiveRides(rides: seq<Ride>): (active: seq<Ride>)
    ensures |active| <= |rides|
    ensures forall i :: 0 <= i < |active| ==> active[i].status == Active
  {
    if rides == [] then []
    else (if rides[0].status == Active then [rides[0]] else []) + ActiveRides(rides[1..])
  }

  /** The `map` step: every ride with its match score, in order. */
  function ScoreAll(query: RideQuery, rides: seq<Ride>, lower: string -> string, haversine: (LatLng, LatLng) -> real)
    : (scored: seq<ScoredRide>)
    ensures |scored| == |rides|
    ensures forall i :: 0 <= i < |rides| ==>
              scored[i].ride == rides[i] && scored[i].matchScore == RideScore(query, rides[i], lower, haversine)
  {
    if rides == [] then []
    else [ScoredRide(rides[0], RideScore(query, rides[0], lower, haversine))]
         + ScoreAll(query, rides[1..], lower, haversine)
  }

  /** The `filter` step: the scored rides above the threshold, in order. */
  function AboveThreshold(scored: seq<ScoredRide>): (kept: seq<ScoredRide>)
    ensures |kept| <= |scored|
    ensures forall i :: 0 <= i < |kept| ==> kept[i].matchScore > MatchThreshold
  {
    if scored == [] then []
    else (if scored[0].matchScore > MatchThreshold then [scored[0]] else [])
         + AboveThreshold(scored[1..])
  }

  /** The sort key: `(a, b) => b.matchScore - a.matchScore` sorts by it, largest first. */
  function MatchScoreOf(s: ScoredRide): real {
    s.matchScore
  }

  /** GET_MATCHED_RIDES over a snapshot of the ride collection. */
  function MatchedRides(query: RideQuery, rides: seq<Ride>, lower: string -> string, haversine: (LatLng, LatLng) -> real)
    : (matched: seq<ScoredRide>)
    ensures |matched| <= |rides|
  {
    StableSort.SortDesc(AboveThreshold(ScoreAll(query, ActiveRides(rides), lower, haversine)), MatchScoreOf)
  }

  lemma {:induction false} ActiveRidesSpec(rides: seq<Ride>)
    ensures forall r :: r in ActiveRides(rides) <==> r in rides && r.status == Active
  {
    if rides != [] {
      ActiveRidesSpec(rides[1..]);
      assert rides == [rides[0]] + rides[1..];
    }
  }

  /**
    The candidate filter distributes over concatenation, so candidates keep
    the order they have in the store.
  */
  lemma {:induction false} ActiveRidesAppend(xs: seq<Ride>, ys: seq<Ride>)
    ensures ActiveRides(xs + ys) == ActiveRides(xs) + ActiveRides(ys)
  {
    if xs == [] {
      assert xs + ys == ys;
    } else {
      var head := if xs[0].status == Active then [xs[0]] else [];
      assert (xs + ys)[0] == xs[0];
      assert (xs + ys)[1..] == xs[1..] + ys;
      assert ActiveRides(xs + ys) == head + ActiveRides(xs[1..] + ys);
      ActiveRidesAppend(xs[1..], ys);
      assert ActiveRides(xs) == head + ActiveRides(xs[1..]);
      assert head + (ActiveRides(xs[1..]) + ActiveRides(ys)) == (head + ActiveRides(xs[1..])) + ActiveRides(ys);
    }
  }

  lemma {:induction false} ScoreAllSpec(query: RideQuery, rides: seq<Ride>, lower: string -> string,
                                        haversine: (LatLng, LatLng) -> real)
    ensures forall s :: s in ScoreAll(query, rides, lower, haversine) <==>
                        s.ride in rides && s.matchScore == RideScore(query, s.ride, lower, haversine)
  {
    if rides != [] {
      ScoreAllSpec(query, rides[1..], lower, haversine);
      assert rides == [rides[0]] + rides[1..];
    }
  }

  lemma {:induction false} AboveThresholdSpec(scored: seq<ScoredRide>)
    ensures forall s :: s in AboveThreshold(scored) <==> s in scored && s.matchScore > MatchThreshold
    ensures forall k :: StableSort.WithKey(AboveThreshold(scored), MatchScoreOf, k) ==
                        if k > MatchThreshold then StableSort.WithKey(scored, MatchScoreOf, k) else []
  {
    if scored != [] {
      AboveThresholdSpec(scored[1..]);
      assert scored == [scored[0]] + scored[1..];
      forall k
        ensures StableSort.WithKey(AboveThreshold(scored), MatchScoreOf, k) ==
                if k > MatchThreshold then StableSort.WithKey(scored, MatchScoreOf, k) else []
      {
        var head := if scored[0].matchScore > MatchThreshold then [scored[0]] else [];
        StableSort.WithKeyAppend(head, AboveThreshold(scored[1..]), MatchScoreOf, k);
      }
    }
  }

  /**
    What GET_MATCHED_RIDES returns: exactly the active rides whose score is
    above 30 (a score of exactly 30 is dropped), each the stored record with
    its score added; scores in (30, 100]; ordered by non-increasing score; a
    permutation of the filtered rides; and rides with equal scores in their
    store order.
  */
  lemma MatchedRidesSpec(query: RideQuery, rides: seq<Ride>, lower: string -> string,
                         haversine: (LatLng, LatLng) -> real)
    ensures forall s :: s in MatchedRides(query, rides, lower, haversine) <==>
              && s.ride in rides
              && s.ride.status == Active
              && s.matchScore == RideScore(query, s.ride, lower, haversine)
              && s.matchScore > MatchThreshold
    ensures forall s :: s in MatchedRides(query, rides, lower, haversine) ==>
              MatchThreshold < s.matchScore <= 100.0
    ensures StableSort.SortedDesc(MatchedRides(query, rides, lower, haversine), MatchScoreOf)
    ensures multiset(MatchedRides(query, rides, lower, haversine))
         == multiset(AboveThreshold(ScoreAll(query, ActiveRides(rides), lower, haversine)))
    ensures forall k :: k > MatchThreshold ==>
              (StableSort.WithKey(MatchedRides(query, rides, lower, haversine), MatchScoreOf, k)
               == StableSort.WithKey(ScoreAll(query, ActiveRides(rides), lower, haversine), MatchScoreOf, k))
  {
    var active := ActiveRides(rides);
    var scored := ScoreAll(query, active, lower, haversine);
    var kept := AboveThreshold(scored);
    var out := MatchedRides(query, rides, lower, haversine);
    ActiveRidesSpec(rides);
    ScoreAllSpec(query, active, lower, haversine);
    AboveThresholdSpec(scored);
    StableSort.SortDescSpec(kept, MatchScoreOf);
    forall s ensures s in out <==> s in kept {
      assert s in out <==> s in multiset(out);
      assert s in kept <==> s in multiset(kept);
    }
  }
}
