/** What the list of places says of each, in terms of the posts and the candidates alone. */
module PlaceFacts {
  import opened Wrappers
  import opened Sorting
  import opened EventRows
  import opened Places
  import G = Gazetteer

  /** Most posts first, and among as many the latest. */
  lemma PlacesInOrder(w: World, places: seq<Place>, i: nat, j: nat)
    requires IsPlaceList(w, places) && i < j < |places|
    ensures places[i].postCount >= places[j].postCount
    ensures places[i].postCount == places[j].postCount ==> places[i].lastSeen >= places[j].lastSeen
  {
    hide OfSomeKey, PlaceListed;
    assert PlaceOutranks(places[i], places[j]);
  }

  /** One post with both coordinates puts a place at the mean of those that have them. */
  lemma AtStoredMean(w: World, key: string, p: Place, r: Row)
    requires IsPlace(w, key, p) && r in Here(w, key) && r.lat.Some? && r.lng.Some?
    ensures
      var s := set x | x in Here(w, key) && x.lat.Some? && x.lng.Some?;
      && p.coords.Some? && !p.guessed && s != {}
      && p.coords.value.lat * |s| as real == Sum(s, LatOf) && p.coords.value.lng * |s| as real == Sum(s, LngOf)
  {
    hide StatsOf, Here;
    var s := set x | x in Here(w, key) && x.lat.Some? && x.lng.Some?;
    assert s == Stored(Here(w, key)) && r in s;
  }

  /** No post of the place has both coordinates. */
  ghost predicate Unlocated(w: World, key: string) {
    forall r :: r in Here(w, key) ==> r.lat.None? || r.lng.None?
  }

  lemma NoMean(w: World, key: string)
    requires Unlocated(w, key)
    ensures StoredMean(Here(w, key)) == None
  {
    hide Here;
    assert Stored(Here(w, key)) == {};
  }

  /** A name that only one city has is that city. */
  lemma AtOnlyCandidate(w: World, key: string, p: Place)
    requires IsPlace(w, key, p) && Unlocated(w, key) && |CandidatesFor(w.candidates, key)| == 1
    ensures p.coords == Some(CoordOf(CandidatesFor(w.candidates, key)[0])) && !p.guessed
  {
    hide StatsOf, StoredMean;
    NoMean(w, key);
  }

  /** `k` has ten times the population of every other candidate, and a thousand if no other has any. */
  ghost predicate TenTimes(cs: seq<G.Candidate>, k: nat) {
    && k < |cs| && cs[k].population > 0
    && (forall i :: 0 <= i < |cs| && i != k ==> cs[k].population >= 10 * cs[i].population)
    && ((forall i :: 0 <= i < |cs| && i != k ==> cs[i].population <= 0) ==> cs[k].population >= 1000)
  }

  lemma TenTimesIff(cs: seq<G.Candidate>, k: nat)
    ensures Dominates(cs, k) <==> TenTimes(cs, k)
  {
  }

  lemma DominantIs(cs: seq<G.Candidate>, k: nat)
    requires TenTimes(cs, k)
    ensures Dominant(cs) == Some(CoordOf(cs[k]))
  {
    TenTimesIff(cs, k);
    var j: nat :| Dominates(cs, j) && Dominant(cs) == Some(CoordOf(cs[j]));
    TenTimesIff(cs, j);
    OneTenTimes(cs, j, k);
  }

  lemma OneTenTimes(cs: seq<G.Candidate>, j: nat, k: nat)
    requires TenTimes(cs, j) && TenTimes(cs, k)
    ensures j == k
  {
  }

  /**
   One that much larger is the place if it is within 200 kilometres of the centre of the places that are
   certain, or if none is.
   */
  lemma AtDominant(w: World, key: string, p: Place, k: nat)
    requires IsPlace(w, key, p) && Unlocated(w, key)
    requires
      var cs := CandidatesFor(w.candidates, key);
      |cs| > 1 && TenTimes(cs, k)
      && (CertainAnchors(w) != {} ==> w.distance(CoordOf(cs[k]), Centroid(CertainAnchors(w))) <= 200.0)
    ensures p.coords == Some(CoordOf(CandidatesFor(w.candidates, key)[k])) && !p.guessed
  {
    hide StatsOf, StoredMean, Dominant, CertainAnchors, Centroid, Anchors;
    NoMean(w, key);
    DominantIs(CandidatesFor(w.candidates, key), k);
  }

  /** One of several names that no dominant candidate settles. */
  ghost predicate Ambiguous(w: World, key: string) {
    var cs := CandidatesFor(w.candidates, key);
    && Unlocated(w, key) && |cs| > 1
    && forall k: nat :: TenTimes(cs, k) ==>
         CertainAnchors(w) != {} && w.distance(CoordOf(cs[k]), Centroid(CertainAnchors(w))) > 200.0
  }

  lemma AmbiguousOpen(w: World, key: string)
    requires Ambiguous(w, key)
    ensures Anchored(w, key) == None
  {
    hide StoredMean, CertainAnchors, Centroid;
    NoMean(w, key);
    var cs := CandidatesFor(w.candidates, key);
    if Dominant(cs).Some? {
      var k :| Dominates(cs, k) && Dominant(cs) == Some(CoordOf(cs[k]));
      TenTimesIff(cs, k);
    }
  }

  /** Otherwise it is a candidate with none nearer to the centre of the anchors. */
  lemma AtNearest(w: World, key: string, p: Place)
    requires IsPlace(w, key, p) && Ambiguous(w, key) && Anchors(w) != {}
    ensures !p.guessed
    ensures exists c ::
              && c in CandidatesFor(w.candidates, key) && p.coords == Some(CoordOf(c))
              && forall d :: d in CandidatesFor(w.candidates, key) ==>
                   w.distance(CoordOf(c), Centroid(Anchors(w))) <= w.distance(CoordOf(d), Centroid(Anchors(w)))
  {
    hide StatsOf, Anchored, Anchors, Centroid;
    AmbiguousOpen(w, key);
    var cs := CandidatesFor(w.candidates, key);
    var k :| 0 <= k < |cs| && Nearest(cs, k, Centroid(Anchors(w)), w.distance) && p.coords == Some(CoordOf(cs[k]));
    assert cs[k] in cs;
  }

  /** Or, without any anchor, one with none more populous; and that is a guess. */
  lemma AtMostPopulous(w: World, key: string, p: Place)
    requires IsPlace(w, key, p) && Ambiguous(w, key) && Anchors(w) == {}
    ensures p.guessed
    ensures exists c ::
              && c in CandidatesFor(w.candidates, key) && p.coords == Some(CoordOf(c))
              && forall d :: d in CandidatesFor(w.candidates, key) ==> d.population <= c.population
  {
    hide StatsOf, Anchored, Anchors, Centroid;
    AmbiguousOpen(w, key);
    var cs := CandidatesFor(w.candidates, key);
    var k :| 0 <= k < |cs| && MostPopulous(cs, k) && p.coords == Some(CoordOf(cs[k]));
    assert cs[k] in cs;
  }
}
