/**
 The places a group has posted from: what each says, and where on the map each is put, from what the
 group itself knows before any guess. Coordinates are real numbers; their distance is a parameter.
 */
module Places {
  import opened Wrappers
  import opened Sorting
  import opened EventRows
  import opened EventHome
  import opened EventBuild
  import G = Gazetteer
  import T = Text

  const ANCHOR_RATIO: int := 10
  const ANCHOR_MAX_DISTANCE: real := 200.0
  const ANCHOR_MIN_POPULATION: int := 1000

  datatype Coord = Coord(lat: real, lng: real)

  datatype Place = Place(
    location: string, coords: Option<Coord>, guessed: bool, postCount: nat, photoCount: int, posterCount: nat,
    firstSeen: int, lastSeen: int, coverMediaId: Option<int>, homeArea: bool)

  /** Everything the list is made from. A location the gazetteer was not asked about has no candidates. */
  datatype World = World(
    rows: set<Row>, cutoff: int, norm: Norm, candidates: map<string, seq<G.Candidate>>,
    distance: (Coord, Coord) -> real)

  ghost function Keys(w: World): set<string> {
    set r | r in w.rows :: w.norm(r.location)
  }

  ghost function Here(w: World, key: string): set<Row> {
    RowsAt(w.rows, key, w.norm)
  }

  function CandidatesFor(candidates: map<string, seq<G.Candidate>>, key: string): seq<G.Candidate> {
    if key in candidates then candidates[key] else []
  }

  function CoordOf(c: G.Candidate): Coord {
    Coord(c.lat, c.lng)
  }

  // ---------- sums in no particular order ----------

  ghost function Sum<T(!new)>(s: set<T>, f: T -> real): real {
    if s == {} then 0.0 else
      var x :| x in s;
      f(x) + Sum(s - {x}, f)
  }

  lemma {:induction false} SumWithout<T(!new)>(s: set<T>, f: T -> real, x: T)
    requires x in s
    ensures Sum(s, f) == f(x) + Sum(s - {x}, f)
    decreases |s|
  {
    var y :| y in s && Sum(s, f) == f(y) + Sum(s - {y}, f);
    if x != y {
      SumWithout(s - {y}, f, x);
      SumWithout(s - {x}, f, y);
      assert s - {y} - {x} == s - {x} - {y};
    }
  }

  lemma {:induction false} SumWith<T(!new)>(s: set<T>, f: T -> real, x: T)
    requires x !in s
    ensures Sum(s + {x}, f) == Sum(s, f) + f(x)
  {
    SumWithout(s + {x}, f, x);
    assert s + {x} - {x} == s;
  }

  // ---------- coordinates from the posts ----------

  function LatOf(r: Row): real {
    if r.lat.Some? then r.lat.value else 0.0
  }

  function LngOf(r: Row): real {
    if r.lng.Some? then r.lng.value else 0.0
  }

  function PhotosOf(r: Row): real {
    r.photoCount as real
  }

  predicate Stores(r: Row) {
    r.lat.Some? && r.lng.Some?
  }

  ghost function Stored(rows: set<Row>): set<Row> {
    set r | r in rows && Stores(r)
  }

  /** The mean of the coordinates stored with the posts. */
  ghost function StoredMean(rows: set<Row>): Option<Coord> {
    var s := Stored(rows);
    if s == {} then None else Some(Coord(Sum(s, LatOf) / |s| as real, Sum(s, LngOf) / |s| as real))
  }

  // ---------- anchors ----------

  /** One candidate has ten times the population of any other, and a real one if the others have none. */
  predicate Dominates(cs: seq<G.Candidate>, k: int) {
    && 0 <= k < |cs| && cs[k].population > 0
    && (forall i :: 0 <= i < |cs| && i != k ==> cs[k].population >= ANCHOR_RATIO * cs[i].population)
    && (cs[k].population >= ANCHOR_MIN_POPULATION || exists i :: 0 <= i < |cs| && i != k && cs[i].population > 0)
  }

  ghost function Dominant(cs: seq<G.Candidate>): Option<Coord> {
    if k :| Dominates(cs, k) then Some(CoordOf(cs[k])) else None
  }

  /** An anchor: a place the group is known to have been at. */
  datatype Anchor = Anchor(key: string, at: Coord)

  function AnchorLat(a: Anchor): real {
    a.at.lat
  }

  function AnchorLng(a: Anchor): real {
    a.at.lng
  }

  ghost function Centroid(anchors: set<Anchor>): Coord
    requires anchors != {}
  {
    Coord(Sum(anchors, AnchorLat) / |anchors| as real, Sum(anchors, AnchorLng) / |anchors| as real)
  }

  /** Resolved from the posts' own coordinates, or by a name only one city has. */
  ghost function Certain(w: World, key: string): Option<Coord> {
    var mean, cs := StoredMean(Here(w, key)), CandidatesFor(w.candidates, key);
    if mean.Some? then mean
    else if |cs| == 1 then Some(CoordOf(cs[0]))
    else None
  }

  ghost function CertainAnchors(w: World): set<Anchor> {
    set k | k in Keys(w) && Certain(w, k).Some? :: Anchor(k, Certain(w, k).value)
  }

  /** Trusted near the certain anchors, or outright when there are none. */
  ghost predicate Trusted(w: World, at: Coord) {
    CertainAnchors(w) != {} ==> w.distance(at, Centroid(CertainAnchors(w))) <= ANCHOR_MAX_DISTANCE
  }

  /** Resolved in the first two passes: certainly, or by a dominant candidate that is trusted. */
  ghost function Anchored(w: World, key: string): Option<Coord> {
    var cs := CandidatesFor(w.candidates, key);
    if Certain(w, key).Some? then Certain(w, key)
    else if |cs| > 1 && Dominant(cs).Some? && Trusted(w, Dominant(cs).value) then Dominant(cs)
    else None
  }

  ghost function Anchors(w: World): set<Anchor> {
    set k | k in Keys(w) && Anchored(w, k).Some? :: Anchor(k, Anchored(w, k).value)
  }

  // ---------- what is left ----------

  /** The first of the candidates closest to `target`. */
  predicate Nearest(cs: seq<G.Candidate>, k: int, target: Coord, distance: (Coord, Coord) -> real) {
    && 0 <= k < |cs|
    && (forall i :: 0 <= i < |cs| ==> distance(CoordOf(cs[k]), target) <= distance(CoordOf(cs[i]), target))
    && (forall i :: 0 <= i < k ==> distance(CoordOf(cs[k]), target) < distance(CoordOf(cs[i]), target))
  }

  /** The first of the most populous candidates. */
  predicate MostPopulous(cs: seq<G.Candidate>, k: int) {
    && 0 <= k < |cs|
    && (forall i :: 0 <= i < |cs| ==> cs[i].population <= cs[k].population)
    && (forall i :: 0 <= i < k ==> cs[i].population < cs[k].population)
  }

  /** Where a place is put, and whether that is only a guess. */
  ghost predicate Resolved(w: World, key: string, coords: Option<Coord>, guessed: bool) {
    var cs := CandidatesFor(w.candidates, key);
    if Anchored(w, key).Some? then coords == Anchored(w, key) && !guessed
    else if cs == [] then coords == None && !guessed
    else if Anchors(w) != {} then
      && !guessed
      && exists k :: 0 <= k < |cs| && Nearest(cs, k, Centroid(Anchors(w)), w.distance) && coords == Some(CoordOf(cs[k]))
    else guessed && exists k :: 0 <= k < |cs| && MostPopulous(cs, k) && coords == Some(CoordOf(cs[k]))
  }

  lemma ResolvedUnique(w: World, key: string, a: Option<Coord>, g: bool, b: Option<Coord>, h: bool)
    requires Resolved(w, key, a, g) && Resolved(w, key, b, h)
    ensures a == b && g == h
  {
    hide Anchored, Anchors, Nearest, MostPopulous, Centroid;
    var cs := CandidatesFor(w.candidates, key);
    if Anchored(w, key).None? && cs != [] {
      if Anchors(w) != {} {
        var target := Centroid(Anchors(w));
        var j :| 0 <= j < |cs| && Nearest(cs, j, target, w.distance) && a == Some(CoordOf(cs[j]));
        var k :| 0 <= k < |cs| && Nearest(cs, k, target, w.distance) && b == Some(CoordOf(cs[k]));
        NearestUnique(cs, j, k, target, w.distance);
      } else {
        var j :| 0 <= j < |cs| && MostPopulous(cs, j) && a == Some(CoordOf(cs[j]));
        var k :| 0 <= k < |cs| && MostPopulous(cs, k) && b == Some(CoordOf(cs[k]));
        MostPopulousUnique(cs, j, k);
      }
    }
  }

  lemma NearestUnique(cs: seq<G.Candidate>, j: int, k: int, target: Coord, distance: (Coord, Coord) -> real)
    requires Nearest(cs, j, target, distance) && Nearest(cs, k, target, distance)
    ensures j == k
  {
    var a, b := distance(CoordOf(cs[j]), target), distance(CoordOf(cs[k]), target);
    assert a <= b && b <= a;
  }

  lemma MostPopulousUnique(cs: seq<G.Candidate>, j: int, k: int)
    requires MostPopulous(cs, j) && MostPopulous(cs, k)
    ensures j == k
  {
    assert cs[j].population <= cs[k].population <= cs[j].population;
  }

  // ---------- one place, and the list ----------

  ghost predicate FirstSeen(rows: set<Row>, at: int) {
    (exists r :: r in rows && r.createdAt == at) && forall r :: r in rows ==> at <= r.createdAt
  }

  ghost predicate LastSeen(rows: set<Row>, at: int) {
    (exists r :: r in rows && r.createdAt == at) && forall r :: r in rows ==> r.createdAt <= at
  }

  /** Everything a place says but its coordinates. */
  ghost predicate StatsOf(rows: set<Row>, home: bool, p: Place) {
    && IsMostCommon(LocationCounts(rows), p.location)
    && p.postCount == |rows|
    && p.photoCount as real == Sum(rows, PhotosOf)
    && p.posterCount == |AuthorsOf(rows)|
    && FirstSeen(rows, p.firstSeen) && LastSeen(rows, p.lastSeen)
    && IsCover(rows, p.coverMediaId)
    && p.homeArea == home
  }

  ghost predicate IsPlace(w: World, key: string, p: Place) {
    && StatsOf(Here(w, key), HomeArea(w.rows, w.cutoff, key, w.norm), p)
    && Resolved(w, key, p.coords, p.guessed)
  }

  lemma StatsUnique(rows: set<Row>, home: bool, a: Place, b: Place)
    requires StatsOf(rows, home, a) && StatsOf(rows, home, b)
    ensures a == b.(coords := a.coords, guessed := a.guessed)
  {
    hide IsMostCommon, LocationCounts, IsCover, Sum;
    MostCommonUnique(LocationCounts(rows), a.location, b.location);
    CoverUnique(rows, a.coverMediaId, b.coverMediaId);
  }

  lemma PlaceUnique(w: World, key: string, a: Place, b: Place)
    requires IsPlace(w, key, a) && IsPlace(w, key, b)
    ensures a == b
  {
    hide StatsOf, Resolved;
    StatsUnique(Here(w, key), HomeArea(w.rows, w.cutoff, key, w.norm), a, b);
    ResolvedUnique(w, key, a.coords, a.guessed, b.coords, b.guessed);
  }

  /** What a place shows is one of its own posts' location strings. */
  lemma PlaceKey(w: World, key: string, p: Place)
    requires IsPlace(w, key, p)
    ensures w.norm(p.location) == key
  {
    hide IsCover, Sum, Resolved, HomeArea;
    assert p.location in LocationCounts(Here(w, key));
  }

  /** Most posts first, then the latest, then by name. */
  predicate PlaceOutranks(a: Place, b: Place) {
    if a.postCount != b.postCount then a.postCount > b.postCount
    else if a.lastSeen != b.lastSeen then a.lastSeen > b.lastSeen
    else T.Less(a.location, b.location)
  }

  lemma PlaceOrder()
    ensures WeakOrder(PlaceOutranks)
    ensures forall a, b :: PlaceOutranks(a, b) || PlaceOutranks(b, a) || a.location == b.location
  {
    hide T.Less;
    T.LessIsOrder();
  }

  ghost predicate PlaceListed(w: World, places: seq<Place>, key: string) {
    exists p :: p in places && IsPlace(w, key, p)
  }

  ghost predicate OfSomeKey(w: World, p: Place) {
    exists key :: key in Keys(w) && IsPlace(w, key, p)
  }

  /** The places of a world in strict order: one for each location, and no other. */
  ghost predicate IsPlaceList(w: World, places: seq<Place>) {
    && StrictlySorted(places, PlaceOutranks)
    && (forall p :: p in places ==> OfSomeKey(w, p))
    && (forall key :: key in Keys(w) ==> PlaceListed(w, places, key))
  }

  // ---------- what the list says ----------

  lemma PlaceInList(w: World, places: seq<Place>, p: Place)
    requires IsPlaceList(w, places)
    ensures p in places <==> OfSomeKey(w, p)
  {
    hide IsPlace, Keys, PlaceOutranks;
    if OfSomeKey(w, p) {
      var key :| key in Keys(w) && IsPlace(w, key, p);
      assert PlaceListed(w, places, key);
      var q :| q in places && IsPlace(w, key, q);
      PlaceUnique(w, key, p, q);
    }
  }

  /** A world has one list of places. */
  lemma PlaceListUnique(w: World, a: seq<Place>, b: seq<Place>)
    requires IsPlaceList(w, a) && IsPlaceList(w, b)
    ensures a == b
  {
    hide PlaceOutranks, OfSomeKey, PlaceListed, Keys;
    PlaceOrder();
    forall p ensures p in a <==> p in b {
      PlaceInList(w, a, p);
      PlaceInList(w, b, p);
    }
    assert Distinct(a) && Distinct(b) by {
      forall i, j | 0 <= i < j < |a| ensures a[i] != a[j] {
        assert PlaceOutranks(a[i], a[j]) && !PlaceOutranks(a[j], a[i]);
      }
      forall i, j | 0 <= i < j < |b| ensures b[i] != b[j] {
        assert PlaceOutranks(b[i], b[j]) && !PlaceOutranks(b[j], b[i]);
      }
    }
    DistinctCounts(a);
    DistinctCounts(b);
    assert multiset(a) == multiset(b) by {
      forall p ensures multiset(a)[p] == multiset(b)[p] {
        assert p in a <==> p in b;
      }
    }
    SortedUnique(a, b, PlaceOutranks);
  }

  /** Reading the posts in another order gives the same list. */
  lemma OrderIndependent(rows: seq<Row>, shuffled: seq<Row>, w: World, a: seq<Place>, b: seq<Place>)
    requires multiset(rows) == multiset(shuffled)
    requires IsPlaceList(w.(rows := Elements(rows)), a) && IsPlaceList(w.(rows := Elements(shuffled)), b)
    ensures a == b
  {
    hide IsPlaceList;
    SameElements(rows, shuffled);
    assert Elements(rows) == Elements(shuffled);
    PlaceListUnique(w.(rows := Elements(rows)), a, b);
  }

  function SumCounts(places: seq<Place>): nat {
    if places == [] then 0 else SumCounts(places[..|places| - 1]) + places[|places| - 1].postCount
  }

  ghost function Covered(w: World, places: seq<Place>): set<Row> {
    set r | r in w.rows && exists p :: p in places && w.norm(p.location) == w.norm(r.location)
  }

  lemma {:induction false} CoveredCount(w: World, places: seq<Place>)
    requires forall p :: p in places ==> OfSomeKey(w, p)
    requires forall i, j :: 0 <= i < j < |places| ==> w.norm(places[i].location) != w.norm(places[j].location)
    ensures SumCounts(places) == |Covered(w, places)|
  {
    hide IsPlace, Here, Keys, Covered;
    if places == [] {
      NothingCovered(w);
    } else {
      var init, last := places[..|places| - 1], places[|places| - 1];
      CoveredCount(w, init);
      assert last in places && OfSomeKey(w, last);
      var key :| key in Keys(w) && IsPlace(w, key, last);
      PlaceKey(w, key, last);
      PlaceCount(w, key, last);
      assert places == init + [last];
      CoverOnePlace(w, init, last);
    }
  }

  lemma NothingCovered(w: World)
    ensures Covered(w, []) == {}
  {
  }

  lemma PlaceCount(w: World, key: string, p: Place)
    requires IsPlace(w, key, p)
    ensures p.postCount == |Here(w, key)|
  {
    hide IsMostCommon, IsCover, Sum, FirstSeen, LastSeen, Here, HomeArea, Resolved;
  }

  lemma CoverOnePlace(w: World, init: seq<Place>, last: Place)
    requires forall p :: p in init ==> w.norm(p.location) != w.norm(last.location)
    ensures Covered(w, init + [last]) == Covered(w, init) + Here(w, w.norm(last.location))
    ensures Covered(w, init) !! Here(w, w.norm(last.location))
  {
    assert last in init + [last];
  }

  lemma PlacesApart(w: World, places: seq<Place>)
    requires IsPlaceList(w, places)
    ensures forall p :: p in places ==> OfSomeKey(w, p)
    ensures forall i, j :: 0 <= i < j < |places| ==> w.norm(places[i].location) != w.norm(places[j].location)
  {
    hide IsPlace, PlaceOutranks, PlaceListed, Keys;
    PlaceOrder();
    forall i, j | 0 <= i < j < |places| ensures w.norm(places[i].location) != w.norm(places[j].location) {
      assert places[i] in places && places[j] in places && PlaceOutranks(places[i], places[j]);
      var x :| x in Keys(w) && IsPlace(w, x, places[i]);
      var y :| y in Keys(w) && IsPlace(w, y, places[j]);
      PlaceKey(w, x, places[i]);
      PlaceKey(w, y, places[j]);
      if x == y {
        PlaceUnique(w, x, places[i], places[j]);
      }
    }
  }

  lemma EveryPostCovered(w: World, places: seq<Place>)
    requires IsPlaceList(w, places)
    ensures Covered(w, places) == w.rows
  {
    hide IsPlace, PlaceOutranks, OfSomeKey;
    forall r | r in w.rows ensures exists p :: p in places && w.norm(p.location) == w.norm(r.location) {
      var key := w.norm(r.location);
      assert key in Keys(w) && PlaceListed(w, places, key);
      var p :| p in places && IsPlace(w, key, p);
      PlaceKey(w, key, p);
    }
  }

  /** The post counts add up to the number of posts. */
  lemma {:induction false} PostsConserved(w: World, places: seq<Place>)
    requires IsPlaceList(w, places)
    ensures SumCounts(places) == |w.rows|
  {
    hide IsPlaceList, OfSomeKey, Covered;
    PlacesApart(w, places);
    CoveredCount(w, places);
    EveryPostCovered(w, places);
  }

  /**
   Coordinates exactly where posts store them or the gazetteer has a candidate: the posts' mean, or a
   candidate of the place's own.
   */
  lemma CoordsGrounded(w: World, key: string, p: Place)
    requires IsPlace(w, key, p)
    ensures
      var mean, cs := StoredMean(Here(w, key)), CandidatesFor(w.candidates, key);
      && (p.coords.Some? <==> mean.Some? || cs != [])
      && (mean.Some? ==> p.coords == mean && !p.guessed)
      && (mean.None? && p.coords.Some? ==> exists c :: c in cs && p.coords == Some(CoordOf(c)))
  {
    hide StatsOf, StoredMean, Centroid, CertainAnchors, Anchors, Trusted;
    var cs := CandidatesFor(w.candidates, key);
    if Dominant(cs).Some? {
      var k :| Dominates(cs, k) && Dominant(cs) == Some(CoordOf(cs[k]));
      assert cs[k] in cs;
    }
  }

  /** A guess is made only when no place of the list has coordinates that are not guessed. */
  lemma GuessOnlyWithoutAnchors(w: World, places: seq<Place>, p: Place, q: Place)
    requires IsPlaceList(w, places) && p in places && q in places
    requires p.guessed && q.coords.Some?
    ensures q.guessed
  {
    hide StatsOf, Anchored, Anchors, Centroid, PlaceOutranks, PlaceListed, Keys;
    var x :| x in Keys(w) && IsPlace(w, x, p);
    var y :| y in Keys(w) && IsPlace(w, y, q);
    if Anchored(w, y).Some? {
      AnchoredIn(w, y);
    }
  }

  lemma AnchoredIn(w: World, key: string)
    requires key in Keys(w) && Anchored(w, key).Some?
    ensures Anchors(w) != {}
  {
    hide Anchored;
    assert Anchor(key, Anchored(w, key).value) in Anchors(w);
  }

  /** A place is guessed exactly when no location at all is anchored and it has candidates. */
  lemma GuessedIff(w: World, key: string, p: Place)
    requires IsPlace(w, key, p) && key in Keys(w)
    ensures p.guessed <==> Anchors(w) == {} && CandidatesFor(w.candidates, key) != []
  {
    hide StatsOf, Anchored, Anchors, Centroid, Keys;
    if Anchored(w, key).Some? {
      AnchoredIn(w, key);
    }
  }
}

/** Building the list of places: three passes over their coordinates, each from what the last one settled. */
module PlaceBuild {
  import opened Wrappers
  import opened Sorting
  import opened EventRows
  import opened EventHome
  import opened EventBuild
  import opened Places
  import opened PlaceStats
  import G = Gazetteer

  // ---------- the three passes ----------

  /** A place waiting for the anchors of the others. */
  datatype Pending = Pending(index: nat, candidates: seq<G.Candidate>)

  /** Where each pass leaves a place: resolved by the certain anchors, or by those and the dominant candidates. */
  ghost function Settled(w: World, key: string, second: bool): Option<Coord> {
    if second then Anchored(w, key) else Certain(w, key)
  }

  ghost predicate PlaceAfter(w: World, key: string, p: Place, second: bool) {
    && StatsOf(Here(w, key), HomeArea(w.rows, w.cutoff, key, w.norm), p)
    && p.coords == Settled(w, key, second) && !p.guessed
  }

  ghost predicate Open(w: World, key: string, second: bool) {
    Settled(w, key, second).None? && |CandidatesFor(w.candidates, key)| > 1
  }

  ghost predicate WaitsAt(pending: seq<Pending>, i: nat) {
    exists j :: 0 <= j < |pending| && pending[j].index == i
  }

  /** The open places among the first `n`, in order. */
  ghost predicate Waiting(w: World, order: seq<string>, n: nat, pending: seq<Pending>, second: bool)
    requires n <= |order|
  {
    && (forall j :: 0 <= j < |pending| ==>
          pending[j].index < n && pending[j].candidates == CandidatesFor(w.candidates, order[pending[j].index]))
    && (forall j, k :: 0 <= j < k < |pending| ==> pending[j].index < pending[k].index)
    && (forall i :: 0 <= i < n ==> (Open(w, order[i], second) <==> WaitsAt(pending, i)))
  }

  lemma WaitingNext(w: World, order: seq<string>, n: nat, pending: seq<Pending>, second: bool)
    requires n < |order| && Waiting(w, order, n, pending, second)
    ensures Waiting(w, order, n + 1,
              if Open(w, order[n], second) then pending + [Pending(n, CandidatesFor(w.candidates, order[n]))]
              else pending, second)
  {
    hide Open, CandidatesFor, WaitsAt;
    var pl := Pending(n, CandidatesFor(w.candidates, order[n]));
    forall i ensures WaitsAt(pending + [pl], i) <==> WaitsAt(pending, i) || i == n {
      WaitsAppend(pending, pl, i);
    }
    NotYet(pending, n);
  }

  lemma WaitsAppend(pending: seq<Pending>, pl: Pending, i: nat)
    ensures WaitsAt(pending + [pl], i) <==> WaitsAt(pending, i) || i == pl.index
  {
    var more := pending + [pl];
    assert more[|pending|] == pl;
    if j :| 0 <= j < |pending| && pending[j].index == i {
      assert more[j].index == i;
    }
  }

  lemma NotYet(pending: seq<Pending>, n: nat)
    requires forall j :: 0 <= j < |pending| ==> pending[j].index < n
    ensures !WaitsAt(pending, n)
  {
  }

  ghost function CertainAmong(w: World, keys: set<string>): set<Anchor> {
    set k | k in keys && Certain(w, k).Some? :: Anchor(k, Certain(w, k).value)
  }

  ghost function KeysOf(order: seq<string>): set<string> {
    set k | k in order
  }

  lemma CertainOne(w: World, keys: set<string>, key: string)
    requires key !in keys
    ensures CertainAmong(w, keys + {key}) ==
              if Certain(w, key).Some? then CertainAmong(w, keys) + {Anchor(key, Certain(w, key).value)}
              else CertainAmong(w, keys)
    ensures forall at :: Anchor(key, at) !in CertainAmong(w, keys)
  {
    hide Certain;
    var was, now := CertainAmong(w, keys), CertainAmong(w, keys + {key});
    if Certain(w, key).Some? {
      assert now == was + {Anchor(key, Certain(w, key).value)};
    } else {
      assert now == was;
    }
  }

  lemma CertainCases(w: World, key: string, mean: Option<Coord>)
    requires mean == StoredMean(Here(w, key))
    ensures
      var cs := CandidatesFor(w.candidates, key);
      && Certain(w, key) == (if mean.Some? then mean else if |cs| == 1 then Some(CoordOf(cs[0])) else None)
      && (Open(w, key, false) <==> mean.None? && |cs| > 1)
  {
  }

  lemma StatsKept(rows: set<Row>, home: bool, p: Place, coords: Option<Coord>, guessed: bool)
    requires StatsOf(rows, home, p)
    ensures StatsOf(rows, home, p.(coords := coords, guessed := guessed))
  {
    hide IsMostCommon, LocationCounts, Sum, FirstSeen, LastSeen, IsCover;
  }

  /** The rows of a group are the posts of its place. */
  lemma GroupIsHere(rows: seq<Row>, w: World, order: seq<string>, groups: map<string, seq<Row>>, key: string)
    requires Grouped(rows, w.norm, order, groups) && w.rows == Elements(rows) && DistinctPosts(rows) && key in order
    ensures key in groups && groups[key] != [] && Elements(groups[key]) == Here(w, key) && DistinctPosts(groups[key])
  {
    AtPlaceDistinct(rows, key, w.norm);
  }

  lemma OrderKeys(rows: seq<Row>, w: World, order: seq<string>, groups: map<string, seq<Row>>)
    requires Grouped(rows, w.norm, order, groups) && w.rows == Elements(rows)
    ensures KeysOf(order) == Keys(w)
  {
    forall k ensures k in order <==> k in Keys(w) {
      if k in Keys(w) {
        var r :| r in w.rows && w.norm(r.location) == k;
        assert HasPlace(rows, k, w.norm);
      }
      if k in order {
        assert HasPlace(rows, k, w.norm);
        var r :| r in rows && w.norm(r.location) == k;
        assert r in w.rows;
      }
    }
  }

  lemma NoneSettled(w: World, order: seq<string>)
    ensures Waiting(w, order, 0, [], false) && SameAnchors([], CertainAmong(w, {}))
  {
  }

  method PassOne(places: array<Place>, order: seq<string>, groups: map<string, seq<Row>>, homeArea: set<string>,
                 candidates: map<string, seq<G.Candidate>>, ghost rows: seq<Row>, ghost w: World)
    returns (anchors: seq<Coord>, pending: seq<Pending>)
    requires places.Length == |order| && candidates == w.candidates
    requires Grouped(rows, w.norm, order, groups) && w.rows == Elements(rows) && DistinctPosts(rows)
    requires forall key :: key in homeArea <==> HomeArea(w.rows, w.cutoff, key, w.norm)
    modifies places
    ensures forall i :: 0 <= i < |order| ==> PlaceAfter(w, order[i], places[i], false)
    ensures Waiting(w, order, |order|, pending, false)
    ensures SameAnchors(anchors, CertainAmong(w, KeysOf(order)))
  {
    hide Grouped, Elements, DistinctBy, StatsOf, StoredMean, Certain, CertainAmong, SameAnchors, Waiting, HomeArea,
         Open, CandidatesFor, Here;
    anchors, pending := [], [];
    NoneSettled(w, order);
    ghost var keys: set<string> := {};
    OrderDistinct(rows, w, order, groups);
    for i := 0 to |order|
      invariant forall j :: 0 <= j < i ==> PlaceAfter(w, order[j], places[j], false)
      invariant Waiting(w, order, i, pending, false)
      invariant keys == KeysOf(order[..i]) && SameAnchors(anchors, CertainAmong(w, keys))
    {
      var key := order[i];
      GroupIsHere(rows, w, order, groups, key);
      assert order[..i + 1] == order[..i] + [key];
      assert key !in keys;
      CertainOne(w, keys, key);
      WaitingNext(w, order, i, pending, false);
      keys := keys + {key};
      var groupRows := groups[key];
      var stats := BuildPlaceStats(groupRows, key in homeArea);
      var p := stats;
      var mean := AverageStoredCoords(groupRows);
      CertainCases(w, key, mean);
      if mean.Some? {
        MoreAnchors(anchors, CertainAmong(w, keys - {key}), Anchor(key, mean.value)) by {
          assert keys - {key} == KeysOf(order[..i]);
        }
        anchors := anchors + [mean.value];
        p := p.(coords := mean);
      } else {
        var cs := CandidatesFor(candidates, key);
        if |cs| == 1 {
          MoreAnchors(anchors, CertainAmong(w, keys - {key}), Anchor(key, CoordOf(cs[0]))) by {
            assert keys - {key} == KeysOf(order[..i]);
          }
          p := p.(coords := Some(CoordOf(cs[0])));
          anchors := anchors + [CoordOf(cs[0])];
        } else if |cs| > 1 {
          pending := pending + [Pending(i, cs)];
        }
      }
      StatsKept(Here(w, key), key in homeArea, stats, p.coords, p.guessed);
      places[i] := p;
    }
    assert order[..|order|] == order;
  }

  lemma OrderDistinct(rows: seq<Row>, w: World, order: seq<string>, groups: map<string, seq<Row>>)
    requires Grouped(rows, w.norm, order, groups)
    ensures Distinct(order)
  {
  }

  // ---------- passes two and three ----------

  /** The anchors added for the places among `keys` that only a dominant candidate settles. */
  ghost function DominantAmong(w: World, keys: set<string>): set<Anchor> {
    set k | k in keys && Certain(w, k).None? && Anchored(w, k).Some? :: Anchor(k, Anchored(w, k).value)
  }

  lemma DominantOne(w: World, keys: set<string>, key: string)
    requires key !in keys && Certain(w, key).None?
    ensures
      var was, now := CertainAnchors(w) + DominantAmong(w, keys), CertainAnchors(w) + DominantAmong(w, keys + {key});
      && now == (if Anchored(w, key).Some? then was + {Anchor(key, Anchored(w, key).value)} else was)
      && forall at :: Anchor(key, at) !in was
  {
    hide Certain, Anchored;
    var was, now := DominantAmong(w, keys), DominantAmong(w, keys + {key});
    if Anchored(w, key).Some? {
      assert now == was + {Anchor(key, Anchored(w, key).value)};
    } else {
      assert now == was;
    }
  }

  /** All anchors: the certain ones and those of the places that waited. */
  lemma AllAnchors(w: World, keys: set<string>)
    requires keys <= Keys(w)
    requires forall k :: k in Keys(w) && Open(w, k, false) ==> k in keys
    ensures CertainAnchors(w) + DominantAmong(w, keys) == Anchors(w)
  {
    hide Keys, Dominant, Trusted, StoredMean, CandidatesFor;
    forall k | k in Keys(w) ensures Certain(w, k).Some? ==> Anchored(w, k) == Certain(w, k)
    {
    }
    forall a | a in Anchors(w) ensures a in CertainAnchors(w) + DominantAmong(w, keys) {
      assert a.key in Keys(w) && a == Anchor(a.key, Anchored(w, a.key).value);
    }
  }

  lemma AnchoredCases(w: World, key: string)
    requires Open(w, key, false)
    ensures
      var cs := CandidatesFor(w.candidates, key);
      && Certain(w, key).None?
      && Anchored(w, key) == if Dominant(cs).Some? && Trusted(w, Dominant(cs).value) then Dominant(cs) else None
  {
  }

  /** A place that was not waiting is where the second pass would put it. */
  lemma NotWaiting(w: World, key: string, p: Place)
    requires PlaceAfter(w, key, p, false) && !Open(w, key, false)
    ensures PlaceAfter(w, key, p, true)
  {
    hide StatsOf, Certain;
  }

  ghost predicate AllPlaceAfter(w: World, order: seq<string>, ps: seq<Place>, seen: set<string>) {
    |ps| == |order| && forall i :: 0 <= i < |order| ==> PlaceAfter(w, order[i], ps[i], order[i] in seen)
  }

  lemma SettleOne(w: World, order: seq<string>, ps: seq<Place>, seen: set<string>, i: nat)
    requires Distinct(order) && i < |order| && AllPlaceAfter(w, order, ps, seen) && order[i] !in seen
    requires Certain(w, order[i]).None?
    ensures AllPlaceAfter(w, order, ps[i := ps[i].(coords := Anchored(w, order[i]))], seen + {order[i]})
    ensures ps[i] == ps[i].(coords := None)
  {
    hide StatsOf, Certain, Anchored, HomeArea, Here;
    assert PlaceAfter(w, order[i], ps[i], false);
    StatsKept(Here(w, order[i]), HomeArea(w.rows, w.cutoff, order[i], w.norm), ps[i], Anchored(w, order[i]), false);
    var q := ps[i].(coords := Anchored(w, order[i]));
    assert PlaceAfter(w, order[i], q, true);
    forall j | 0 <= j < |order| ensures PlaceAfter(w, order[j], ps[i := q][j], order[j] in seen + {order[i]}) {
      if j != i {
        assert order[j] != order[i];
      }
    }
  }

  ghost function SeenKeys(order: seq<string>, pending: seq<Pending>): set<string>
    requires forall j :: 0 <= j < |pending| ==> pending[j].index < |order|
  {
    set j | 0 <= j < |pending| :: order[pending[j].index]
  }

  /** The next place that waits has not been seen. */
  lemma NextWaiting(w: World, order: seq<string>, pending: seq<Pending>, second: bool, n: nat)
    requires Distinct(order) && Waiting(w, order, |order|, pending, second) && n < |pending|
    ensures pending[n].index < |order| && pending[n].candidates == CandidatesFor(w.candidates, order[pending[n].index])
    ensures Open(w, order[pending[n].index], second)
    ensures
      var key := order[pending[n].index];
      && key !in SeenKeys(order, pending[..n])
      && SeenKeys(order, pending[..n + 1]) == SeenKeys(order, pending[..n]) + {key}
  {
    hide Open, CandidatesFor;
    assert WaitsAt(pending, pending[n].index);
    var key := order[pending[n].index];
    forall j | 0 <= j < n ensures order[pending[j].index] != key {
      assert pending[j].index < pending[n].index;
    }
    assert pending[..n + 1] == pending[..n] + [pending[n]];
    forall k ensures k in SeenKeys(order, pending[..n + 1]) <==> k in SeenKeys(order, pending[..n]) || k == key {
      if k in SeenKeys(order, pending[..n]) {
        var j :| 0 <= j < n && order[pending[..n][j].index] == k;
        assert pending[..n + 1][j] == pending[..n][j];
      }
      assert pending[..n + 1][n] == pending[n];
    }
  }

  /** Those still waiting after pass two: the ones no trusted candidate settles. */
  ghost predicate Still(w: World, order: seq<string>, pending: seq<Pending>, still: seq<Pending>)
    requires forall j :: 0 <= j < |pending| ==> pending[j].index < |order|
  {
    && (forall pl :: pl in still <==> pl in pending && Anchored(w, order[pl.index]).None?)
    && (forall j, k :: 0 <= j < k < |still| ==> still[j].index < still[k].index)
  }

  lemma StillNext(w: World, order: seq<string>, pending: seq<Pending>, n: nat, still: seq<Pending>)
    requires Waiting(w, order, |order|, pending, false) && n < |pending|
    requires Still(w, order, pending[..n], still)
    ensures
      var waits := Anchored(w, order[pending[n].index]).None?;
      Still(w, order, pending[..n + 1], if waits then still + [pending[n]] else still)
  {
    hide Anchored, Open, CandidatesFor, WaitsAt;
    var pl := pending[n];
    var now := if Anchored(w, order[pl.index]).None? then still + [pl] else still;
    assert pending[..n + 1] == pending[..n] + [pl];
    forall j | 0 <= j < |still| ensures still[j].index < pl.index {
      assert still[j] in still;
      var k :| 0 <= k < n && pending[..n][k] == still[j];
      assert pending[k].index < pending[n].index;
    }
    forall x ensures x in now <==> x in pending[..n + 1] && Anchored(w, order[x.index]).None? {
      assert x in now <==> x in still || (x == pl && Anchored(w, order[pl.index]).None?);
    }
  }

  lemma StillWaiting(w: World, order: seq<string>, pending: seq<Pending>, still: seq<Pending>)
    requires Waiting(w, order, |order|, pending, false) && Still(w, order, pending, still)
    ensures Waiting(w, order, |order|, still, true)
  {
    hide Anchored, Certain, CandidatesFor;
    forall i | 0 <= i < |order| ensures Open(w, order[i], true) <==> WaitsAt(still, i) {
      OpenTwice(w, order[i]);
      if Open(w, order[i], true) {
        var j :| 0 <= j < |pending| && pending[j].index == i;
        assert pending[j] in pending && pending[j] in still;
        var k :| 0 <= k < |still| && still[k] == pending[j];
      }
      if WaitsAt(still, i) {
        var k :| 0 <= k < |still| && still[k].index == i;
        assert still[k] in still;
        var j :| 0 <= j < |pending| && pending[j] == still[k];
        assert WaitsAt(pending, i);
      }
    }
  }

  lemma OpenTwice(w: World, key: string)
    ensures Open(w, key, true) <==> Open(w, key, false) && Anchored(w, key).None?
  {
  }

  lemma WaitingIndices(w: World, order: seq<string>, pending: seq<Pending>, second: bool)
    requires Waiting(w, order, |order|, pending, second)
    ensures forall j :: 0 <= j < |pending| ==> pending[j].index < |order|
  {
  }

  lemma NothingSeen(w: World, order: seq<string>, pending: seq<Pending>)
    requires forall j :: 0 <= j < |pending| ==> pending[j].index < |order|
    ensures SeenKeys(order, pending[..0]) == {} && Still(w, order, pending[..0], [])
    ensures CertainAnchors(w) + DominantAmong(w, {}) == CertainAnchors(w)
  {
    hide CertainAnchors;
  }

  lemma CertainCount(w: World, anchors: seq<Coord>)
    requires SameAnchors(anchors, CertainAnchors(w))
    ensures |anchors| > 0 <==> CertainAnchors(w) != {}
  {
    hide CertainAnchors;
  }

  lemma OpenHasCandidates(w: World, key: string)
    requires Open(w, key, false)
    ensures CandidatesFor(w.candidates, key) != []
  {
  }

  lemma TrustedIff(w: World, at: Coord, haveCenter: bool, center: Coord)
    requires haveCenter <==> CertainAnchors(w) != {}
    requires haveCenter ==> center == Centroid(CertainAnchors(w))
    ensures Trusted(w, at) <==> (haveCenter ==> w.distance(at, center) <= ANCHOR_MAX_DISTANCE)
  {
    hide CertainAnchors, Centroid;
  }

  lemma SecondPassDone(w: World, order: seq<string>, ps: seq<Place>, pending: seq<Pending>, seen: set<string>)
    requires AllPlaceAfter(w, order, ps, seen) && Waiting(w, order, |order|, pending, false) && KeysOf(order) == Keys(w)
    requires forall j :: 0 <= j < |pending| ==> pending[j].index < |order|
    requires seen == SeenKeys(order, pending)
    ensures AllPlaceAfter(w, order, ps, Keys(w))
    ensures CertainAnchors(w) + DominantAmong(w, seen) == Anchors(w)
  {
    hide PlaceAfter, Open, Keys, CertainAnchors, DominantAmong, Anchors, CandidatesFor;
    forall i | 0 <= i < |order| ensures Open(w, order[i], false) ==> order[i] in seen
    {
      if Open(w, order[i], false) {
        assert WaitsAt(pending, i);
      }
    }
    forall i | 0 <= i < |order| ensures PlaceAfter(w, order[i], ps[i], order[i] in Keys(w)) {
      assert order[i] in KeysOf(order);
      if order[i] !in seen {
        NotWaiting(w, order[i], ps[i]);
      }
    }
    forall k | k in seen ensures k in Keys(w) {
      assert k in KeysOf(order);
    }
    forall k | k in Keys(w) && Open(w, k, false) ensures k in seen {
      assert k in KeysOf(order);
    }
    AllAnchors(w, seen);
  }

  method PassTwo(places: array<Place>, anchors: seq<Coord>, pending: seq<Pending>, distance: (Coord, Coord) -> real,
                 ghost order: seq<string>, ghost w: World)
    returns (anchors': seq<Coord>, pending': seq<Pending>)
    requires places.Length == |order| && Distinct(order) && KeysOf(order) == Keys(w) && distance == w.distance
    requires AllPlaceAfter(w, order, places[..], {})
    requires Waiting(w, order, |order|, pending, false) && SameAnchors(anchors, CertainAnchors(w))
    modifies places
    ensures AllPlaceAfter(w, order, places[..], Keys(w))
    ensures Waiting(w, order, |order|, pending', true) && SameAnchors(anchors', Anchors(w))
  {
    hide Certain, Anchored, Anchors, CertainAnchors, DominantAmong, SameAnchors, Waiting, Open, CandidatesFor, Keys,
         AllPlaceAfter, SeenKeys, Still, Centroid, Dominant, Trusted, KeysOf, Distinct;
    anchors', pending' := anchors, [];
    WaitingIndices(w, order, pending, false);
    var center := Coord(0.0, 0.0);
    var haveCenter := |anchors| > 0;
    CertainCount(w, anchors);
    if haveCenter {
      center := CentroidOf(anchors, CertainAnchors(w));
    }
    ghost var seen: set<string> := {};
    NothingSeen(w, order, pending);
    for n := 0 to |pending|
      invariant seen == SeenKeys(order, pending[..n])
      invariant AllPlaceAfter(w, order, places[..], seen)
      invariant SameAnchors(anchors', CertainAnchors(w) + DominantAmong(w, seen))
      invariant Still(w, order, pending[..n], pending')
    {
      var pl := pending[n];
      NextWaiting(w, order, pending, false, n);
      ghost var key := order[pl.index];
      AnchoredCases(w, key);
      DominantOne(w, seen, key);
      StillNext(w, order, pending, n, pending');
      SettleOne(w, order, places[..], seen, pl.index);
      OpenHasCandidates(w, key);
      var dominant := AnchorCandidate(pl.candidates);
      var ok := dominant.Some?;
      TrustedIff(w, if ok then dominant.value else Coord(0.0, 0.0), haveCenter, center);
      if ok && haveCenter {
        ok := distance(dominant.value, center) <= ANCHOR_MAX_DISTANCE;
      }
      if ok {
        MoreAnchors(anchors', CertainAnchors(w) + DominantAmong(w, seen), Anchor(key, dominant.value));
        ghost var before := places[..];
        places[pl.index] := places[pl.index].(coords := dominant);
        assert places[..] == before[pl.index := before[pl.index].(coords := dominant)];
        anchors' := anchors' + [dominant.value];
      } else {
        pending' := pending' + [pl];
        assert places[..] == places[..][pl.index := places[..][pl.index]];
      }
      seen := seen + {key};
    }
    assert pending[..|pending|] == pending;
    SecondPassDone(w, order, places[..], pending, seen);
    StillWaiting(w, order, pending, pending');
  }

  ghost predicate AllResolved(w: World, order: seq<string>, ps: seq<Place>, seen: set<string>) {
    |ps| == |order|
    && forall i :: 0 <= i < |order| ==>
         if order[i] in seen then IsPlace(w, order[i], ps[i]) else PlaceAfter(w, order[i], ps[i], true)
  }

  lemma ResolveOne(w: World, order: seq<string>, ps: seq<Place>, seen: set<string>, i: nat, coords: Option<Coord>,
                   guessed: bool)
    requires Distinct(order) && i < |order| && AllResolved(w, order, ps, seen) && order[i] !in seen
    requires Resolved(w, order[i], coords, guessed)
    ensures AllResolved(w, order, ps[i := ps[i].(coords := coords, guessed := guessed)], seen + {order[i]})
  {
    hide StatsOf, Anchored, HomeArea, Here, Resolved;
    var q := ps[i].(coords := coords, guessed := guessed);
    StatsKept(Here(w, order[i]), HomeArea(w.rows, w.cutoff, order[i], w.norm), ps[i], coords, guessed);
    assert IsPlace(w, order[i], q);
    forall j | 0 <= j < |order|
      ensures if order[j] in seen + {order[i]} then IsPlace(w, order[j], ps[i := q][j])
              else PlaceAfter(w, order[j], ps[i := q][j], true)
    {
      if j != i {
        assert order[j] != order[i];
      }
    }
  }

  /** A place that does not wait for the third pass is resolved. */
  lemma AlreadyResolved(w: World, key: string, p: Place)
    requires PlaceAfter(w, key, p, true) && !Open(w, key, true)
    ensures IsPlace(w, key, p)
  {
    hide StatsOf, StoredMean, Dominant, Trusted;
  }

  lemma ThirdPassDone(w: World, order: seq<string>, ps: seq<Place>, pending: seq<Pending>, seen: set<string>)
    requires AllResolved(w, order, ps, seen) && Waiting(w, order, |order|, pending, true)
    requires forall j :: 0 <= j < |pending| ==> pending[j].index < |order|
    requires seen == SeenKeys(order, pending)
    ensures forall i :: 0 <= i < |order| ==> IsPlace(w, order[i], ps[i])
  {
    hide PlaceAfter, Open, IsPlace, CandidatesFor;
    forall i | 0 <= i < |order| ensures IsPlace(w, order[i], ps[i]) {
      if order[i] !in seen {
        assert Open(w, order[i], true) <==> WaitsAt(pending, i);
        AlreadyResolved(w, order[i], ps[i]);
      }
    }
  }

  lemma ThirdPassStarts(w: World, order: seq<string>, ps: seq<Place>, pending: seq<Pending>)
    requires AllPlaceAfter(w, order, ps, Keys(w)) && KeysOf(order) == Keys(w)
    requires forall j :: 0 <= j < |pending| ==> pending[j].index < |order|
    ensures AllResolved(w, order, ps, {}) && SeenKeys(order, pending[..0]) == {}
  {
    hide PlaceAfter, IsPlace, Keys;
    forall i | 0 <= i < |order| ensures PlaceAfter(w, order[i], ps[i], true) {
      assert order[i] in KeysOf(order);
    }
  }

  lemma AnchorCount(w: World, anchors: seq<Coord>)
    requires SameAnchors(anchors, Anchors(w))
    ensures |anchors| > 0 <==> Anchors(w) != {}
  {
    hide Anchors;
  }

  lemma ResolvedBy(w: World, key: string, k: nat, haveAnchor: bool, center: Coord)
    requires Open(w, key, true) && (haveAnchor <==> Anchors(w) != {})
    requires haveAnchor ==> center == Centroid(Anchors(w))
    requires
      var cs := CandidatesFor(w.candidates, key);
      k < |cs| && if haveAnchor then Nearest(cs, k, center, w.distance) else MostPopulous(cs, k)
    ensures Resolved(w, key, Some(CoordOf(CandidatesFor(w.candidates, key)[k])), !haveAnchor)
  {
    hide Anchors, Centroid, Nearest, MostPopulous, Anchored, Certain;
  }

  method PassThree(places: array<Place>, anchors: seq<Coord>, pending: seq<Pending>, distance: (Coord, Coord) -> real,
                   ghost order: seq<string>, ghost w: World)
    requires places.Length == |order| && Distinct(order) && KeysOf(order) == Keys(w) && distance == w.distance
    requires AllPlaceAfter(w, order, places[..], Keys(w))
    requires Waiting(w, order, |order|, pending, true) && SameAnchors(anchors, Anchors(w))
    modifies places
    ensures forall i :: 0 <= i < |order| ==> IsPlace(w, order[i], places[i])
  {
    hide Anchors, SameAnchors, Waiting, Open, CandidatesFor, Keys, AllPlaceAfter, AllResolved, SeenKeys, Centroid,
         KeysOf, Distinct, IsPlace, Nearest, MostPopulous, Resolved;
    WaitingIndices(w, order, pending, true);
    ThirdPassStarts(w, order, places[..], pending);
    var haveAnchor := |anchors| > 0;
    var center := Coord(0.0, 0.0);
    AnchorCount(w, anchors);
    if haveAnchor {
      center := CentroidOf(anchors, Anchors(w));
    }
    ghost var seen: set<string> := {};
    for n := 0 to |pending|
      invariant seen == SeenKeys(order, pending[..n])
      invariant AllResolved(w, order, places[..], seen)
    {
      var pl := pending[n];
      NextWaiting(w, order, pending, true, n);
      ghost var key := order[pl.index];
      OpenTwice(w, key);
      OpenHasCandidates(w, key);
      var k: nat;
      if haveAnchor {
        k := NearestCandidate(pl.candidates, center, distance);
      } else {
        k := MostPopulousCandidate(pl.candidates);
      }
      ResolvedBy(w, key, k, haveAnchor, center);
      var chosen := CoordOf(pl.candidates[k]);
      ResolveOne(w, order, places[..], seen, pl.index, Some(chosen), !haveAnchor);
      ghost var before := places[..];
      places[pl.index] := places[pl.index].(coords := Some(chosen), guessed := !haveAnchor);
      assert places[..] == before[pl.index := before[pl.index].(coords := Some(chosen), guessed := !haveAnchor)];
      seen := seen + {key};
    }
    assert pending[..|pending|] == pending;
    ThirdPassDone(w, order, places[..], pending, seen);
    assert forall i :: 0 <= i < |order| ==> places[..][i] == places[i];
  }

  method MostPopulousCandidate(cs: seq<G.Candidate>) returns (k: nat)
    requires cs != []
    ensures k < |cs| && MostPopulous(cs, k)
  {
    k := G.MostPopulous(cs);
  }

  // ---------- the whole list ----------

  lemma Listed(w: World, order: seq<string>, unsorted: seq<Place>, places: seq<Place>)
    requires KeysOf(order) == Keys(w) && Distinct(order) && |unsorted| == |order|
    requires forall i :: 0 <= i < |order| ==> IsPlace(w, order[i], unsorted[i])
    requires multiset(places) == multiset(unsorted) && Sorted(places, PlaceOutranks)
    ensures IsPlaceList(w, places)
  {
    hide IsPlace, PlaceOutranks, Keys, Sorted, StrictlySorted, Distinct;
    SameElements(places, unsorted);
    NamesApart(w, order, unsorted);
    NamedOrder(unsorted, places);
    forall p | p in places ensures exists i :: 0 <= i < |order| && unsorted[i] == p {
      assert p in unsorted;
    }
    forall p | p in places ensures OfSomeKey(w, p) {
      var i :| 0 <= i < |order| && unsorted[i] == p;
      assert order[i] in KeysOf(order) && IsPlace(w, order[i], p);
    }
    forall key | key in Keys(w) ensures PlaceListed(w, places, key) {
      assert key in KeysOf(order);
      var i :| 0 <= i < |order| && order[i] == key;
      assert unsorted[i] in unsorted && IsPlace(w, key, unsorted[i]);
    }
  }

  /** Places of different names, once sorted, are in strict order. */
  lemma NamedOrder(unsorted: seq<Place>, places: seq<Place>)
    requires forall i, j :: 0 <= i < j < |unsorted| ==> unsorted[i].location != unsorted[j].location
    requires multiset(places) == multiset(unsorted) && Sorted(places, PlaceOutranks)
    ensures StrictlySorted(places, PlaceOutranks)
  {
    hide PlaceOutranks;
    SameElements(places, unsorted);
    PlaceOrder();
    assert Distinct(unsorted);
    DistinctPermutation(unsorted, places);
    forall i, j | 0 <= i < j < |places| ensures PlaceOutranks(places[i], places[j]) {
      assert places[i] in places && places[j] in places;
      assert places[i] in unsorted && places[j] in unsorted;
      var x :| 0 <= x < |unsorted| && unsorted[x] == places[i];
      var y :| 0 <= y < |unsorted| && unsorted[y] == places[j];
      assert x != y && !PlaceOutranks(places[j], places[i]);
      if x < y {
        assert unsorted[x].location != unsorted[y].location;
      } else {
        assert unsorted[y].location != unsorted[x].location;
      }
    }
  }

  lemma NamesApart(w: World, order: seq<string>, unsorted: seq<Place>)
    requires Distinct(order) && |unsorted| == |order|
    requires forall i :: 0 <= i < |order| ==> IsPlace(w, order[i], unsorted[i])
    ensures forall i, j :: 0 <= i < j < |unsorted| ==> unsorted[i].location != unsorted[j].location
  {
    hide IsPlace;
    forall i, j | 0 <= i < j < |unsorted| ensures unsorted[i].location != unsorted[j].location {
      PlaceKey(w, order[i], unsorted[i]);
      PlaceKey(w, order[j], unsorted[j]);
    }
  }

  /** Groups the posts, resolves every place, and puts the list in order. */
  method BuildPlaces(rows: seq<Row>, cutoff: int, norm: Norm, candidates: map<string, seq<G.Candidate>>,
                     distance: (Coord, Coord) -> real)
    returns (places: seq<Place>)
    requires DistinctPosts(rows)
    ensures IsPlaceList(World(Elements(rows), cutoff, norm, candidates, distance), places)
  {
    hide Grouped, Elements, DistinctBy, HomeArea, Waiting, SameAnchors, AllPlaceAfter, IsPlace, IsPlaceList, Keys,
         KeysOf, Distinct, Sorted, WeakOrder, PlaceOutranks, PlaceAfter;
    ghost var w := World(Elements(rows), cutoff, norm, candidates, distance);
    var homeArea := ComputeHomeArea(rows, cutoff, norm);
    var order, groups := GroupByPlace(rows, norm);
    OrderDistinct(rows, w, order, groups);
    OrderKeys(rows, w, order, groups);
    var list := new Place[|order|](i => Place("", None, false, 0, 0, 0, 0, 0, None, false));
    var anchors, pending := PassOne(list, order, groups, homeArea, candidates, rows, w);
    FirstPassDone(w, order, list[..]);
    anchors, pending := PassTwo(list, anchors, pending, distance, order, w);
    PassThree(list, anchors, pending, distance, order, w);
    PlaceOrder();
    places := SortSlice(list[..], PlaceOutranks);
    Listed(w, order, list[..], places);
  }

  lemma FirstPassDone(w: World, order: seq<string>, ps: seq<Place>)
    requires |ps| == |order| && KeysOf(order) == Keys(w)
    requires forall i :: 0 <= i < |order| ==> PlaceAfter(w, order[i], ps[i], false)
    ensures AllPlaceAfter(w, order, ps, {}) && CertainAmong(w, KeysOf(order)) == CertainAnchors(w)
  {
    hide PlaceAfter, Certain, Keys;
  }
}

/** What a place's own posts and candidates say: its counts, its mean position, and its candidates' order. */
module PlaceStats {
  import opened Wrappers
  import opened Sorting
  import opened EventRows
  import opened EventHome
  import opened EventBuild
  import opened Places
  import G = Gazetteer

  // ---------- one place's posts ----------

  lemma ElementsAppend(rows: seq<Row>, i: nat)
    requires i < |rows| && DistinctPosts(rows)
    ensures Elements(rows[..i + 1]) == Elements(rows[..i]) + {rows[i]} && rows[i] !in Elements(rows[..i])
  {
    assert rows[..i + 1] == rows[..i] + [rows[i]];
    forall j | 0 <= j < i ensures rows[j] != rows[i] {
      assert PostIdOf(rows[j]) != PostIdOf(rows[i]);
    }
  }

  /** The earliest and latest of the posts read so far; the first post's own time before any is read. */
  ghost predicate SeenSoFar(rows: seq<Row>, i: nat, firstSeen: int, lastSeen: int)
    requires i <= |rows| && rows != []
  {
    if i == 0 then firstSeen == lastSeen == rows[0].createdAt
    else FirstSeen(Elements(rows[..i]), firstSeen) && LastSeen(Elements(rows[..i]), lastSeen)
  }

  lemma SeenOne(rows: seq<Row>, i: nat, firstSeen: int, lastSeen: int)
    requires i < |rows| && SeenSoFar(rows, i, firstSeen, lastSeen)
    ensures
      var at := rows[i].createdAt;
      SeenSoFar(rows, i + 1, if at < firstSeen then at else firstSeen, if at > lastSeen then at else lastSeen)
  {
    assert rows[..i + 1] == rows[..i] + [rows[i]];
    assert rows[i] in Elements(rows[..i + 1]);
    assert forall r :: r in Elements(rows[..i]) ==> r in Elements(rows[..i + 1]);
  }

  method BuildPlaceStats(rows: seq<Row>, homeArea: bool) returns (p: Place)
    requires rows != [] && DistinctPosts(rows)
    ensures StatsOf(Elements(rows), homeArea, p) && p.coords == None && !p.guessed
  {
    hide DistinctBy, Elements, IsMostCommon, LocationCounts, IsCover, CoverSoFar, SeenSoFar, Sum;
    var posters: set<int> := {};
    var photoCount := 0;
    var coverPost: Option<Row> := None;
    var firstSeen, lastSeen := rows[0].createdAt, rows[0].createdAt;
    StatsStart(rows);
    for i := 0 to |rows|
      invariant posters == AuthorsOf(Elements(rows[..i]))
      invariant photoCount as real == Sum(Elements(rows[..i]), PhotosOf)
      invariant SeenSoFar(rows, i, firstSeen, lastSeen)
      invariant CoverSoFar(rows[..i], coverPost)
    {
      var r := rows[i];
      ElementsAppend(rows, i);
      assert rows[..i + 1] == rows[..i] + [r];
      DistinctPrefix(rows, i + 1);
      SumWith(Elements(rows[..i]), PhotosOf, r);
      SeenOne(rows, i, firstSeen, lastSeen);
      CoverOne(rows[..i], r, coverPost);
      posters := posters + {r.authorId};
      photoCount := photoCount + r.photoCount;
      if r.createdAt < firstSeen {
        firstSeen := r.createdAt;
      }
      if r.createdAt > lastSeen {
        lastSeen := r.createdAt;
      }
      if r.coverMediaId.Some? {
        if coverPost.None? || CoversBefore(r, coverPost.value) {
          coverPost := Some(r);
        }
      }
    }
    assert rows[..|rows|] == rows;
    StatsEnd(rows, firstSeen, lastSeen);
    CoverFound(rows, coverPost);
    ElementsSize(rows);
    var location := DisplayLocation(rows);
    p := Place(location, None, false, |rows|, photoCount, |posters|, firstSeen, lastSeen,
               if coverPost.Some? then coverPost.value.coverMediaId else None, homeArea);
  }

  lemma StatsStart(rows: seq<Row>)
    requires rows != []
    ensures AuthorsOf(Elements(rows[..0])) == {} && Sum(Elements(rows[..0]), PhotosOf) == 0.0
    ensures SeenSoFar(rows, 0, rows[0].createdAt, rows[0].createdAt) && CoverSoFar(rows[..0], None)
  {
    assert rows[..0] == [];
    assert Elements([]) == {};
  }

  lemma StatsEnd(rows: seq<Row>, firstSeen: int, lastSeen: int)
    requires rows != [] && SeenSoFar(rows, |rows|, firstSeen, lastSeen)
    ensures FirstSeen(Elements(rows), firstSeen) && LastSeen(Elements(rows), lastSeen)
  {
    assert rows[..|rows|] == rows;
  }

  method AverageStoredCoords(rows: seq<Row>) returns (mean: Option<Coord>)
    requires DistinctPosts(rows)
    ensures mean == StoredMean(Elements(rows))
  {
    hide DistinctBy, Elements, Sum;
    var sumLat, sumLng := 0.0, 0.0;
    var n := 0;
    NothingStored();
    assert rows[..0] == [];
    for i := 0 to |rows|
      invariant sumLat == Sum(Stored(Elements(rows[..i])), LatOf)
      invariant sumLng == Sum(Stored(Elements(rows[..i])), LngOf)
      invariant n == |Stored(Elements(rows[..i]))|
    {
      var r := rows[i];
      ElementsAppend(rows, i);
      StoredOne(Elements(rows[..i]), r);
      if !(r.lat.None? || r.lng.None?) {
        SumWith(Stored(Elements(rows[..i])), LatOf, r);
        SumWith(Stored(Elements(rows[..i])), LngOf, r);
        sumLat := sumLat + r.lat.value;
        sumLng := sumLng + r.lng.value;
        n := n + 1;
      }
    }
    assert rows[..|rows|] == rows;
    if n == 0 {
      return None;
    }
    return Some(Coord(sumLat / n as real, sumLng / n as real));
  }

  lemma NothingStored()
    ensures Stored(Elements([])) == {}
    ensures Sum({}, LatOf) == Sum({}, LngOf) == 0.0
  {
  }

  lemma StoredOne(rows: set<Row>, r: Row)
    requires r !in rows
    ensures Stored(rows + {r}) == if Stores(r) then Stored(rows) + {r} else Stored(rows)
    ensures r !in Stored(rows)
  {
  }

  // ---------- anchors ----------

  function SumOf(anchors: seq<Coord>, f: Coord -> real): real {
    if anchors == [] then 0.0 else SumOf(anchors[..|anchors| - 1], f) + f(anchors[|anchors| - 1])
  }

  function LatitudeOf(c: Coord): real {
    c.lat
  }

  function LongitudeOf(c: Coord): real {
    c.lng
  }

  /** The coordinates collected so far are those of the anchors `s`. */
  ghost predicate SameAnchors(anchors: seq<Coord>, s: set<Anchor>) {
    && |anchors| == |s|
    && SumOf(anchors, LatitudeOf) == Sum(s, AnchorLat)
    && SumOf(anchors, LongitudeOf) == Sum(s, AnchorLng)
  }

  lemma MoreAnchors(anchors: seq<Coord>, s: set<Anchor>, a: Anchor)
    requires SameAnchors(anchors, s) && a !in s
    ensures SameAnchors(anchors + [a.at], s + {a})
  {
    SumWith(s, AnchorLat, a);
    SumWith(s, AnchorLng, a);
  }

  method CentroidOf(anchors: seq<Coord>, ghost s: set<Anchor>) returns (center: Coord)
    requires SameAnchors(anchors, s) && anchors != []
    ensures s != {} && center == Centroid(s)
  {
    var sumLat, sumLng := 0.0, 0.0;
    for i := 0 to |anchors|
      invariant sumLat == SumOf(anchors[..i], LatitudeOf) && sumLng == SumOf(anchors[..i], LongitudeOf)
    {
      assert anchors[..i + 1][..i] == anchors[..i];
      sumLat := sumLat + anchors[i].lat;
      sumLng := sumLng + anchors[i].lng;
    }
    assert anchors[..|anchors|] == anchors;
    center := Coord(sumLat / |anchors| as real, sumLng / |anchors| as real);
  }

  method AnchorCandidate(cs: seq<G.Candidate>) returns (dominant: Option<Coord>)
    requires cs != []
    ensures dominant == Dominant(cs)
  {
    hide Dominant;
    var bestIdx := 0;
    for i := 0 to |cs|
      invariant 0 <= bestIdx < |cs|
      invariant forall j :: 0 <= j < i ==> cs[j].population <= cs[bestIdx].population
    {
      if cs[i].population > cs[bestIdx].population {
        bestIdx := i;
      }
    }
    var best := cs[bestIdx];
    if best.population == 0 {
      NotDominant(cs, bestIdx);
      return None;
    }
    var secondBest := 0;
    for i := 0 to |cs|
      invariant secondBest >= 0
      invariant forall j :: 0 <= j < i && j != bestIdx ==> cs[j].population <= secondBest
      invariant secondBest > 0 ==> exists j :: 0 <= j < i && j != bestIdx && cs[j].population == secondBest
    {
      if i != bestIdx && cs[i].population > secondBest {
        secondBest := cs[i].population;
      }
    }
    var dominates :=
      if secondBest > 0 then best.population >= secondBest * ANCHOR_RATIO
      else best.population >= ANCHOR_MIN_POPULATION;
    DominatesIff(cs, bestIdx, secondBest);
    if !dominates {
      NotDominant(cs, bestIdx);
      return None;
    }
    IsDominant(cs, bestIdx);
    return Some(CoordOf(best));
  }

  /** The ratio against the runner-up, or the floor when there is none, decides whether the largest dominates. */
  lemma DominatesIff(cs: seq<G.Candidate>, best: nat, second: int)
    requires best < |cs| && second >= 0 && cs[best].population != 0
    requires forall j :: 0 <= j < |cs| && j != best ==> cs[j].population <= second
    requires second > 0 ==> exists j :: 0 <= j < |cs| && j != best && cs[j].population == second
    ensures Dominates(cs, best) <==>
              if second > 0 then cs[best].population >= second * ANCHOR_RATIO
              else cs[best].population >= ANCHOR_MIN_POPULATION
  {
    if second > 0 {
      var j :| 0 <= j < |cs| && j != best && cs[j].population == second;
    }
  }

  lemma NotDominant(cs: seq<G.Candidate>, best: nat)
    requires best < |cs| && forall j :: 0 <= j < |cs| ==> cs[j].population <= cs[best].population
    requires !Dominates(cs, best)
    ensures Dominant(cs) == None
  {
    if k :| Dominates(cs, k) {
      assert k != best ==> cs[k].population >= ANCHOR_RATIO * cs[best].population;
    }
  }

  lemma IsDominant(cs: seq<G.Candidate>, best: nat)
    requires Dominates(cs, best)
    ensures Dominant(cs) == Some(CoordOf(cs[best]))
  {
    var k :| Dominates(cs, k) && Dominant(cs) == Some(CoordOf(cs[k]));
  }

  method NearestCandidate(cs: seq<G.Candidate>, target: Coord, distance: (Coord, Coord) -> real) returns (k: nat)
    requires cs != []
    ensures k < |cs| && Nearest(cs, k, target, distance)
  {
    k := 0;
    var bestDist := distance(CoordOf(cs[0]), target);
    for i := 1 to |cs|
      invariant k < i && bestDist == distance(CoordOf(cs[k]), target)
      invariant forall j :: 0 <= j < i ==> bestDist <= distance(CoordOf(cs[j]), target)
      invariant forall j :: 0 <= j < k ==> bestDist < distance(CoordOf(cs[j]), target)
    {
      var d := distance(CoordOf(cs[i]), target);
      if d < bestDist {
        k, bestDist := i, d;
      }
    }
  }
}
