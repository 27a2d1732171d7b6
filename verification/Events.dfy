/** Which clusters of a group's posts are events, and what the list of events says. */
module Events {
  import opened Sorting
  import opened EventRows
  import opened EventHome
  import opened TripRuns
  import opened EventBuild

  const TRIP_MIN_AWAY_AUTHORS: nat := 2
  const GATHERING_MIN_POSTS: nat := 3
  const GATHERING_MIN_AUTHORS: nat := 2

  /** A group's posts, the start of the look-back window, and how locations are folded. */
  datatype History = History(rows: set<Row>, cutoff: int, norm: Norm)

  ghost function At(h: History, loc: string): set<Row> {
    RowsAt(h.rows, loc, h.norm)
  }

  /** A cluster of posts that may be an event: a run of days at a place, or one day there. */
  datatype Cluster = TripAt(loc: string, span: Span) | GatheringAt(loc: string, day: int)

  function KindOf(c: Cluster): Kind {
    if c.TripAt? then Trip else Gathering
  }

  // ---------- trips ----------

  ghost predicate IsRun(h: History, loc: string, s: Span) {
    exists list :: DayList(Days(At(h, loc)), list) && s in Spans(list)
  }

  /** Confidently away from `loc`: home is known and elsewhere, or is not known and the run has several days. */
  ghost predicate Away(h: History, loc: string, author: int, multiDay: bool) {
    if exists base :: HomeBase(h.rows, h.cutoff, author, base, h.norm)
    then !HomeBase(h.rows, h.cutoff, author, loc, h.norm)
    else multiDay
  }

  ghost function AwayAuthors(h: History, loc: string, s: Span): set<int> {
    set a | a in AuthorsOf(RowsIn(At(h, loc), s)) && Away(h, loc, a, s.first < s.last)
  }

  ghost predicate IsTrip(h: History, loc: string, s: Span) {
    && !HomeArea(h.rows, h.cutoff, loc, h.norm)
    && IsRun(h, loc, s)
    && |AwayAuthors(h, loc, s)| >= TRIP_MIN_AWAY_AUTHORS
  }

  ghost predicate Consumed(h: History, r: Row) {
    exists loc, s :: IsTrip(h, loc, s) && r in RowsIn(At(h, loc), s)
  }

  // ---------- gatherings ----------

  /** The posts of one place on one day. */
  ghost function Bucket(h: History, loc: string, day: int): set<Row> {
    set r | r in At(h, loc) && DayOf(r) == day
  }

  /** Those that no trip claims. */
  ghost function LeftOver(h: History, loc: string, day: int): set<Row> {
    set r | r in Bucket(h, loc, day) && !Consumed(h, r)
  }

  ghost predicate IsGathering(h: History, loc: string, day: int) {
    |LeftOver(h, loc, day)| >= GATHERING_MIN_POSTS && |AuthorsOf(LeftOver(h, loc, day))| >= GATHERING_MIN_AUTHORS
  }

  // ---------- the list of events ----------

  ghost predicate Qualifies(h: History, c: Cluster) {
    match c
    case TripAt(loc, s) => IsTrip(h, loc, s)
    case GatheringAt(loc, day) => IsGathering(h, loc, day)
  }

  ghost function PostsOf(h: History, c: Cluster): set<Row> {
    match c
    case TripAt(loc, s) => RowsIn(At(h, loc), s)
    case GatheringAt(loc, day) => LeftOver(h, loc, day)
  }

  ghost predicate IsEvent(h: History, ev: Event) {
    exists c :: Qualifies(h, c) && IsEventOf(KindOf(c), PostsOf(h, c), ev)
  }

  ghost predicate Listed(h: History, events: seq<Event>, c: Cluster) {
    exists ev :: ev in events && IsEventOf(KindOf(c), PostsOf(h, c), ev)
  }

  /** The events of a history in strict order: each is of a cluster that qualifies, and every such cluster has one. */
  ghost predicate Detection(h: History, events: seq<Event>) {
    && StrictlySorted(events, EventOutranks)
    && (forall ev :: ev in events ==> IsEvent(h, ev))
    && (forall c :: Qualifies(h, c) ==> Listed(h, events, c))
  }

  lemma EventListed(h: History, events: seq<Event>, ev: Event)
    requires Detection(h, events) && IsEvent(h, ev)
    ensures ev in events
  {
    hide Qualifies, PostsOf, IsEventOf, EventOutranks;
    var c :| Qualifies(h, c) && IsEventOf(KindOf(c), PostsOf(h, c), ev);
    assert Listed(h, events, c);
    var x :| x in events && IsEventOf(KindOf(c), PostsOf(h, c), x);
    EventUnique(KindOf(c), PostsOf(h, c), ev, x);
  }

  // ---------- what the list says ----------

  /** The set of posts decides the list: neither their order nor that of any map does. */
  lemma DetectionUnique(h: History, a: seq<Event>, b: seq<Event>)
    requires Detection(h, a) && Detection(h, b)
    ensures a == b
  {
    hide EventOutranks, IsEvent, Listed;
    EventOrder();
    forall ev ensures ev in a <==> ev in b {
      if ev in a {
        EventListed(h, b, ev);
      }
      if ev in b {
        EventListed(h, a, ev);
      }
    }
    assert Distinct(a) && Distinct(b) by {
      forall i, j | 0 <= i < j < |a| ensures a[i] != a[j] {
        assert EventOutranks(a[i], a[j]) && !EventOutranks(a[j], a[i]);
      }
      forall i, j | 0 <= i < j < |b| ensures b[i] != b[j] {
        assert EventOutranks(b[i], b[j]) && !EventOutranks(b[j], b[i]);
      }
    }
    DistinctCounts(a);
    DistinctCounts(b);
    assert multiset(a) == multiset(b) by {
      forall ev ensures multiset(a)[ev] == multiset(b)[ev] {
        assert ev in a <==> ev in b;
      }
    }
    SortedUnique(a, b, EventOutranks);
  }

  /** Reading the posts in another order gives the same events. */
  lemma OrderIndependent(rows: seq<Row>, shuffled: seq<Row>, cutoff: int, norm: Norm, a: seq<Event>, b: seq<Event>)
    requires multiset(rows) == multiset(shuffled)
    requires Detection(History(Elements(rows), cutoff, norm), a)
    requires Detection(History(Elements(shuffled), cutoff, norm), b)
    ensures a == b
  {
    hide Detection;
    SameElements(rows, shuffled);
    assert Elements(rows) == Elements(shuffled);
    DetectionUnique(History(Elements(rows), cutoff, norm), a, b);
  }

  /** Runs of one place do not share a day. */
  lemma RunsApart(h: History, loc: string, s: Span, t: Span)
    requires IsRun(h, loc, s) && IsRun(h, loc, t) && s != t
    ensures s.last < t.first || t.last < s.first
    ensures s.first <= s.last && t.first <= t.last
  {
    var a :| DayList(Days(At(h, loc)), a) && s in Spans(a);
    var b :| DayList(Days(At(h, loc)), b) && t in Spans(b);
    DayListUnique(Days(At(h, loc)), a, b);
    var spans := Spans(a);
    assert Ascending(a) by {
      forall i, j | 0 <= i < j < |a| ensures a[i] <= a[j] {
        assert Earlier(a[i], a[j]);
      }
    }
    SpansOrdered(a);
    var j :| 0 <= j < |spans| && spans[j] == s;
    var k :| 0 <= k < |spans| && spans[k] == t;
  }

  /** No post belongs to two clusters that qualify. */
  lemma ClustersApart(h: History, c: Cluster, d: Cluster)
    requires Qualifies(h, c) && Qualifies(h, d) && c != d
    ensures PostsOf(h, c) !! PostsOf(h, d)
  {
    hide IsRun, AwayAuthors, HomeArea;
    if c.TripAt? && d.TripAt? {
      if c.loc == d.loc {
        RunsApart(h, c.loc, c.span, d.span);
      }
    } else if c.TripAt? {
      assert forall r :: r in PostsOf(h, c) ==> Consumed(h, r);
    } else if d.TripAt? {
      assert forall r :: r in PostsOf(h, d) ==> Consumed(h, r);
    }
  }

  lemma ClusterNonempty(h: History, c: Cluster)
    requires Qualifies(h, c)
    ensures PostsOf(h, c) != {}
  {
    hide IsRun, HomeArea;
    match c
    case TripAt(loc, s) =>
      var a := PickSome(AwayAuthors(h, loc, s));
    case GatheringAt(loc, day) =>
      var a := PickSome(AuthorsOf(LeftOver(h, loc, day)));
  }

  lemma SubsetIds(h: History, c: Cluster)
    requires DistinctIds(h.rows)
    ensures PostsOf(h, c) <= h.rows && DistinctIds(PostsOf(h, c))
  {
  }

  /** Two different clusters are two different events, and no post id is in both. */
  lemma EventsApart(h: History, c: Cluster, d: Cluster, a: Event, b: Event)
    requires DistinctIds(h.rows) && Qualifies(h, c) && Qualifies(h, d) && c != d
    requires IsEventOf(KindOf(c), PostsOf(h, c), a) && IsEventOf(KindOf(d), PostsOf(h, d), b)
    ensures forall id :: id in a.postIds ==> id !in b.postIds
    ensures FirstPost(a) != FirstPost(b)
  {
    hide Qualifies, PostsOf, IsEventOf;
    ClustersApart(h, c, d);
    SubsetIds(h, c);
    SubsetIds(h, d);
    EventCounts(KindOf(c), PostsOf(h, c), a);
    EventCounts(KindOf(d), PostsOf(h, d), b);
    ClusterNonempty(h, c);
    ClusterNonempty(h, d);
    assert FirstPost(a) in a.postIds && FirstPost(b) in b.postIds;
  }

  /** No post appears in two events of the list. */
  lemma EventsDisjoint(h: History, events: seq<Event>, i: nat, j: nat)
    requires DistinctIds(h.rows) && Detection(h, events) && i < j < |events|
    ensures forall id :: id in events[i].postIds ==> id !in events[j].postIds
  {
    hide Qualifies, PostsOf, IsEventOf, EventOutranks;
    assert events[i] in events && events[j] in events && EventOutranks(events[i], events[j]);
    var c :| Qualifies(h, c) && IsEventOf(KindOf(c), PostsOf(h, c), events[i]);
    var d :| Qualifies(h, d) && IsEventOf(KindOf(d), PostsOf(h, d), events[j]);
    EventOrder();
    if c == d {
      EventUnique(KindOf(c), PostsOf(h, c), events[i], events[j]);
    } else {
      EventsApart(h, c, d, events[i], events[j]);
    }
  }

  /** A trip claims all of a place's posts of a day or none. */
  lemma BucketConsumedWhole(h: History, loc: string, day: int)
    ensures LeftOver(h, loc, day) == {} || LeftOver(h, loc, day) == Bucket(h, loc, day)
  {
    hide IsTrip;
    if r :| r in Bucket(h, loc, day) && Consumed(h, r) {
      var l, s :| IsTrip(h, l, s) && r in RowsIn(At(h, l), s);
      forall x | x in Bucket(h, loc, day) ensures Consumed(h, x) {
        assert x in RowsIn(At(h, l), s);
      }
    }
  }

  /** The posts of a place on one day are together in an event, or none of them is in it. */
  lemma BucketNeverSplit(h: History, events: seq<Event>, ev: Event, loc: string, day: int)
    requires DistinctIds(h.rows) && Detection(h, events) && ev in events
    ensures
      var ids := Ids(Bucket(h, loc, day));
      (forall id :: id in ids ==> id in ev.postIds) || (forall id :: id in ids ==> id !in ev.postIds)
  {
    hide Qualifies, IsEventOf, Consumed;
    var c :| Qualifies(h, c) && IsEventOf(KindOf(c), PostsOf(h, c), ev);
    SubsetIds(h, c);
    EventCounts(KindOf(c), PostsOf(h, c), ev);
    if c.GatheringAt? {
      BucketConsumedWhole(h, c.loc, c.day);
    }
    assert Bucket(h, loc, day) <= PostsOf(h, c) || Bucket(h, loc, day) !! PostsOf(h, c);
  }

  /** No trip is at a place of the group's home area. */
  lemma NoTripAtHome(h: History, events: seq<Event>, ev: Event, r: Row)
    requires DistinctIds(h.rows) && Detection(h, events)
    requires ev in events && ev.kind == Trip && r in h.rows && r.postId in ev.postIds
    ensures !HomeArea(h.rows, h.cutoff, h.norm(r.location), h.norm)
  {
    hide IsRun, AwayAuthors, HomeArea, IsEventOf;
    var c :| Qualifies(h, c) && IsEventOf(KindOf(c), PostsOf(h, c), ev);
    EventKind(KindOf(c), PostsOf(h, c), ev);
    SubsetIds(h, c);
    EventCounts(KindOf(c), PostsOf(h, c), ev);
    var x :| x in PostsOf(h, c) && x.postId == r.postId;
    assert x == r;
  }

  /** The events that are made of exactly these posts. */
  ghost function EventsOn(events: seq<Event>, kind: Kind, ids: set<int>): set<int> {
    set i | 0 <= i < |events| && events[i].kind == kind && IdsOf(events[i]) == ids
  }

  /**
   A day at a place that no trip touches is exactly one gathering if it has the posts and authors, and none
   if not.
   */
  lemma OneGathering(h: History, events: seq<Event>, loc: string, day: int)
    requires DistinctIds(h.rows) && Detection(h, events)
    requires LeftOver(h, loc, day) == Bucket(h, loc, day) != {}
    ensures
      var b := Bucket(h, loc, day);
      |EventsOn(events, Gathering, Ids(b))|
      == if |b| >= 3 && |AuthorsOf(b)| >= 2 then 1 else 0
  {
    hide Detection, Bucket, LeftOver;
    var b := Bucket(h, loc, day);
    var on := EventsOn(events, Gathering, Ids(b));
    if IsGathering(h, loc, day) {
      var k := GatheringListed(h, events, loc, day);
      forall i | i in on ensures i == k {
        OnlyGathering(h, events, loc, day, i);
        if i < k {
          EventsDisjoint(h, events, i, k);
        } else if k < i {
          EventsDisjoint(h, events, k, i);
        }
        SomeId(b);
      }
      assert on == {k};
    } else {
      forall i | i in on ensures false {
        OnlyGathering(h, events, loc, day, i);
      }
      assert on == {};
    }
  }

  lemma SameIds(ev: Event, rows: set<Row>)
    requires forall id :: id in ev.postIds <==> id in Ids(rows)
    ensures IdsOf(ev) == Ids(rows)
  {
    forall id | id in IdsOf(ev) ensures id in Ids(rows) {
      assert id in ev.postIds;
    }
  }

  ghost function IdsOf(ev: Event): set<int> {
    set id | id in ev.postIds
  }

  lemma EventKind(kind: Kind, rows: set<Row>, ev: Event)
    requires IsEventOf(kind, rows, ev)
    ensures ev.kind == kind
  {
  }

  lemma SomeId(rows: set<Row>)
    requires rows != {}
    ensures exists id :: id in Ids(rows)
  {
    var r :| r in rows;
    assert r.postId in Ids(rows);
  }

  lemma GatheringListed(h: History, events: seq<Event>, loc: string, day: int) returns (k: nat)
    requires DistinctIds(h.rows) && Detection(h, events) && IsGathering(h, loc, day)
    ensures k < |events| && k in EventsOn(events, Gathering, Ids(LeftOver(h, loc, day)))
  {
    hide IsEventOf, LeftOver, EventOutranks;
    var c := GatheringAt(loc, day);
    assert Qualifies(h, c) && Listed(h, events, c);
    var ev :| ev in events && IsEventOf(KindOf(c), PostsOf(h, c), ev);
    EventKind(KindOf(c), PostsOf(h, c), ev);
    k :| k < |events| && events[k] == ev;
    SubsetIds(h, c);
    EventCounts(Gathering, PostsOf(h, c), ev);
    SameIds(ev, PostsOf(h, c));
  }

  /** A gathering on these posts is the gathering of that day and place. */
  lemma OnlyGathering(h: History, events: seq<Event>, loc: string, day: int, i: nat)
    requires DistinctIds(h.rows) && Detection(h, events)
    requires LeftOver(h, loc, day) == Bucket(h, loc, day) != {}
    requires i < |events| && i in EventsOn(events, Gathering, Ids(Bucket(h, loc, day)))
    ensures IsGathering(h, loc, day)
    ensures forall id :: id in Ids(Bucket(h, loc, day)) ==> id in events[i].postIds
  {
    hide IsTrip, Consumed, EventOutranks, IsEventOf;
    var ev := events[i];
    assert ev in events;
    var c :| Qualifies(h, c) && IsEventOf(KindOf(c), PostsOf(h, c), ev);
    EventKind(KindOf(c), PostsOf(h, c), ev);
    SubsetIds(h, c);
    EventCounts(KindOf(c), PostsOf(h, c), ev);
    var r :| r in Bucket(h, loc, day);
    assert r.postId in Ids(Bucket(h, loc, day));
    var x :| x in PostsOf(h, c) && x.postId == r.postId;
    assert x == r;
  }
}

/** Detecting events: trips first, then gatherings from what the trips leave. */
module EventDetect {
  import opened Wrappers
  import opened Sorting
  import opened EventRows
  import opened EventHome
  import opened TripRuns
  import opened EventBuild
  import opened Events
  import T = Text

  // ---------- one candidate trip ----------

  predicate AwayFrom(bases: map<int, string>, loc: string, author: int, multiDay: bool) {
    if author in bases then bases[author] != loc else multiDay
  }

  ghost function AwayIn(run: seq<Row>, bases: map<int, string>, loc: string, multiDay: bool): set<int> {
    set r | r in run && AwayFrom(bases, loc, r.authorId, multiDay) :: r.authorId
  }

  method BuildTripIfQualifies(loc: string, run: seq<Row>, bases: map<int, string>) returns (trip: Option<Event>)
    requires run != [] && DistinctPosts(run)
    ensures
      var multiDay := DayOf(run[0]) < DayOf(run[|run| - 1]);
      trip.Some? <==> |AwayIn(run, bases, loc, multiDay)| >= TRIP_MIN_AWAY_AUTHORS
    ensures trip.Some? ==> IsEventOf(Trip, Elements(run), trip.value)
  {
    hide IsEventOf, AwayIn, DistinctBy;
    var multiDay := DayOf(run[0]) < DayOf(run[|run| - 1]);
    var away: set<int> := {};
    NobodyAway(bases, loc, multiDay);
    assert run[..0] == [];
    for i := 0 to |run|
      invariant away == AwayIn(run[..i], bases, loc, multiDay)
    {
      var r := run[i];
      AwayOne(run[..i], r, bases, loc, multiDay);
      assert run[..i + 1] == run[..i] + [r];
      if r.authorId in bases && bases[r.authorId] != loc {
        away := away + {r.authorId};
      } else if r.authorId !in bases && multiDay {
        away := away + {r.authorId};
      }
    }
    assert run[..|run|] == run;
    if |away| < TRIP_MIN_AWAY_AUTHORS {
      return None;
    }
    var ev := BuildEvent(Trip, run);
    return Some(ev);
  }

  lemma NobodyAway(bases: map<int, string>, loc: string, multiDay: bool)
    ensures AwayIn([], bases, loc, multiDay) == {}
  {
  }

  lemma AwayOne(done: seq<Row>, r: Row, bases: map<int, string>, loc: string, multiDay: bool)
    ensures
      var was := AwayIn(done, bases, loc, multiDay);
      AwayIn(done + [r], bases, loc, multiDay)
      == if AwayFrom(bases, loc, r.authorId, multiDay) then was + {r.authorId} else was
  {
  }

  /** The map of home bases says who is away. */
  lemma AwayAgrees(h: History, bases: map<int, string>, loc: string, run: seq<Row>, s: Span)
    requires HomeBases(h.rows, h.cutoff, h.norm, bases)
    requires Elements(run) == RowsIn(At(h, loc), s)
    ensures AwayIn(run, bases, loc, s.first < s.last) == AwayAuthors(h, loc, s)
  {
    hide HomeBase, At, RowsIn;
    var multiDay := s.first < s.last;
    forall a ensures AwayFrom(bases, loc, a, multiDay) == Away(h, loc, a, multiDay) {
      if a in bases {
        assert HomeBase(h.rows, h.cutoff, a, bases[a], h.norm);
      }
    }
    forall a ensures a in AuthorsOf(Elements(run)) <==> exists r :: r in run && r.authorId == a {
      if r :| r in run && r.authorId == a {
        assert r in Elements(run);
      }
    }
  }

  // ---------- events and the clusters they are of ----------

  ghost predicate Matched(h: History, clusters: seq<Cluster>, events: seq<Event>) {
    && |clusters| == |events| && Distinct(clusters)
    && forall i :: 0 <= i < |clusters| ==>
         Qualifies(h, clusters[i]) && IsEventOf(KindOf(clusters[i]), PostsOf(h, clusters[i]), events[i])
  }

  ghost function Claimed(h: History, clusters: seq<Cluster>): set<int> {
    set c, r | c in clusters && r in PostsOf(h, c) :: r.postId
  }

  lemma MatchedAppend(h: History, clusters: seq<Cluster>, events: seq<Event>, c: Cluster, ev: Event)
    requires Matched(h, clusters, events) && c !in clusters
    requires Qualifies(h, c) && IsEventOf(KindOf(c), PostsOf(h, c), ev)
    ensures Matched(h, clusters + [c], events + [ev])
    ensures Claimed(h, clusters + [c]) == Claimed(h, clusters) + Ids(PostsOf(h, c))
  {
    hide Qualifies, PostsOf, IsEventOf;
    forall id ensures id in Claimed(h, clusters + [c]) <==> id in Claimed(h, clusters) || id in Ids(PostsOf(h, c)) {
      if x, r :| x in clusters + [c] && r in PostsOf(h, x) && r.postId == id {
        assert x in clusters || x == c;
      }
      if id in Ids(PostsOf(h, c)) {
        assert c in clusters + [c];
      }
      if x, r :| x in clusters && r in PostsOf(h, x) && r.postId == id {
        assert x in clusters + [c];
      }
    }
  }

  // ---------- trips ----------

  predicate StringBefore(a: string, b: string) {
    T.Less(a, b)
  }

  lemma StringOrder()
    ensures WeakOrder(StringBefore)
  {
    hide T.Less;
    T.LessIsOrder();
  }

  /** Every trip at the places done, and those among `spans` at this one. */
  ghost predicate TripsSoFar(h: History, clusters: seq<Cluster>, done: seq<string>, loc: string, spans: seq<Span>) {
    forall c :: c in clusters <==>
      c.TripAt? && Qualifies(h, c) && (c.loc in done || (c.loc == loc && c.span in spans))
  }

  /** Everything the runs of one place say. */
  lemma {:induction false} RunsOfPlace(h: History, loc: string, locRows: seq<Row>, runs: seq<seq<Row>>)
    requires Elements(locRows) == At(h, loc) && DistinctPosts(locRows)
    requires multiset(Flatten(runs)) == multiset(locRows) && Sorted(Flatten(runs), Older)
    requires RunsMatch(runs, Spans(DaysOf(Flatten(runs))))
    ensures
      var spans := Spans(DaysOf(Flatten(runs)));
      && |runs| == |spans| && Distinct(spans)
      && (forall s :: IsRun(h, loc, s) <==> s in spans)
      && (forall k :: 0 <= k < |runs| ==>
            && runs[k] != [] && DistinctPosts(runs[k])
            && Elements(runs[k]) == RowsIn(At(h, loc), spans[k])
            && spans[k] == Span(DayOf(runs[k][0]), DayOf(runs[k][|runs[k]| - 1])))
  {
    hide Flatten, Spans, Dedup, Sorted, DayList, ValidDays;
    var sorted := Flatten(runs);
    var spans := Spans(DaysOf(sorted));
    SameElements(sorted, locRows);
    assert Elements(sorted) == At(h, loc);
    DistinctByPermutation(locRows, sorted, PostIdOf);
    SpansAreRuns(h, loc, sorted);
    SortedDaysAscend(sorted);
    SpansOrdered(DaysOf(sorted));
    forall k | 0 <= k < |runs|
      ensures runs[k] != [] && DistinctPosts(runs[k]) && Elements(runs[k]) == RowsIn(At(h, loc), spans[k])
      ensures spans[k] == Span(DayOf(runs[k][0]), DayOf(runs[k][|runs[k]| - 1]))
    {
      assert RunMatches(runs[k], spans[k]);
      RunElements(runs, k);
      PartDistinct(runs, k);
    }
  }

  lemma SpansAreRuns(h: History, loc: string, sorted: seq<Row>)
    requires Sorted(sorted, Older) && Elements(sorted) == At(h, loc)
    ensures forall s :: IsRun(h, loc, s) <==> s in Spans(DaysOf(sorted))
  {
    hide Spans, Dedup, Sorted, DayList, At;
    ListsDays(sorted);
    var list := Dedup(DaysOf(sorted));
    SpansOfSet(sorted, list);
    forall s ensures IsRun(h, loc, s) <==> s in Spans(DaysOf(sorted)) {
      if IsRun(h, loc, s) {
        var other :| DayList(Days(At(h, loc)), other) && s in Spans(other);
        SpansOfSet(sorted, other);
      }
      assert DayList(Days(At(h, loc)), list);
    }
  }

  lemma {:induction false} PartDistinct(parts: seq<seq<Row>>, k: nat)
    requires DistinctPosts(Flatten(parts)) && k < |parts|
    ensures DistinctPosts(parts[k])
  {
    var init, last := parts[..|parts| - 1], parts[|parts| - 1];
    var flat := Flatten(parts);
    if k < |parts| - 1 {
      assert Flatten(init) == flat[..|Flatten(init)|];
      DistinctPrefix(flat, |Flatten(init)|);
      PartDistinct(init, k);
    } else {
      var n := |Flatten(init)|;
      forall i, j | 0 <= i < j < |last| ensures PostIdOf(last[i]) != PostIdOf(last[j]) {
        assert flat[n + i] == last[i] && flat[n + j] == last[j];
        assert PostIdOf(flat[n + i]) != PostIdOf(flat[n + j]);
      }
    }
  }

  /** The next run of a place: a trip if enough authors are away. */
  lemma NextRun(h: History, clusters: seq<Cluster>, done: seq<string>, loc: string, spans: seq<Span>, s: Span)
    requires TripsSoFar(h, clusters, done, loc, spans)
    ensures
      var clusters' := if Qualifies(h, TripAt(loc, s)) then clusters + [TripAt(loc, s)] else clusters;
      TripsSoFar(h, clusters', done, loc, spans + [s])
    ensures loc !in done && s !in spans ==> TripAt(loc, s) !in clusters
  {
    hide Qualifies;
  }

  lemma PlaceDone(h: History, clusters: seq<Cluster>, done: seq<string>, loc: string, spans: seq<Span>, next: string)
    requires TripsSoFar(h, clusters, done, loc, spans)
    requires forall s :: Qualifies(h, TripAt(loc, s)) ==> s in spans
    ensures TripsSoFar(h, clusters, done + [loc], next, [])
  {
    hide Qualifies;
  }

  lemma TripQualifies(h: History, bases: map<int, string>, loc: string, run: seq<Row>, s: Span)
    requires HomeBases(h.rows, h.cutoff, h.norm, bases) && !HomeArea(h.rows, h.cutoff, loc, h.norm)
    requires Elements(run) == RowsIn(At(h, loc), s) && IsRun(h, loc, s)
    ensures Qualifies(h, TripAt(loc, s)) <==> |AwayIn(run, bases, loc, s.first < s.last)| >= TRIP_MIN_AWAY_AUTHORS
  {
    hide HomeBases, HomeArea, AwayIn, AwayAuthors, IsRun, RowsIn, At;
    AwayAgrees(h, bases, loc, run, s);
  }

  /** The trips at one place outside the home area, added to those found before. */
  method TripsAt(loc: string, locRows: seq<Row>, bases: map<int, string>, events: seq<Event>, consumed: set<int>,
                 ghost h: History, ghost clusters: seq<Cluster>, ghost done: seq<string>)
    returns (events': seq<Event>, consumed': set<int>, ghost clusters': seq<Cluster>)
    requires Elements(locRows) == At(h, loc) && DistinctPosts(locRows) && loc !in done
    requires HomeBases(h.rows, h.cutoff, h.norm, bases) && !HomeArea(h.rows, h.cutoff, loc, h.norm)
    requires Matched(h, clusters, events) && consumed == Claimed(h, clusters) && TripsSoFar(h, clusters, done, loc, [])
    ensures Matched(h, clusters', events') && consumed' == Claimed(h, clusters')
    ensures TripsSoFar(h, clusters', done + [loc], loc, [])
  {
    hide HomeBases, HomeArea, Matched, Claimed, TripsSoFar, IsRun, AwayIn, AwayAuthors, IsEventOf, RowsIn, At,
         Flatten, Spans, RunsMatch, Sorted, DistinctBy;
    events', consumed', clusters' := events, consumed, clusters;
    var runs := SplitRuns(locRows);
    RunsOfPlace(h, loc, locRows, runs);
    ghost var spans := Spans(DaysOf(Flatten(runs)));
    assert spans[..0] == [];
    for k := 0 to |runs|
      invariant Matched(h, clusters', events') && consumed' == Claimed(h, clusters')
      invariant TripsSoFar(h, clusters', done, loc, spans[..k])
    {
      var run := runs[k];
      ghost var c := TripAt(loc, spans[k]);
      assert spans[..k + 1] == spans[..k] + [spans[k]];
      assert spans[k] in spans && spans[k] !in spans[..k];
      NextRun(h, clusters', done, loc, spans[..k], spans[k]);
      TripQualifies(h, bases, loc, run, spans[k]);
      var trip := BuildTripIfQualifies(loc, run, bases);
      if trip.Some? {
        MatchedAppend(h, clusters', events', c, trip.value);
        clusters' := clusters' + [c];
        events' := events' + [trip.value];
        consumed' := consumed' + set r | r in run :: r.postId;
        assert (set r | r in run :: r.postId) == Ids(Elements(run));
      }
    }
    assert spans[..|runs|] == spans;
    PlaceDone(h, clusters', done, loc, spans, loc);
  }

  lemma HomeDone(h: History, clusters: seq<Cluster>, done: seq<string>, loc: string, next: string)
    requires TripsSoFar(h, clusters, done, loc, []) && HomeArea(h.rows, h.cutoff, loc, h.norm)
    ensures TripsSoFar(h, clusters, done + [loc], next, [])
  {
    hide HomeArea, IsRun, AwayAuthors;
  }

  lemma SwitchPlace(h: History, clusters: seq<Cluster>, done: seq<string>, loc: string, next: string)
    requires TripsSoFar(h, clusters, done, loc, [])
    ensures TripsSoFar(h, clusters, done, next, [])
  {
    hide Qualifies;
  }

  lemma NoTrips(h: History)
    ensures TripsSoFar(h, [], [], "", []) && Matched(h, [], []) && Claimed(h, []) == {}
  {
  }

  /** The rows grouped under a place are those there. */
  lemma GroupElements(rows: seq<Row>, h: History, order: seq<string>, groups: map<string, seq<Row>>, loc: string)
    requires Grouped(rows, h.norm, order, groups) && h.rows == Elements(rows) && DistinctPosts(rows) && loc in groups
    ensures Elements(groups[loc]) == At(h, loc) && DistinctPosts(groups[loc])
  {
    AtPlaceDistinct(rows, loc, h.norm);
  }

  lemma TripHasPlace(rows: seq<Row>, h: History, c: Cluster)
    requires h.rows == Elements(rows) && c.TripAt? && Qualifies(h, c)
    ensures HasPlace(rows, c.loc, h.norm)
  {
    hide HomeArea, IsRun;
    ClusterNonempty(h, c);
    var r :| r in PostsOf(h, c);
    assert r in rows;
  }

  /** Every trip of the history, and no other cluster. */
  ghost predicate AllTrips(h: History, clusters: seq<Cluster>) {
    forall c :: c in clusters <==> c.TripAt? && Qualifies(h, c)
  }

  lemma TripsComplete(rows: seq<Row>, h: History, clusters: seq<Cluster>, locations: seq<string>, loc: string)
    requires h.rows == Elements(rows) && TripsSoFar(h, clusters, locations, loc, [])
    requires forall k :: k in locations <==> HasPlace(rows, k, h.norm)
    ensures AllTrips(h, clusters)
  {
    hide Qualifies, HasPlace;
    forall c: Cluster | c.TripAt? && Qualifies(h, c) ensures c in clusters {
      TripHasPlace(rows, h, c);
    }
  }

  method DetectTrips(rows: seq<Row>, norm: Norm, bases: map<int, string>, homeArea: set<string>, ghost h: History)
    returns (events: seq<Event>, consumed: set<int>, ghost clusters: seq<Cluster>)
    requires DistinctPosts(rows) && h.rows == Elements(rows) && h.norm == norm
    requires HomeBases(h.rows, h.cutoff, h.norm, bases)
    requires forall loc :: loc in homeArea <==> HomeArea(h.rows, h.cutoff, loc, h.norm)
    ensures Matched(h, clusters, events) && consumed == Claimed(h, clusters) && AllTrips(h, clusters)
  {
    hide HomeBases, HomeArea, Matched, Claimed, TripsSoFar, Sorted, DistinctBy, Elements, AtPlace, HasPlace, At,
         WeakOrder, AllTrips;
    var order, groups := GroupByPlace(rows, norm);
    StringOrder();
    var locations := SortSlice(order, StringBefore);
    SameElements(locations, order);
    DistinctPermutation(order, locations);
    events, consumed, clusters := [], {}, [];
    NoTrips(h);
    assert locations[..0] == [];
    for i := 0 to |locations|
      invariant Matched(h, clusters, events) && consumed == Claimed(h, clusters)
      invariant TripsSoFar(h, clusters, locations[..i], "", [])
    {
      var loc := locations[i];
      assert loc in locations && loc !in locations[..i];
      assert locations[..i + 1] == locations[..i] + [loc];
      SwitchPlace(h, clusters, locations[..i], "", loc);
      if loc in homeArea {
        HomeDone(h, clusters, locations[..i], loc, "");
      } else {
        GroupElements(rows, h, order, groups, loc);
        events, consumed, clusters := TripsAt(loc, groups[loc], bases, events, consumed, h, clusters, locations[..i]);
        SwitchPlace(h, clusters, locations[..i + 1], loc, "");
      }
    }
    assert locations[..|locations|] == locations;
    TripsComplete(rows, h, clusters, locations, "");
  }

  // ---------- gatherings ----------

  datatype BucketKey = BucketKey(loc: string, day: int)

  function KeyOf(r: Row, norm: Norm): BucketKey {
    BucketKey(norm(r.location), DayOf(r))
  }

  predicate KeyBefore(a: BucketKey, b: BucketKey) {
    if a.day != b.day then a.day < b.day else T.Less(a.loc, b.loc)
  }

  lemma KeyOrder()
    ensures WeakOrder(KeyBefore)
  {
    hide T.Less;
    T.LessIsOrder();
  }

  function RowsUnder(buckets: map<BucketKey, seq<Row>>, k: BucketKey): seq<Row> {
    if k in buckets then buckets[k] else []
  }

  ghost function Unclaimed(rows: set<Row>, consumed: set<int>, norm: Norm, k: BucketKey): set<Row> {
    set r | r in rows && r.postId !in consumed && KeyOf(r, norm) == k
  }

  /** The unclaimed posts read so far, by place and day. */
  ghost predicate Bucketed(done: seq<Row>, consumed: set<int>, norm: Norm, buckets: map<BucketKey, seq<Row>>) {
    && (forall k :: Elements(RowsUnder(buckets, k)) == Unclaimed(Elements(done), consumed, norm, k))
    && (forall k :: DistinctPosts(RowsUnder(buckets, k)))
    && (forall k :: k in buckets ==> buckets[k] != [])
  }

  lemma BucketOne(done: seq<Row>, r: Row, consumed: set<int>, norm: Norm, buckets: map<BucketKey, seq<Row>>)
    requires Bucketed(done, consumed, norm, buckets) && DistinctPosts(done + [r])
    ensures
      var k := KeyOf(r, norm);
      Bucketed(done + [r], consumed, norm,
               if r.postId in consumed then buckets else buckets[k := RowsUnder(buckets, k) + [r]])
  {
    hide DistinctBy, Elements, Unclaimed, KeyOf;
    var key := KeyOf(r, norm);
    var buckets' := if r.postId in consumed then buckets else buckets[key := RowsUnder(buckets, key) + [r]];
    forall k
      ensures Elements(RowsUnder(buckets', k)) == Unclaimed(Elements(done + [r]), consumed, norm, k)
      ensures DistinctPosts(RowsUnder(buckets', k))
    {
      BucketRow(done, r, consumed, norm, k, RowsUnder(buckets, k));
    }
  }

  lemma BucketRow(done: seq<Row>, r: Row, consumed: set<int>, norm: Norm, k: BucketKey, under: seq<Row>)
    requires Elements(under) == Unclaimed(Elements(done), consumed, norm, k)
    requires DistinctPosts(under) && DistinctPosts(done + [r])
    ensures
      var joins := r.postId !in consumed && KeyOf(r, norm) == k;
      var under' := if joins then under + [r] else under;
      Elements(under') == Unclaimed(Elements(done + [r]), consumed, norm, k) && DistinctPosts(under')
  {
    assert Elements(done + [r]) == Elements(done) + {r};
    if r.postId !in consumed && KeyOf(r, norm) == k {
      assert Elements(under + [r]) == Elements(under) + {r};
      forall i | 0 <= i < |under| ensures PostIdOf(under[i]) != PostIdOf(r) {
        assert under[i] in Elements(under);
        var j :| 0 <= j < |done| && done[j] == under[i];
        assert PostIdOf((done + [r])[j]) != PostIdOf((done + [r])[|done|]);
      }
    }
  }

  /** A post was consumed when its id is claimed. */
  lemma ConsumedIds(h: History, trips: seq<Cluster>, r: Row)
    requires DistinctIds(h.rows) && AllTrips(h, trips) && r in h.rows
    ensures r.postId in Claimed(h, trips) <==> Consumed(h, r)
  {
    hide IsTrip;
    if r.postId in Claimed(h, trips) {
      var c, x :| c in trips && x in PostsOf(h, c) && x.postId == r.postId;
      assert x == r;
    }
    if Consumed(h, r) {
      var loc, s :| IsTrip(h, loc, s) && r in RowsIn(At(h, loc), s);
      assert Qualifies(h, TripAt(loc, s));
      assert TripAt(loc, s) in trips && r in PostsOf(h, TripAt(loc, s));
    }
  }

  lemma BucketIsLeftOver(h: History, trips: seq<Cluster>, loc: string, day: int)
    requires DistinctIds(h.rows) && AllTrips(h, trips)
    ensures Unclaimed(h.rows, Claimed(h, trips), h.norm, BucketKey(loc, day)) == LeftOver(h, loc, day)
  {
    hide AllTrips, Claimed, Consumed, DistinctIds;
    forall r | r in h.rows ensures r.postId in Claimed(h, trips) <==> Consumed(h, r) {
      ConsumedIds(h, trips, r);
    }
  }

  /** Every gathering under the keys done. */
  ghost predicate GatheringsSoFar(h: History, clusters: seq<Cluster>, done: seq<BucketKey>) {
    forall c :: c in clusters <==> c.GatheringAt? && Qualifies(h, c) && BucketKey(c.loc, c.day) in done
  }

  lemma NextKey(h: History, clusters: seq<Cluster>, done: seq<BucketKey>, k: BucketKey)
    requires GatheringsSoFar(h, clusters, done) && k !in done
    ensures
      var c := GatheringAt(k.loc, k.day);
      c !in clusters && GatheringsSoFar(h, if Qualifies(h, c) then clusters + [c] else clusters, done + [k])
  {
    hide Qualifies;
  }

  ghost predicate AllGatherings(h: History, clusters: seq<Cluster>) {
    forall c :: c in clusters <==> c.GatheringAt? && Qualifies(h, c)
  }

  lemma GatheringsComplete(h: History, clusters: seq<Cluster>, keys: seq<BucketKey>)
    requires GatheringsSoFar(h, clusters, keys)
    requires forall loc, day :: BucketKey(loc, day) !in keys ==> LeftOver(h, loc, day) == {}
    ensures AllGatherings(h, clusters)
  {
    hide IsTrip, LeftOver;
  }

  lemma NoGatherings(h: History, consumed: set<int>)
    ensures Bucketed([], consumed, h.norm, map[]) && GatheringsSoFar(h, [], []) && Matched(h, [], [])
  {
  }

  method BucketRows(rows: seq<Row>, consumed: set<int>, norm: Norm) returns (buckets: map<BucketKey, seq<Row>>)
    requires DistinctPosts(rows)
    ensures Bucketed(rows, consumed, norm, buckets)
  {
    hide Bucketed, DistinctBy;
    buckets := map[];
    NoGatherings(History({}, 0, norm), consumed);
    assert rows[..0] == [];
    for i := 0 to |rows|
      invariant Bucketed(rows[..i], consumed, norm, buckets)
    {
      var r := rows[i];
      assert rows[..i + 1] == rows[..i] + [r];
      DistinctPrefix(rows, i + 1);
      BucketOne(rows[..i], r, consumed, norm, buckets);
      if r.postId !in consumed {
        var k := KeyOf(r, norm);
        buckets := buckets[k := RowsUnder(buckets, k) + [r]];
      }
    }
    assert rows[..|rows|] == rows;
  }

  /** The keys of a map as a list: in no particular order. */
  method ListKeys(buckets: map<BucketKey, seq<Row>>) returns (keys: seq<BucketKey>)
    ensures Distinct(keys) && forall k :: k in keys <==> k in buckets
  {
    keys := [];
    var todo := buckets.Keys;
    while todo != {}
      invariant todo <= buckets.Keys && Distinct(keys)
      invariant forall k :: k in keys <==> k in buckets && k !in todo
      decreases todo
    {
      var k := PickOne(todo);
      todo := todo - {k};
      keys := keys + [k];
    }
  }

  method GatheringIfQualifies(run: seq<Row>) returns (gathering: Option<Event>)
    requires run != [] && DistinctPosts(run)
    ensures gathering.Some? <==>
              |Elements(run)| >= GATHERING_MIN_POSTS && |AuthorsOf(Elements(run))| >= GATHERING_MIN_AUTHORS
    ensures gathering.Some? ==> IsEventOf(Gathering, Elements(run), gathering.value)
  {
    hide IsEventOf, DistinctBy;
    var authors: set<int> := {};
    for i := 0 to |run|
      invariant authors == AuthorsOf(Elements(run[..i]))
    {
      assert Elements(run[..i + 1]) == Elements(run[..i]) + {run[i]};
      authors := authors + {run[i].authorId};
    }
    assert run[..|run|] == run;
    ElementsSize(run);
    if |run| >= GATHERING_MIN_POSTS && |authors| >= GATHERING_MIN_AUTHORS {
      var ev := BuildEvent(Gathering, run);
      return Some(ev);
    }
    return None;
  }

  lemma UnderKey(h: History, trips: seq<Cluster>, rows: seq<Row>, buckets: map<BucketKey, seq<Row>>)
    requires h.rows == Elements(rows) && DistinctIds(h.rows) && AllTrips(h, trips)
    requires Bucketed(rows, Claimed(h, trips), h.norm, buckets)
    ensures forall loc, day :: Elements(RowsUnder(buckets, BucketKey(loc, day))) == LeftOver(h, loc, day)
    ensures forall k :: k in buckets ==> buckets[k] != [] && DistinctPosts(buckets[k])
    ensures forall loc, day :: BucketKey(loc, day) !in buckets ==> LeftOver(h, loc, day) == {}
  {
    hide Unclaimed, LeftOver, AllTrips, Claimed, DistinctBy, DistinctIds;
    forall loc, day ensures Elements(RowsUnder(buckets, BucketKey(loc, day))) == LeftOver(h, loc, day) {
      BucketIsLeftOver(h, trips, loc, day);
    }
    forall k | k in buckets ensures DistinctPosts(buckets[k]) {
      assert DistinctPosts(RowsUnder(buckets, k));
    }
  }

  method DetectGatherings(rows: seq<Row>, norm: Norm, consumed: set<int>, ghost h: History, ghost trips: seq<Cluster>)
    returns (events: seq<Event>, ghost clusters: seq<Cluster>)
    requires DistinctPosts(rows) && h.rows == Elements(rows) && h.norm == norm
    requires AllTrips(h, trips) && consumed == Claimed(h, trips)
    ensures Matched(h, clusters, events) && AllGatherings(h, clusters)
  {
    hide AllTrips, Claimed, AllGatherings, GatheringsSoFar, Matched, Bucketed, LeftOver, IsEventOf, DistinctBy,
         Elements, AuthorsOf, Sorted, WeakOrder, DistinctIds;
    var buckets := BucketRows(rows, consumed, norm);
    DistinctElements(rows);
    UnderKey(h, trips, rows, buckets);
    var listed := ListKeys(buckets);
    KeyOrder();
    var keys := SortSlice(listed, KeyBefore);
    SameElements(keys, listed);
    DistinctPermutation(listed, keys);
    events, clusters := [], [];
    NoGatherings(h, consumed);
    assert keys[..0] == [];
    for i := 0 to |keys|
      invariant Matched(h, clusters, events) && GatheringsSoFar(h, clusters, keys[..i])
    {
      var k := keys[i];
      assert k in keys && k !in keys[..i];
      assert keys[..i + 1] == keys[..i] + [k];
      NextKey(h, clusters, keys[..i], k);
      ghost var c := GatheringAt(k.loc, k.day);
      assert Elements(RowsUnder(buckets, BucketKey(k.loc, k.day))) == PostsOf(h, c);
      var gathering := GatheringIfQualifies(buckets[k]);
      if gathering.Some? {
        MatchedAppend(h, clusters, events, c, gathering.value);
        clusters := clusters + [c];
        events := events + [gathering.value];
      }
    }
    assert keys[..|keys|] == keys;
    GatheringsComplete(h, clusters, keys);
  }

  // ---------- everything ----------

  lemma MatchedBoth(h: History, trips: seq<Cluster>, gatherings: seq<Cluster>, a: seq<Event>, b: seq<Event>)
    requires Matched(h, trips, a) && AllTrips(h, trips) && Matched(h, gatherings, b) && AllGatherings(h, gatherings)
    ensures Matched(h, trips + gatherings, a + b)
    ensures forall c :: Qualifies(h, c) <==> c in trips + gatherings
  {
    hide Qualifies, IsEventOf, PostsOf;
    var all := trips + gatherings;
    forall i, j | 0 <= i < j < |all| ensures all[i] != all[j] {
      assert i < |trips| ==> all[i] in trips;
      assert j >= |trips| ==> all[j] in gatherings;
    }
  }

  lemma MatchedDetection(h: History, clusters: seq<Cluster>, unsorted: seq<Event>, events: seq<Event>)
    requires DistinctIds(h.rows) && Matched(h, clusters, unsorted) && forall c :: Qualifies(h, c) <==> c in clusters
    requires multiset(events) == multiset(unsorted) && Sorted(events, EventOutranks)
    ensures Detection(h, events)
  {
    hide Qualifies, IsEventOf, PostsOf, EventOutranks, FirstPost, DistinctIds;
    SameElements(events, unsorted);
    EventOrder();
    assert DistinctBy(unsorted, FirstPost) by {
      forall i, j | 0 <= i < j < |unsorted| ensures FirstPost(unsorted[i]) != FirstPost(unsorted[j]) {
        EventsApart(h, clusters[i], clusters[j], unsorted[i], unsorted[j]);
      }
    }
    DistinctByPermutation(unsorted, events, FirstPost);
    forall i, j | 0 <= i < j < |events| ensures EventOutranks(events[i], events[j]) {
      assert !EventOutranks(events[j], events[i]) && FirstPost(events[i]) != FirstPost(events[j]);
    }
    forall ev | ev in events ensures IsEvent(h, ev) {
      var i :| 0 <= i < |unsorted| && unsorted[i] == ev;
      assert Qualifies(h, clusters[i]);
    }
    forall c | Qualifies(h, c) ensures Listed(h, events, c) {
      var i :| 0 <= i < |clusters| && clusters[i] == c;
      assert unsorted[i] in unsorted;
    }
  }

  /** The whole detection: a function of the set of posts, whatever order they come in. */
  method DetectEvents(rows: seq<Row>, cutoff: int, norm: Norm) returns (events: seq<Event>)
    requires DistinctPosts(rows)
    ensures Detection(History(Elements(rows), cutoff, norm), events)
  {
    hide Detection, Matched, Claimed, AllTrips, AllGatherings, HomeBases, HomeArea, Elements, DistinctIds, DistinctBy,
         Sorted, WeakOrder, EventOutranks, Qualifies;
    ghost var h := History(Elements(rows), cutoff, norm);
    var bases := ComputeHomeBases(rows, cutoff, norm);
    var homeArea := ComputeHomeArea(rows, cutoff, norm);
    var trips, consumed, tripClusters := DetectTrips(rows, norm, bases, homeArea, h);
    var gatherings, gatheringClusters := DetectGatherings(rows, norm, consumed, h, tripClusters);
    MatchedBoth(h, tripClusters, gatheringClusters, trips, gatherings);
    EventOrder();
    events := SortSlice(trips + gatherings, EventOutranks);
    DistinctElements(rows);
    MatchedDetection(h, tripClusters + gatheringClusters, trips + gatherings, events);
  }
}
