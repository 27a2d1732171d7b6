/** What the list of events, and each event, says in terms of the posts alone. */
module EventFacts {
  import opened Wrappers
  import opened Sorting
  import opened Rosters
  import opened EventRows
  import opened EventHome
  import opened TripRuns
  import opened EventBuild
  import opened Events
  import Text
  import Places

  /** Newest end first; on the same day trips before gatherings; and then newest start. */
  lemma EventsInOrder(h: History, events: seq<Event>, i: nat, j: nat)
    requires Detection(h, events) && i < j < |events|
    ensures events[i].endDate >= events[j].endDate
    ensures events[i].endDate == events[j].endDate && events[j].kind == Trip ==> events[i].kind == Trip
    ensures events[i].endDate == events[j].endDate && events[i].kind == events[j].kind ==>
              events[i].startDate >= events[j].startDate
  {
    hide IsEvent, Listed, Qualifies;
    assert EventOutranks(events[i], events[j]);
  }

  // ---------- one event ----------

  /** The posts of an event are listed in order of time. */
  lemma PostsInOrder(kind: Kind, rows: set<Row>, ev: Event, i: nat, j: nat, a: Row, b: Row)
    requires DistinctIds(rows) && IsEventOf(kind, rows, ev) && i < j < |ev.postIds|
    requires a in rows && b in rows && a.postId == ev.postIds[i] && b.postId == ev.postIds[j]
    ensures a.createdAt <= b.createdAt
  {
    hide Roster, TotalPhotos, IsCover, IsMostCommon, LocationCounts;
    var sorted :| InOrder(rows, sorted) && Describes(kind, sorted, ev);
    assert sorted[i] in rows && sorted[j] in rows;
    assert sorted[i] == a && sorted[j] == b;
    assert Chronological(sorted[i], sorted[j]);
  }

  /** Its first and last days are those of its earliest and its latest post, counted in UTC. */
  lemma EventDays(kind: Kind, rows: set<Row>, ev: Event, r: Row)
    requires DistinctIds(rows) && IsEventOf(kind, rows, ev) && r in rows
    ensures ev.startDate * 86_400_000_000_000 <= r.createdAt < (ev.endDate + 1) * 86_400_000_000_000
    ensures exists a :: a in rows && a.createdAt < (ev.startDate + 1) * 86_400_000_000_000
    ensures exists b :: b in rows && ev.endDate * 86_400_000_000_000 <= b.createdAt
  {
    hide IsEventOf;
    EventCounts(kind, rows, ev);
    var a :| a in rows && DayOf(a) == ev.startDate;
    var b :| b in rows && DayOf(b) == ev.endDate;
  }

  /** Its cover is of a post with the most likes of those that have one. */
  lemma CoverMostLiked(kind: Kind, rows: set<Row>, ev: Event)
    requires IsEventOf(kind, rows, ev)
    ensures ev.coverMediaId.None? <==> forall r :: r in rows ==> r.coverMediaId.None?
    ensures ev.coverMediaId.Some? ==> exists best ::
              && best in rows && best.coverMediaId == ev.coverMediaId
              && forall r :: r in rows && r.coverMediaId.Some? ==> r.likeCount <= best.likeCount
  {
    hide Roster, TotalPhotos, IsMostCommon, LocationCounts;
    var sorted :| InOrder(rows, sorted) && Describes(kind, sorted, ev);
    if r :| r in rows && r.coverMediaId.Some? {
      var best :| BestCover(rows, best) && ev.coverMediaId == best.coverMediaId;
      forall q | q in rows && q.coverMediaId.Some? ensures q.likeCount <= best.likeCount {
        assert q == best || CoversBefore(best, q);
      }
    }
  }

  /** Its place is a location of its posts, and no other is that of more of them. */
  lemma PlaceMostCommon(kind: Kind, rows: set<Row>, ev: Event, location: string)
    requires IsEventOf(kind, rows, ev)
    ensures PostedAs(rows, ev.place) != {}
    ensures |PostedAs(rows, location)| <= |PostedAs(rows, ev.place)|
  {
    hide Roster, TotalPhotos, IsCover, InOrder;
    var sorted :| InOrder(rows, sorted) && Describes(kind, sorted, ev);
    InOrderSame(rows, sorted);
    var counts := LocationCounts(rows);
    var r :| r in rows && r.location == ev.place;
    assert r in PostedAs(rows, ev.place);
    if location !in counts {
      assert PostedAs(rows, location) == {};
    }
  }

  /** Its photos are those of its posts, whatever their order. */
  lemma {:induction false} PhotoTotal(kind: Kind, rows: set<Row>, ev: Event)
    requires DistinctIds(rows) && IsEventOf(kind, rows, ev)
    ensures ev.photoCount as real == Places.Sum(rows, Places.PhotosOf)
  {
    hide Roster, IsCover, IsMostCommon, LocationCounts, InOrder, TotalPhotos;
    var sorted :| InOrder(rows, sorted) && Describes(kind, sorted, ev);
    InOrderDistinct(rows, sorted);
    InOrderSame(rows, sorted);
    PhotosOfSet(sorted);
  }

  lemma {:induction false} PhotosOfSet(sorted: seq<Row>)
    requires DistinctPosts(sorted)
    ensures TotalPhotos(sorted) as real == Places.Sum(Elements(sorted), Places.PhotosOf)
  {
    if sorted == [] {
      assert Elements(sorted) == {};
    } else {
      var init, r := sorted[..|sorted| - 1], sorted[|sorted| - 1];
      PhotosOfSet(init) by {
        forall i, j | 0 <= i < j < |init| ensures PostIdOf(init[i]) != PostIdOf(init[j]) {
          assert PostIdOf(sorted[i]) != PostIdOf(sorted[j]);
        }
      }
      assert sorted == init + [r];
      assert Elements(sorted) == Elements(init) + {r};
      assert r !in Elements(init) by {
        forall i | 0 <= i < |init| ensures init[i] != r {
          assert PostIdOf(sorted[i]) != PostIdOf(sorted[|sorted| - 1]);
        }
      }
      Places.SumWith(Elements(init), Places.PhotosOf, r);
    }
  }

  lemma InOrderSame(rows: set<Row>, sorted: seq<Row>)
    requires InOrder(rows, sorted)
    ensures Elements(sorted) == rows
  {
  }

  ghost function PostsBy(rows: set<Row>, author: int): set<Row> {
    set r | r in rows && r.authorId == author
  }

  /** Its participants are its authors, the busiest first, each with as many posts as they wrote. */
  lemma BusiestFirst(kind: Kind, rows: set<Row>, ev: Event, i: nat, j: nat)
    requires DistinctIds(rows) && IsEventOf(kind, rows, ev) && i < j < |ev.participants|
    ensures ev.participants[i].posts >= ev.participants[j].posts
    ensures ev.participants[i].posts == ev.participants[j].posts ==>
              ev.participants[i].userId < ev.participants[j].userId
  {
    hide TotalPhotos, IsCover, InOrder, IsMostCommon, LocationCounts;
    var sorted :| InOrder(rows, sorted) && Describes(kind, sorted, ev);
    assert PersonOutranks(ev.participants[i], ev.participants[j]);
  }

  lemma ParticipantPosts(kind: Kind, rows: set<Row>, ev: Event, p: Person)
    requires DistinctIds(rows) && IsEventOf(kind, rows, ev) && p in ev.participants
    ensures p.posts == |PostsBy(rows, p.userId)| > 0
  {
    hide TotalPhotos, IsCover, IsMostCommon, LocationCounts, Roster, InOrder, PostIds, Postings;
    var sorted :| InOrder(rows, sorted) && Describes(kind, sorted, ev);
    RosterEntry(Postings(sorted), ev.participants, p);
    InOrderDistinct(rows, sorted);
    InOrderSame(rows, sorted);
    CountPosts(sorted, p.userId);
    PostingAuthors(sorted);
    var r :| r in rows && r.authorId == p.userId;
    assert r in PostsBy(rows, p.userId);
  }

  lemma {:induction false} RosterEntry(ps: seq<Posting>, people: seq<Person>, p: Person)
    requires Roster(ps, people) && p in people
    ensures p.userId in Authors(ps) && p.posts == CountOf(ps, p.userId)
  {
    hide CountOf, PersonOf;
  }

  lemma InOrderDistinct(rows: set<Row>, sorted: seq<Row>)
    requires InOrder(rows, sorted) && DistinctIds(rows)
    ensures DistinctPosts(sorted)
  {
    forall i, j | 0 <= i < j < |sorted| ensures PostIdOf(sorted[i]) != PostIdOf(sorted[j]) {
      assert Chronological(sorted[i], sorted[j]);
      assert sorted[i] in rows && sorted[j] in rows;
    }
  }

  lemma {:induction false} CountPosts(sorted: seq<Row>, author: int)
    requires DistinctPosts(sorted)
    ensures CountOf(Postings(sorted), author) == |PostsBy(Elements(sorted), author)|
    decreases |sorted|
  {
    if sorted == [] {
      assert Postings(sorted) == [] && PostsBy(Elements(sorted), author) == {};
    } else {
      var r, rest := sorted[0], sorted[1..];
      assert DistinctPosts(rest) by {
        forall i, j | 0 <= i < j < |rest| ensures PostIdOf(rest[i]) != PostIdOf(rest[j]) {
          assert PostIdOf(sorted[i + 1]) != PostIdOf(sorted[j + 1]);
        }
      }
      CountPosts(rest, author);
      assert Postings(sorted)[1..] == Postings(rest);
      assert sorted == [r] + rest;
      FirstIsNew(sorted);
      var posts := PostsBy(Elements(rest), author);
      if r.authorId == author {
        assert PostsBy(Elements(sorted), author) == posts + {r};
      } else {
        assert PostsBy(Elements(sorted), author) == posts;
      }
    }
  }

  lemma FirstIsNew(sorted: seq<Row>)
    requires DistinctPosts(sorted) && sorted != []
    ensures sorted[0] !in sorted[1..]
  {
    forall i | 1 <= i < |sorted| ensures sorted[i] != sorted[0] {
      assert PostIdOf(sorted[0]) != PostIdOf(sorted[i]);
    }
  }

  // ---------- who is away on a trip ----------

  /** At home somewhere else; or without a known home, and there for more than a day. */
  ghost predicate FarFromHome(h: History, loc: string, author: int, days: int) {
    || (exists base :: base != loc && HomeBase(h.rows, h.cutoff, author, base, h.norm))
    || (days > 1 && forall base :: !HomeBase(h.rows, h.cutoff, author, base, h.norm))
  }

  lemma OneBase(h: History, author: int, a: string, b: string)
    requires HomeBase(h.rows, h.cutoff, author, a, h.norm) && HomeBase(h.rows, h.cutoff, author, b, h.norm)
    ensures a == b
  {
    hide DaysFor, Recent;
    if a != b {
      var m := |DaysFor(Recent(h.rows, h.cutoff), author, a, h.norm)|;
      var n := |DaysFor(Recent(h.rows, h.cutoff), author, b, h.norm)|;
      assert m == n && (Text.Less(a, b) && Text.Less(b, a));
      Text.LessAsymmetric(a, b);
    }
  }

  lemma AwayIff(h: History, loc: string, author: int, s: Span)
    ensures Away(h, loc, author, s.first < s.last) <==> FarFromHome(h, loc, author, s.last - s.first + 1)
  {
    hide HomeBase;
    if base :| HomeBase(h.rows, h.cutoff, author, base, h.norm) {
      if HomeBase(h.rows, h.cutoff, author, loc, h.norm) {
        forall other | HomeBase(h.rows, h.cutoff, author, other, h.norm) ensures other == loc {
          OneBase(h, author, other, loc);
        }
      } else {
        assert base != loc;
      }
    }
  }

  lemma {:induction false} SpanDays(list: seq<int>, s: Span)
    requires s in Spans(list)
    ensures s.first in list && s.last in list
  {
    hide Extend;
    var init, d := list[..|list| - 1], list[|list| - 1];
    assert list == init + [d];
    SpansStep(list, init, d);
    ExtendedFrom(Spans(init), d, s);
    if t :| t in Spans(init) && t.first == s.first && (s == t || s.last == d) {
      SpanDays(init, t);
    }
  }

  lemma ExtendedFrom(spans: seq<Span>, d: int, s: Span)
    requires s in Extend(spans, d)
    ensures s == Span(d, d) || exists t :: t in spans && t.first == s.first && (s == t || s.last == d)
  {
    if spans != [] {
      var t := spans[|spans| - 1];
      assert t in spans;
      forall x | x in spans[..|spans| - 1] ensures x in spans {
      }
    }
  }

  /** A run's first and last days are days of its posts. */
  lemma RunDaysAttained(h: History, loc: string, s: Span)
    requires IsRun(h, loc, s)
    ensures s.first in Days(At(h, loc)) && s.last in Days(At(h, loc)) && s.first <= s.last
  {
    hide Spans;
    var list :| DayList(Days(At(h, loc)), list) && s in Spans(list);
    SpanDays(list, s);
    assert Ascending(list) by {
      forall i, j | 0 <= i < j < |list| ensures list[i] <= list[j] {
        assert Earlier(list[i], list[j]);
      }
    }
    SpansOrdered(list);
    var k :| 0 <= k < |Spans(list)| && Spans(list)[k] == s;
  }

  lemma RunEvent(h: History, loc: string, s: Span, ev: Event)
    requires DistinctIds(h.rows) && IsRun(h, loc, s) && IsEventOf(Trip, RowsIn(At(h, loc), s), ev)
    ensures ev.startDate == s.first && ev.endDate == s.last
  {
    hide IsRun, IsEventOf;
    RunDaysAttained(h, loc, s);
    var rows := RowsIn(At(h, loc), s);
    EventCounts(Trip, rows, ev);
    var a :| a in At(h, loc) && DayOf(a) == s.first;
    var b :| b in At(h, loc) && DayOf(b) == s.last;
    assert a in rows && b in rows;
    var x :| x in rows && DayOf(x) == ev.startDate;
    var y :| y in rows && DayOf(y) == ev.endDate;
  }

  ghost predicate PostedIn(h: History, ev: Event, author: int) {
    exists r :: r in h.rows && r.postId in ev.postIds && r.authorId == author
  }

  /** All posts of a trip are at one place outside the home area, and two of their authors are far from home. */
  lemma TripTravellers(h: History, events: seq<Event>, ev: Event)
      returns (loc: string, a: int, b: int)
    requires DistinctIds(h.rows) && Detection(h, events) && ev in events && ev.kind == Trip
    ensures forall r :: r in h.rows && r.postId in ev.postIds ==> h.norm(r.location) == loc
    ensures !HomeArea(h.rows, h.cutoff, loc, h.norm) && a != b
    ensures FarFromHome(h, loc, a, ev.endDate - ev.startDate + 1) && PostedIn(h, ev, a)
    ensures FarFromHome(h, loc, b, ev.endDate - ev.startDate + 1) && PostedIn(h, ev, b)
  {
    hide HomeArea, IsEventOf, FarFromHome, Away, Detection, IsRun;
    var c := ClusterOf(h, events, ev);
    EventKind(KindOf(c), PostsOf(h, c), ev);
    loc := c.loc;
    RunEvent(h, loc, c.span, ev);
    a, b := TwoOf(AwayAuthors(h, loc, c.span));
    AwayIff(h, loc, a, c.span);
    AwayIff(h, loc, b, c.span);
    forall r | r in h.rows ensures r.postId in ev.postIds <==> r in PostsOf(h, c) {
      PostsOfEvent(h, c, ev, r);
    }
    var ra :| ra in PostsOf(h, c) && ra.authorId == a;
    var rb :| rb in PostsOf(h, c) && rb.authorId == b;
  }

  lemma ClusterOf(h: History, events: seq<Event>, ev: Event) returns (c: Cluster)
    requires Detection(h, events) && ev in events
    ensures Qualifies(h, c) && IsEventOf(KindOf(c), PostsOf(h, c), ev)
  {
    hide Qualifies, IsEventOf, PostsOf, EventOutranks, Listed;
    c :| Qualifies(h, c) && IsEventOf(KindOf(c), PostsOf(h, c), ev);
  }

  lemma PostsOfEvent(h: History, c: Cluster, ev: Event, r: Row)
    requires DistinctIds(h.rows) && IsEventOf(KindOf(c), PostsOf(h, c), ev) && r in h.rows
    ensures r.postId in ev.postIds <==> r in PostsOf(h, c)
  {
    hide IsEventOf, PostsOf;
    SubsetIds(h, c);
    EventCounts(KindOf(c), PostsOf(h, c), ev);
    if r.postId in ev.postIds {
      var x :| x in PostsOf(h, c) && x.postId == r.postId;
      assert x == r;
    }
  }

  lemma TwoOf(s: set<int>) returns (a: int, b: int)
    requires |s| >= 2
    ensures a in s && b in s && a != b
  {
    a := PickSome(s);
    var rest := s - {a};
    assert |rest| == |s| - 1;
    b := PickSome(rest);
  }

  /** And every run of posts outside the home area, two of whose authors are far from home, is a trip of the list. */
  lemma TripListed(h: History, events: seq<Event>, loc: string, s: Span, a: int, b: int)
    requires Detection(h, events) && DistinctIds(h.rows) && IsRun(h, loc, s)
    requires !HomeArea(h.rows, h.cutoff, loc, h.norm)
    requires a != b && {a, b} <= AuthorsOf(RowsIn(At(h, loc), s))
    requires FarFromHome(h, loc, a, s.last - s.first + 1) && FarFromHome(h, loc, b, s.last - s.first + 1)
    ensures exists ev :: ev in events && ev.kind == Trip && IdsOf(ev) == Ids(RowsIn(At(h, loc), s))
  {
    hide IsRun, HomeArea, IsEventOf, EventOutranks, FarFromHome, Away;
    var c := TripAt(loc, s);
    AwayIff(h, loc, a, s);
    AwayIff(h, loc, b, s);
    var away := AwayAuthors(h, loc, s);
    assert {a, b} <= away;
    SubsetSize({a, b}, away);
    assert Qualifies(h, c) && Listed(h, events, c);
    var ev :| ev in events && IsEventOf(KindOf(c), PostsOf(h, c), ev);
    EventKind(KindOf(c), PostsOf(h, c), ev);
    SubsetIds(h, c);
    EventCounts(Trip, PostsOf(h, c), ev);
    SameIds(ev, PostsOf(h, c));
  }

  lemma SubsetSize(x: set<int>, y: set<int>)
    requires x <= y
    ensures |x| <= |y|
  {
    assert y == x + (y - x);
  }
}
