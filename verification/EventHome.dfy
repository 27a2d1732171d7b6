/** Where a group is at home: the group's home area, and each member's home base. */
module EventHome {
  import opened Sorting
  import opened EventRows
  import T = Text

  const EPISODE_GAP: int := 3
  const HOME_BASE_MIN_DAYS: nat := 3
  const HOME_AREA_MIN_EPISODES: nat := 3
  const HOME_AREA_MIN_MEMBERS: nat := 2

  // ---------- episodes ----------

  /** A day on which an episode begins: no day just before it. */
  ghost predicate Opens(days: set<int>, d: int) {
    d in days && forall e :: e in days && e < d ==> d - e > EPISODE_GAP
  }

  /** How many episodes a set of days makes. */
  ghost function Episodes(days: set<int>): nat {
    |set d | d in days && Opens(days, d)|
  }

  predicate Earlier(a: int, b: int) {
    a < b
  }

  /** The days of a set, in order. */
  method SortDays(days: set<int>) returns (sorted: seq<int>)
    ensures StrictlySorted(sorted, Earlier) && forall d :: d in sorted <==> d in days
  {
    var todo := days;
    var found: seq<int> := [];
    while todo != {}
      invariant todo <= days && Distinct(found)
      invariant forall d :: d in found <==> d in days && d !in todo
      decreases todo
    {
      var d := PickOne(todo);
      todo := todo - {d};
      found := found + [d];
    }
    sorted := SortSlice(found, Earlier);
    DistinctPermutation(found, sorted);
    SameElements(found, sorted);
    forall i, j | 0 <= i < j < |sorted| ensures Earlier(sorted[i], sorted[j]) {
      assert !Earlier(sorted[j], sorted[i]) && sorted[i] != sorted[j];
    }
  }

  method CountEpisodes(days: set<int>) returns (episodes: nat)
    ensures episodes == Episodes(days)
  {
    var sorted := SortDays(days);
    episodes := 0;
    var last := 0;
    for i := 0 to |sorted|
      invariant i > 0 ==> last == sorted[i - 1]
      invariant episodes == |Begun(days, sorted[..i])|
    {
      hide Opens, Begun;
      var d := sorted[i];
      OpensIff(days, sorted, i);
      assert sorted[..i + 1] == sorted[..i] + [d];
      BeginOne(days, sorted[..i], d);
      if i == 0 || d - last > EPISODE_GAP {
        episodes := episodes + 1;
      }
      last := d;
    }
    assert sorted[..|sorted|] == sorted;
    AllBegun(days, sorted);
  }

  ghost function Begun(days: set<int>, read: seq<int>): set<int> {
    set d | d in read && Opens(days, d)
  }

  lemma BeginOne(days: set<int>, read: seq<int>, d: int)
    requires d !in read
    ensures |Begun(days, read + [d])| == |Begun(days, read)| + if Opens(days, d) then 1 else 0
  {
    hide Opens;
    if Opens(days, d) {
      assert Begun(days, read + [d]) == Begun(days, read) + {d};
    } else {
      assert Begun(days, read + [d]) == Begun(days, read);
    }
  }

  lemma AllBegun(days: set<int>, sorted: seq<int>)
    requires forall d :: d in sorted <==> d in days
    ensures |Begun(days, sorted)| == Episodes(days)
  {
    hide Opens;
    assert Begun(days, sorted) == set d | d in days && Opens(days, d);
  }

  lemma OpensIff(days: set<int>, sorted: seq<int>, i: nat)
    requires i < |sorted| && StrictlySorted(sorted, Earlier) && forall d :: d in sorted <==> d in days
    ensures Opens(days, sorted[i]) <==> i == 0 || sorted[i] - sorted[i - 1] > EPISODE_GAP
    ensures sorted[i] !in sorted[..i]
  {
    var d := sorted[i];
    assert d in sorted;
    if i > 0 {
      assert Earlier(sorted[i - 1], d) && sorted[i - 1] in sorted;
    }
    forall e | e in days && e < d ensures i > 0 && e <= sorted[i - 1] {
      var k :| 0 <= k < |sorted| && sorted[k] == e;
      assert k > i ==> Earlier(sorted[i], sorted[k]);
      assert k < i - 1 ==> Earlier(sorted[k], sorted[i - 1]);
    }
  }

  // ---------- the home area ----------

  /** A place at least two members have posted from, in at least three separate episodes. */
  ghost predicate HomeArea(rows: set<Row>, cutoff: int, loc: string, norm: Norm) {
    var here := RowsAt(Recent(rows, cutoff), loc, norm);
    |AuthorsOf(here)| >= HOME_AREA_MIN_MEMBERS && Episodes(Days(here)) >= HOME_AREA_MIN_EPISODES
  }

  function Lookup<K, V>(m: map<K, set<V>>, k: K): set<V> {
    if k in m then m[k] else {}
  }

  /** The days and authors gathered at each place from the posts `done`. */
  ghost predicate Gathered(done: seq<Row>, cutoff: int, norm: Norm, daysByLoc: map<string, set<int>>,
                           authorsByLoc: map<string, set<int>>) {
    && daysByLoc.Keys == authorsByLoc.Keys
    && forall loc ::
         var here := RowsAt(Recent(Elements(done), cutoff), loc, norm);
         Lookup(daysByLoc, loc) == Days(here) && Lookup(authorsByLoc, loc) == AuthorsOf(here)
  }

  lemma GatherOne(done: seq<Row>, r: Row, cutoff: int, norm: Norm, daysByLoc: map<string, set<int>>,
                  authorsByLoc: map<string, set<int>>)
    requires Gathered(done, cutoff, norm, daysByLoc, authorsByLoc)
    ensures
      var loc := norm(r.location);
      if r.createdAt >= cutoff then
        Gathered(done + [r], cutoff, norm, daysByLoc[loc := Lookup(daysByLoc, loc) + {DayOf(r)}],
                 authorsByLoc[loc := Lookup(authorsByLoc, loc) + {r.authorId}])
      else Gathered(done + [r], cutoff, norm, daysByLoc, authorsByLoc)
  {
    hide Days, AuthorsOf, RowsAt, Recent, Elements;
    var loc := norm(r.location);
    var recent := r.createdAt >= cutoff;
    var days' := if recent then daysByLoc[loc := Lookup(daysByLoc, loc) + {DayOf(r)}] else daysByLoc;
    var authors' := if recent then authorsByLoc[loc := Lookup(authorsByLoc, loc) + {r.authorId}] else authorsByLoc;
    forall k
      ensures Lookup(days', k) == Days(RowsAt(Recent(Elements(done + [r]), cutoff), k, norm))
      ensures Lookup(authors', k) == AuthorsOf(RowsAt(Recent(Elements(done + [r]), cutoff), k, norm))
    {
      RecentAppend(done, r, cutoff, k, norm);
    }
  }

  method ComputeHomeArea(rows: seq<Row>, cutoff: int, norm: Norm) returns (homeArea: set<string>)
    ensures forall loc :: loc in homeArea <==> HomeArea(Elements(rows), cutoff, loc, norm)
  {
    var daysByLoc: map<string, set<int>> := map[];
    var authorsByLoc: map<string, set<int>> := map[];
    for i := 0 to |rows|
      invariant Gathered(rows[..i], cutoff, norm, daysByLoc, authorsByLoc)
    {
      hide Gathered;
      var r := rows[i];
      assert rows[..i + 1] == rows[..i] + [r];
      GatherOne(rows[..i], r, cutoff, norm, daysByLoc, authorsByLoc);
      if r.createdAt >= cutoff {
        var loc := norm(r.location);
        daysByLoc := daysByLoc[loc := Lookup(daysByLoc, loc) + {DayOf(r)}];
        authorsByLoc := authorsByLoc[loc := Lookup(authorsByLoc, loc) + {r.authorId}];
      }
    }
    assert rows[..|rows|] == rows;
    homeArea := {};
    var todo := daysByLoc.Keys;
    while todo != {}
      invariant todo <= daysByLoc.Keys
      invariant forall loc :: loc in homeArea ==> loc in daysByLoc && loc !in todo
      invariant forall loc :: loc in daysByLoc && loc !in todo ==>
                  (loc in homeArea <==> HomeArea(Elements(rows), cutoff, loc, norm))
      decreases todo
    {
      hide Days, AuthorsOf, RowsAt, Recent, Elements, Episodes;
      var loc := PickOne(todo);
      todo := todo - {loc};
      var episodes := CountEpisodes(daysByLoc[loc]);
      assert Lookup(daysByLoc, loc) == daysByLoc[loc] && Lookup(authorsByLoc, loc) == authorsByLoc[loc];
      if |authorsByLoc[loc]| >= HOME_AREA_MIN_MEMBERS {
        if episodes >= HOME_AREA_MIN_EPISODES {
          homeArea := homeArea + {loc};
        }
      }
    }
    forall loc | loc !in daysByLoc ensures !HomeArea(Elements(rows), cutoff, loc, norm) {
      assert Lookup(authorsByLoc, loc) == {};
    }
  }

  lemma RecentAppend(done: seq<Row>, r: Row, cutoff: int, loc: string, norm: Norm)
    ensures
      var was, now := RowsAt(Recent(Elements(done), cutoff), loc, norm),
                      RowsAt(Recent(Elements(done + [r]), cutoff), loc, norm);
      var counts := r.createdAt >= cutoff && norm(r.location) == loc;
      && Days(now) == (if counts then Days(was) + {DayOf(r)} else Days(was))
      && AuthorsOf(now) == (if counts then AuthorsOf(was) + {r.authorId} else AuthorsOf(was))
  {
    var was, now := RowsAt(Recent(Elements(done), cutoff), loc, norm),
                    RowsAt(Recent(Elements(done + [r]), cutoff), loc, norm);
    var counts := r.createdAt >= cutoff && norm(r.location) == loc;
    if counts {
      assert now == was + {r};
      assert Days(now) == Days(was) + {DayOf(r)};
      assert AuthorsOf(now) == AuthorsOf(was) + {r.authorId};
    } else {
      assert now == was;
    }
  }

  // ---------- the most common key ----------

  /** `best` has the highest count, and comes first among those that do. */
  ghost predicate IsMostCommon(counts: map<string, nat>, best: string) {
    best in counts && forall k :: k in counts && k != best ==>
      counts[k] < counts[best] || (counts[k] == counts[best] && T.Less(best, k))
  }

  lemma MostCommonUnique(counts: map<string, nat>, a: string, b: string)
    requires IsMostCommon(counts, a) && IsMostCommon(counts, b)
    ensures a == b
  {
    if a != b {
      T.LessAsymmetric(a, b);
    }
  }

  method MostCommonKey(counts: map<string, nat>) returns (best: string, n: nat)
    requires forall k :: k in counts ==> counts[k] > 0
    ensures counts == map[] ==> n == 0
    ensures counts != map[] ==> IsMostCommon(counts, best) && n == counts[best]
  {
    best, n := "", 0;
    var todo := counts.Keys;
    T.LessIsOrder();
    while todo != {}
      invariant todo <= counts.Keys
      invariant n == 0 <==> todo == counts.Keys
      invariant n > 0 ==> best in counts && best !in todo && n == counts[best]
      invariant n > 0 ==> forall k :: k in counts && k !in todo && k != best ==>
                  counts[k] < n || (counts[k] == n && T.Less(best, k))
      decreases todo
    {
      hide T.Less;
      var k := PickOne(todo);
      todo := todo - {k};
      if counts[k] > n || (counts[k] == n && T.Less(k, best)) {
        best, n := k, counts[k];
      }
    }
  }

  // ---------- home bases ----------

  ghost function DaysFor(rows: set<Row>, author: int, loc: string, norm: Norm): set<int> {
    set r | r in rows && r.authorId == author && norm(r.location) == loc :: DayOf(r)
  }

  /** The place an author posted from on the most days, if on at least three. */
  ghost predicate HomeBase(rows: set<Row>, cutoff: int, author: int, loc: string, norm: Norm) {
    var n := |DaysFor(Recent(rows, cutoff), author, loc, norm)|;
    && n >= HOME_BASE_MIN_DAYS
    && forall other :: other != loc ==>
         var m := |DaysFor(Recent(rows, cutoff), author, other, norm)|;
         m < n || (m == n && T.Less(loc, other))
  }

  /** The home bases of the authors who have one. */
  ghost predicate HomeBases(rows: set<Row>, cutoff: int, norm: Norm, bases: map<int, string>) {
    forall a, loc :: (a in bases && bases[a] == loc) <==> HomeBase(rows, cutoff, a, loc, norm)
  }

  type Tally = map<int, map<string, set<int>>>

  function DaysIn(tally: Tally, author: int, loc: string): set<int> {
    if author in tally && loc in tally[author] then tally[author][loc] else {}
  }

  lemma DaysForAppend(done: seq<Row>, r: Row, cutoff: int, author: int, loc: string, norm: Norm)
    ensures
      var was, now := DaysFor(Recent(Elements(done), cutoff), author, loc, norm),
                      DaysFor(Recent(Elements(done + [r]), cutoff), author, loc, norm);
      now == if r.createdAt >= cutoff && r.authorId == author && norm(r.location) == loc then was + {DayOf(r)} else was
  {
    var was, now := Recent(Elements(done), cutoff), Recent(Elements(done + [r]), cutoff);
    if r.createdAt >= cutoff {
      assert now == was + {r};
    } else {
      assert now == was;
    }
  }

  ghost predicate Tallied(done: seq<Row>, cutoff: int, norm: Norm, tally: Tally) {
    forall a, loc :: DaysIn(tally, a, loc) == DaysFor(Recent(Elements(done), cutoff), a, loc, norm)
  }

  lemma TallyOne(done: seq<Row>, r: Row, cutoff: int, norm: Norm, tally: Tally)
    requires Tallied(done, cutoff, norm, tally)
    ensures
      var byLoc := if r.authorId in tally then tally[r.authorId] else map[];
      var loc := norm(r.location);
      if r.createdAt >= cutoff then
        Tallied(done + [r], cutoff, norm, tally[r.authorId := byLoc[loc := Lookup(byLoc, loc) + {DayOf(r)}]])
      else Tallied(done + [r], cutoff, norm, tally)
  {
    hide DaysFor, Recent, Elements;
    var byLoc := if r.authorId in tally then tally[r.authorId] else map[];
    var loc := norm(r.location);
    var tally' :=
      if r.createdAt >= cutoff then tally[r.authorId := byLoc[loc := Lookup(byLoc, loc) + {DayOf(r)}]] else tally;
    forall a, k ensures DaysIn(tally', a, k) == DaysFor(Recent(Elements(done + [r]), cutoff), a, k, norm) {
      DaysForAppend(done, r, cutoff, a, k, norm);
      assert DaysIn(tally, a, k) == DaysFor(Recent(Elements(done), cutoff), a, k, norm);
    }
  }

  method TallyDaysByAuthorLocation(rows: seq<Row>, cutoff: int, norm: Norm) returns (tally: Tally)
    ensures Tallied(rows, cutoff, norm, tally)
  {
    tally := map[];
    for i := 0 to |rows|
      invariant Tallied(rows[..i], cutoff, norm, tally)
    {
      hide Tallied;
      var r := rows[i];
      assert rows[..i + 1] == rows[..i] + [r];
      TallyOne(rows[..i], r, cutoff, norm, tally);
      if r.createdAt >= cutoff {
        var byLoc := if r.authorId in tally then tally[r.authorId] else map[];
        var loc := norm(r.location);
        tally := tally[r.authorId := byLoc[loc := Lookup(byLoc, loc) + {DayOf(r)}]];
      }
    }
    assert rows[..|rows|] == rows;
  }

  /** The place with the most days among those with at least three. */
  method BestHomeLocation(byLoc: map<string, set<int>>) returns (best: string, n: nat)
    ensures n == 0 <==> forall loc :: loc in byLoc ==> |byLoc[loc]| < HOME_BASE_MIN_DAYS
    ensures n > 0 ==> best in byLoc && n == |byLoc[best]| >= HOME_BASE_MIN_DAYS
    ensures n > 0 ==> forall loc :: loc in byLoc && loc != best ==>
              |byLoc[loc]| < n || (|byLoc[loc]| == n && T.Less(best, loc))
  {
    hide T.Less;
    var counts: map<string, nat> := map loc | loc in byLoc && |byLoc[loc]| >= HOME_BASE_MIN_DAYS :: |byLoc[loc]|;
    best, n := MostCommonKey(counts);
    if counts == map[] {
      forall loc | loc in byLoc ensures |byLoc[loc]| < HOME_BASE_MIN_DAYS {
        assert loc !in counts;
      }
    } else {
      forall loc | loc in byLoc && loc != best
        ensures |byLoc[loc]| < n || (|byLoc[loc]| == n && T.Less(best, loc))
      {
        assert loc in counts <==> |byLoc[loc]| >= HOME_BASE_MIN_DAYS;
      }
      assert best in counts && |byLoc[best]| >= HOME_BASE_MIN_DAYS;
    }
  }

  method ComputeHomeBases(rows: seq<Row>, cutoff: int, norm: Norm) returns (bases: map<int, string>)
    ensures HomeBases(Elements(rows), cutoff, norm, bases)
  {
    hide DaysFor, Recent, Elements, HomeBase, T.Less;
    var tally := TallyDaysByAuthorLocation(rows, cutoff, norm);
    bases := map[];
    var todo := tally.Keys;
    while todo != {}
      invariant todo <= tally.Keys
      invariant forall a :: a in bases ==> a in tally && a !in todo
      invariant forall a, loc :: a !in todo && a in tally ==>
                  ((a in bases && bases[a] == loc) <==> HomeBase(Elements(rows), cutoff, a, loc, norm))
      decreases todo
    {
      var a := PickOne(todo);
      todo := todo - {a};
      var best, n := BestHomeLocation(tally[a]);
      BestIsBase(rows, cutoff, norm, tally, a, best, n);
      if n > 0 {
        bases := bases[a := best];
      }
    }
    forall a, loc | a !in tally ensures !HomeBase(Elements(rows), cutoff, a, loc, norm) {
      NoBase(rows, cutoff, norm, tally, a, loc);
    }
  }

  lemma NoBase(rows: seq<Row>, cutoff: int, norm: Norm, tally: Tally, a: int, loc: string)
    requires Tallied(rows, cutoff, norm, tally)
    requires a !in tally
    ensures !HomeBase(Elements(rows), cutoff, a, loc, norm)
  {
    hide DaysFor;
    assert DaysIn(tally, a, loc) == {};
  }

  lemma {:induction false} BestIsBase(rows: seq<Row>, cutoff: int, norm: Norm, tally: Tally, a: int, best: string,
      n: nat)
    requires Tallied(rows, cutoff, norm, tally)
    requires a in tally
    requires n == 0 <==> forall loc :: loc in tally[a] ==> |tally[a][loc]| < HOME_BASE_MIN_DAYS
    requires n > 0 ==> best in tally[a] && n == |tally[a][best]| >= HOME_BASE_MIN_DAYS
    requires n > 0 ==> forall loc :: loc in tally[a] && loc != best ==>
               |tally[a][loc]| < n || (|tally[a][loc]| == n && T.Less(best, loc))
    ensures forall loc :: HomeBase(Elements(rows), cutoff, a, loc, norm) <==> n > 0 && loc == best
  {
    hide DaysFor, Recent, Elements, T.Less;
    var days := Recent(Elements(rows), cutoff);
    forall loc ensures HomeBase(Elements(rows), cutoff, a, loc, norm) <==> n > 0 && loc == best {
      assert DaysIn(tally, a, loc) == DaysFor(days, a, loc, norm);
      if n > 0 {
        assert DaysIn(tally, a, best) == DaysFor(days, a, best, norm);
        forall other | other != best
          ensures |DaysFor(days, a, other, norm)| < n || (|DaysFor(days, a, other, norm)| == n && T.Less(best, other))
        {
          assert DaysIn(tally, a, other) == DaysFor(days, a, other, norm);
        }
        T.LessIsOrder();
      }
    }
  }
}

/** Candidate trips: the greedy split of one place's posts into runs of days. */
module TripRuns {
  import opened Sorting
  import opened EventRows
  import opened EventHome

  const TRIP_WINDOW: int := 3
  const TRIP_MAX_SPAN: int := 30

  /** The first and last day of a run. */
  datatype Span = Span(first: int, last: int)

  /** One more day: it joins the last run, or starts one. */
  function Extend(spans: seq<Span>, d: int): (r: seq<Span>)
    ensures r != [] && r[|r| - 1].last == d
  {
    if spans == [] then [Span(d, d)]
    else
      var s := spans[|spans| - 1];
      if d - s.last > TRIP_WINDOW || d - s.first > TRIP_MAX_SPAN then spans + [Span(d, d)]
      else spans[..|spans| - 1] + [Span(s.first, d)]
  }

  /** The runs of a list of days in order. */
  function Spans(days: seq<int>): (r: seq<Span>)
    ensures r == [] <==> days == []
    ensures r != [] ==> r[|r| - 1].last == days[|days| - 1]
  {
    if days == [] then [] else Extend(Spans(days[..|days| - 1]), days[|days| - 1])
  }

  ghost predicate Ascending(days: seq<int>) {
    forall i, j :: 0 <= i < j < |days| ==> days[i] <= days[j]
  }

  /** Runs follow one another, and none is longer than the limit. */
  lemma {:induction false} SpansOrdered(days: seq<int>)
    requires Ascending(days)
    ensures Ordered(Spans(days))
  {
    hide Extend, Spans;
    if days != [] {
      var before, d := days[..|days| - 1], days[|days| - 1];
      SpansOrdered(before);
      SpansStep(days, before, d);
      if before != [] {
        assert before[|before| - 1] <= d;
      }
      ExtendOrdered(Spans(before), d);
    }
  }

  ghost predicate Ordered(s: seq<Span>) {
    && (forall k :: 0 <= k < |s| ==> s[k].first <= s[k].last <= s[k].first + TRIP_MAX_SPAN)
    && (forall j, k :: 0 <= j < k < |s| ==> s[j].last < s[k].first)
  }

  lemma ExtendOrdered(s: seq<Span>, d: int)
    requires Ordered(s) && (s != [] ==> s[|s| - 1].last <= d)
    ensures Ordered(Extend(s, d))
  {
    if s != [] {
      var last := s[|s| - 1];
      if d - last.last > TRIP_WINDOW || d - last.first > TRIP_MAX_SPAN {
        AppendSpan(s, Span(d, d));
      } else {
        AppendSpan(s[..|s| - 1], Span(last.first, d));
      }
    }
  }

  lemma AppendSpan(s: seq<Span>, t: Span)
    requires Ordered(s) && t.first <= t.last <= t.first + TRIP_MAX_SPAN
    requires forall k :: 0 <= k < |s| ==> s[k].last < t.first
    ensures Ordered(s + [t])
  {
  }

  // ---------- the runs depend on the set of days only ----------

  function Dedup(days: seq<int>): (r: seq<int>)
    ensures r == [] <==> days == []
    ensures r != [] ==> r[|r| - 1] == days[|days| - 1]
    ensures forall d :: d in r <==> d in days
  {
    if days == [] then []
    else
      var init, d := Dedup(days[..|days| - 1]), days[|days| - 1];
      assert days == days[..|days| - 1] + [d];
      if init != [] && init[|init| - 1] == d then init else init + [d]
  }

  lemma {:induction false} DedupSorted(days: seq<int>)
    requires Ascending(days)
    ensures StrictlySorted(Dedup(days), Earlier)
  {
    if days != [] {
      var before, d := days[..|days| - 1], days[|days| - 1];
      DedupSorted(before);
      var init := Dedup(before);
      if init != [] && init[|init| - 1] != d {
        assert init[|init| - 1] == before[|before| - 1] == days[|before| - 1];
        forall i | 0 <= i < |init| ensures init[i] < d {
          assert i < |init| - 1 ==> Earlier(init[i], init[|init| - 1]);
        }
      }
    }
  }

  lemma {:induction false} SpansDedup(days: seq<int>)
    requires Ascending(days)
    ensures Spans(Dedup(days)) == Spans(days)
  {
    hide Extend, Spans, Dedup;
    if days == [] {
      assert Dedup(days) == [];
    } else {
      var before, d := days[..|days| - 1], days[|days| - 1];
      SpansDedup(before);
      SpansOrdered(before);
      var init := Dedup(before);
      SpansStep(days, before, d);
      DedupStep(days, before, d);
      if init != [] && init[|init| - 1] == d {
        SameDay(Spans(before), d);
      } else {
        assert (init + [d])[..|init|] == init;
        SpansStep(init + [d], init, d);
      }
    }
  }

  lemma {:induction false} DedupStep(days: seq<int>, before: seq<int>, d: int)
    requires days != [] && before == days[..|days| - 1] && d == days[|days| - 1]
    ensures
      var init := Dedup(before);
      Dedup(days) == if init != [] && init[|init| - 1] == d then init else init + [d]
  {
  }

  /** Another post on the last day changes no run. */
  lemma SameDay(s: seq<Span>, d: int)
    requires s != [] && s[|s| - 1].last == d && d - s[|s| - 1].first <= TRIP_MAX_SPAN
    ensures Extend(s, d) == s
  {
    assert s == s[..|s| - 1] + [s[|s| - 1]];
  }

  /** The days of a set, in order. */
  ghost predicate DayList(days: set<int>, list: seq<int>) {
    StrictlySorted(list, Earlier) && forall d :: d in list <==> d in days
  }

  lemma DayListUnique(days: set<int>, a: seq<int>, b: seq<int>)
    requires DayList(days, a) && DayList(days, b)
    ensures a == b
  {
    DistinctCounts(a);
    DistinctCounts(b);
    forall d ensures multiset(a)[d] == multiset(b)[d] {
      assert d in a <==> d in b;
    }
    assert multiset(a) == multiset(b);
    SortedUnique(a, b, Earlier);
  }

  // ---------- no split has fewer runs ----------

  function Flatten<T>(parts: seq<seq<T>>): seq<T> {
    if parts == [] then [] else Flatten(parts[..|parts| - 1]) + parts[|parts| - 1]
  }

  /** A run of days within the limits: no gap above three days, no span above thirty. */
  ghost predicate ValidDays(p: seq<int>) {
    && p != []
    && (forall i :: 0 <= i < |p| - 1 ==> p[i + 1] - p[i] <= TRIP_WINDOW)
    && p[|p| - 1] - p[0] <= TRIP_MAX_SPAN
  }

  ghost predicate ValidSplit(days: seq<int>, parts: seq<seq<int>>) {
    Flatten(parts) == days && forall k :: 0 <= k < |parts| ==> ValidDays(parts[k])
  }

  lemma ExtendCases(t: seq<Span>, d: int)
    requires t != []
    ensures
      var s, last := Extend(t, d), t[|t| - 1];
      if d - last.last <= TRIP_WINDOW && d - last.first <= TRIP_MAX_SPAN
      then |s| == |t| && s[|t| - 1].first == last.first
      else |s| == |t| + 1 && s[|t|].first == d
  {
  }

  ghost predicate Ahead(s: seq<Span>, parts: seq<seq<int>>)
    requires s != [] && parts != [] && parts[|parts| - 1] != []
  {
    |s| < |parts| || (|s| == |parts| && s[|s| - 1].first >= parts[|parts| - 1][0])
  }

  /**
   The greedy runs stay ahead: fewer than the parts of any split, or as many with the last one starting no
   earlier.
   */
  lemma {:induction false} StaysAhead(days: seq<int>, parts: seq<seq<int>>)
    requires Ascending(days) && ValidSplit(days, parts) && days != []
    ensures parts != [] && ValidDays(parts[|parts| - 1])
    ensures Ahead(Spans(days), parts)
    decreases |days|
  {
    hide Extend, Spans, ValidDays;
    LastPart(days, parts);
    var m := |parts|;
    var part, rest := parts[m - 1], parts[..m - 1];
    var before, d := days[..|days| - 1], days[|days| - 1];
    SpansStep(days, before, d);
    if |part| == 1 {
      if before == [] {
        FirstSpan(d);
      } else {
        StaysAhead(before, rest);
        ExtendCases(Spans(before), d);
      }
    } else {
      ShorterSplit(days, parts);
      StaysAhead(before, rest + [part[..|part| - 1]]);
      ExtendCases(Spans(before), d);
    }
  }

  lemma FirstSpan(d: int)
    ensures Extend(Spans([]), d) == [Span(d, d)]
  {
  }

  /** The last part of a split: the last day ends it, after a day of its own or within the limits. */
  lemma LastPart(days: seq<int>, parts: seq<seq<int>>)
    requires Ascending(days) && ValidSplit(days, parts) && days != []
    ensures parts != [] && ValidDays(parts[|parts| - 1])
    ensures
      var part, rest, d := parts[|parts| - 1], parts[..|parts| - 1], days[|days| - 1];
      && part != [] && part[0] <= d && d - part[0] <= TRIP_MAX_SPAN
      && (|part| == 1 ==> part[0] == d && ValidSplit(days[..|days| - 1], rest))
      && (|part| > 1 ==> |days| > 1 && d - days[|days| - 2] <= TRIP_WINDOW)
  {
    var part, rest, d := parts[|parts| - 1], parts[..|parts| - 1], days[|days| - 1];
    var flat := Flatten(rest);
    assert days == flat + part;
    assert ValidDays(part);
    assert days[|flat|] == part[0] && d == part[|part| - 1];
    if |part| == 1 {
      assert days[..|days| - 1] == flat;
    } else {
      assert part[|part| - 2 + 1] - part[|part| - 2] <= TRIP_WINDOW;
      assert days[|days| - 2] == part[|part| - 2];
    }
  }

  lemma ShorterSplit(days: seq<int>, parts: seq<seq<int>>)
    requires Ascending(days) && ValidSplit(days, parts) && parts != [] && |parts[|parts| - 1]| > 1
    ensures
      var part, rest := parts[|parts| - 1], parts[..|parts| - 1];
      ValidSplit(days[..|days| - 1], rest + [part[..|part| - 1]])
  {
    var part, rest := parts[|parts| - 1], parts[..|parts| - 1];
    var q := part[..|part| - 1];
    assert (rest + [q])[..|rest|] == rest;
    assert days == Flatten(rest) + part;
    assert days[..|days| - 1] == Flatten(rest) + q;
    assert q[|q| - 1] - q[0] <= TRIP_MAX_SPAN by {
      assert q[|q| - 1] == days[|days| - 2] <= days[|days| - 1] == part[|part| - 1];
    }
  }

  /** No split of the days that keeps both limits has fewer runs. */
  lemma {:induction false} FewestRuns(days: seq<int>, parts: seq<seq<int>>)
    requires Ascending(days) && ValidSplit(days, parts)
    ensures |Spans(days)| <= |parts|
  {
    if days != [] {
      StaysAhead(days, parts);
    }
  }

  // ---------- the runs of posts ----------

  predicate Older(a: Row, b: Row) {
    a.createdAt < b.createdAt
  }

  lemma OlderOrder()
    ensures WeakOrder(Older)
  {
  }

  function DaysOf(rows: seq<Row>): (days: seq<int>)
    ensures |days| == |rows|
    ensures forall i :: 0 <= i < |rows| ==> days[i] == DayOf(rows[i])
  {
    seq(|rows|, i requires 0 <= i < |rows| => DayOf(rows[i]))
  }

  lemma SortedDaysAscend(rows: seq<Row>)
    requires Sorted(rows, Older)
    ensures Ascending(DaysOf(rows))
  {
    forall i, j | 0 <= i < j < |rows| ensures DayOf(rows[i]) <= DayOf(rows[j]) {
      assert !Older(rows[j], rows[i]);
    }
  }

  /** A run within the limits, and its first and last day. */
  ghost predicate RunMatches(run: seq<Row>, span: Span) {
    run != [] && ValidDays(DaysOf(run)) && span == Span(DayOf(run[0]), DayOf(run[|run| - 1]))
  }

  ghost predicate RunsMatch(runs: seq<seq<Row>>, spans: seq<Span>) {
    |runs| == |spans| && forall k :: 0 <= k < |runs| ==> RunMatches(runs[k], spans[k])
  }

  /** The posts read so far: complete runs and the one being extended. */
  function Current(runs: seq<seq<Row>>, run: seq<Row>): seq<seq<Row>> {
    if run == [] then runs else runs + [run]
  }

  lemma MatchAppend(runs: seq<seq<Row>>, spans: seq<Span>, r: Row)
    requires RunsMatch(runs, spans)
    ensures RunsMatch(runs + [[r]], spans + [Span(DayOf(r), DayOf(r))])
  {
    assert RunMatches([r], Span(DayOf(r), DayOf(r)));
  }

  lemma MatchExtend(runs: seq<seq<Row>>, run: seq<Row>, spans: seq<Span>, r: Row)
    requires RunsMatch(runs + [run], spans) && run != []
    requires DayOf(r) - DayOf(run[|run| - 1]) <= TRIP_WINDOW && DayOf(r) - DayOf(run[0]) <= TRIP_MAX_SPAN
    ensures RunsMatch(runs + [run + [r]], spans[..|spans| - 1] + [Span(DayOf(run[0]), DayOf(r))])
  {
    hide ValidDays;
    var all := runs + [run];
    assert all[|runs|] == run && RunMatches(run, spans[|runs|]);
    LongerRun(run, r);
    var all', spans' := runs + [run + [r]], spans[..|spans| - 1] + [Span(DayOf(run[0]), DayOf(r))];
    forall k | 0 <= k < |all'| ensures RunMatches(all'[k], spans'[k]) {
      if k < |runs| {
        assert all'[k] == all[k] && spans'[k] == spans[k];
      }
    }
  }

  lemma {:induction false} FlattenAppend<T>(parts: seq<seq<T>>, p: seq<T>)
    ensures Flatten(parts + [p]) == Flatten(parts) + p
  {
    assert (parts + [p])[..|parts|] == parts;
  }

  lemma ExtendRun(runs: seq<seq<Row>>, run: seq<Row>, done: seq<Row>, r: Row)
    requires run == [] ==> runs == []
    requires Flatten(Current(runs, run)) == done && RunsMatch(Current(runs, run), Spans(DaysOf(done)))
    ensures
      var day := DayOf(r);
      var cut := run != [] && (day - DayOf(run[|run| - 1]) > TRIP_WINDOW || day - DayOf(run[0]) > TRIP_MAX_SPAN);
      var runs' := if cut then runs + [run] else runs;
      var run' := if cut then [r] else run + [r];
      && Flatten(Current(runs', run')) == done + [r]
      && RunsMatch(Current(runs', run'), Spans(DaysOf(done + [r])))
  {
    hide Spans, Flatten, RunsMatch;
    var day := DayOf(r);
    var days, days' := DaysOf(done), DaysOf(done + [r]);
    assert days'[..|days'| - 1] == days && days'[|days'| - 1] == day;
    SpansStep(days', days, day);
    var spans := Spans(days);
    NoRuns();
    if run == [] {
      assert done == [] && spans == [];
      FlattenAppend([], [r]);
      assert [] + [[r]] == [[r]] && [] + [r] == [r];
      MatchAppend([], [], r);
      assert [] + [Span(day, day)] == [Span(day, day)];
    } else {
      var all := runs + [run];
      FlattenAppend(runs, run);
      MatchLast(runs, run, spans);
      if day - DayOf(run[|run| - 1]) > TRIP_WINDOW || day - DayOf(run[0]) > TRIP_MAX_SPAN {
        FlattenAppend(all, [r]);
        MatchAppend(all, spans, r);
      } else {
        FlattenAppend(runs, run + [r]);
        assert (Flatten(runs) + run) + [r] == Flatten(runs) + (run + [r]);
        MatchExtend(runs, run, spans, r);
      }
    }
  }

  lemma MatchLast(runs: seq<seq<Row>>, run: seq<Row>, spans: seq<Span>)
    requires RunsMatch(runs + [run], spans)
    ensures run != [] && |spans| == |runs| + 1
    ensures spans[|runs|] == Span(DayOf(run[0]), DayOf(run[|run| - 1]))
  {
    assert (runs + [run])[|runs|] == run && RunMatches(run, spans[|runs|]);
  }

  lemma {:induction false} SpansStep(days': seq<int>, days: seq<int>, d: int)
    requires days' != [] && days'[..|days'| - 1] == days && days'[|days'| - 1] == d
    ensures Spans(days') == Extend(Spans(days), d)
  {
  }

  lemma LongerRun(run: seq<Row>, r: Row)
    requires ValidDays(DaysOf(run))
    requires DayOf(r) - DayOf(run[|run| - 1]) <= TRIP_WINDOW && DayOf(r) - DayOf(run[0]) <= TRIP_MAX_SPAN
    ensures ValidDays(DaysOf(run + [r]))
  {
    var p := DaysOf(run + [r]);
    forall i | 0 <= i < |p| - 1 ensures p[i + 1] - p[i] <= TRIP_WINDOW {
      if i < |run| - 1 {
        assert DaysOf(run)[i + 1] - DaysOf(run)[i] <= TRIP_WINDOW;
      }
    }
  }

  /**
   Splits one place's posts into candidate trips. The runs, one after another, are the posts in order
   of time; each keeps both limits, and they are the runs of the days posted on.
   */
  method SplitRuns(locRows: seq<Row>) returns (runs: seq<seq<Row>>)
    ensures multiset(Flatten(runs)) == multiset(locRows) && Sorted(Flatten(runs), Older)
    ensures RunsMatch(runs, Spans(DaysOf(Flatten(runs))))
  {
    hide RunsMatch, Sorted, Spans, Flatten, WeakOrder;
    OlderOrder();
    var sorted := SortSlice(locRows, Older);
    runs := [];
    var run: seq<Row> := [];
    var firstDay, lastDay := 0, 0;
    NoRuns();
    assert sorted[..0] == [];
    for i := 0 to |sorted|
      invariant run == [] ==> runs == []
      invariant run != [] ==> firstDay == DayOf(run[0]) && lastDay == DayOf(run[|run| - 1])
      invariant Flatten(Current(runs, run)) == sorted[..i]
      invariant RunsMatch(Current(runs, run), Spans(DaysOf(sorted[..i])))
    {
      var r := sorted[i];
      var day := DayOf(r);
      assert sorted[..i + 1] == sorted[..i] + [r];
      ExtendRun(runs, run, sorted[..i], r);
      if |run| > 0 && (day - lastDay > TRIP_WINDOW || day - firstDay > TRIP_MAX_SPAN) {
        runs := runs + [run];
        run := [];
      }
      if |run| == 0 {
        firstDay := day;
      }
      assert [] + [r] == [r];
      run := run + [r];
      lastDay := day;
    }
    assert sorted[..|sorted|] == sorted;
    if |run| > 0 {
      runs := runs + [run];
    }
  }

  function AllDays(parts: seq<seq<Row>>): (r: seq<seq<int>>)
    ensures |r| == |parts| && forall k :: 0 <= k < |parts| ==> r[k] == DaysOf(parts[k])
  {
    seq(|parts|, k requires 0 <= k < |parts| => DaysOf(parts[k]))
  }

  lemma {:induction false} FlattenDays(parts: seq<seq<Row>>)
    ensures Flatten(AllDays(parts)) == DaysOf(Flatten(parts))
  {
    if parts != [] {
      var rest := parts[..|parts| - 1];
      FlattenDays(rest);
      assert AllDays(parts)[..|rest|] == AllDays(rest);
    }
  }

  /** However the same posts are put in order of time and split within the limits, there are no fewer runs. */
  lemma {:induction false} FewestPostRuns(runs: seq<seq<Row>>, parts: seq<seq<Row>>)
    requires Sorted(Flatten(runs), Older) && RunsMatch(runs, Spans(DaysOf(Flatten(runs))))
    requires Sorted(Flatten(parts), Older) && multiset(Flatten(parts)) == multiset(Flatten(runs))
    requires forall k :: 0 <= k < |parts| ==> ValidDays(DaysOf(parts[k]))
    ensures |runs| <= |parts|
  {
    hide Flatten, ValidDays, Sorted, Spans;
    FlattenDays(parts);
    SortedDaysAscend(Flatten(parts));
    FewestRuns(DaysOf(Flatten(parts)), AllDays(parts));
    SameElements(Flatten(parts), Flatten(runs));
    ListsDays(Flatten(runs));
    SpansOfSet(Flatten(runs), Dedup(DaysOf(Flatten(runs))));
    SpansOfSet(Flatten(parts), Dedup(DaysOf(Flatten(runs))));
  }

  lemma NoRuns()
    ensures Flatten<Row>([]) == [] && Spans(DaysOf([])) == [] && RunsMatch([], [])
  {
  }

  // ---------- a run holds all the posts of its days ----------

  ghost function RowsIn(rows: set<Row>, s: Span): set<Row> {
    set r | r in rows && s.first <= DayOf(r) <= s.last
  }

  lemma {:induction false} FlattenMember<T>(parts: seq<seq<T>>, x: T) returns (k: nat)
    requires x in Flatten(parts)
    ensures k < |parts| && x in parts[k]
  {
    var last := |parts| - 1;
    if x in parts[last] {
      k := last;
    } else {
      k := FlattenMember(parts[..last], x);
    }
  }

  lemma {:induction false} PartInFlatten<T>(parts: seq<seq<T>>, k: nat)
    requires k < |parts|
    ensures forall x :: x in parts[k] ==> x in Flatten(parts)
  {
    if k < |parts| - 1 {
      PartInFlatten(parts[..|parts| - 1], k);
    }
  }

  lemma {:induction false} PartSorted(parts: seq<seq<Row>>, k: nat)
    requires Sorted(Flatten(parts), Older) && k < |parts|
    ensures Sorted(parts[k], Older)
  {
    var init, last := parts[..|parts| - 1], parts[|parts| - 1];
    var flat := Flatten(parts);
    if k < |parts| - 1 {
      assert Flatten(init) == flat[..|Flatten(init)|];
      PartSorted(init, k);
    } else {
      assert last == flat[|Flatten(init)|..];
    }
  }

  lemma {:induction false} RunDays(runs: seq<seq<Row>>, spans: seq<Span>, k: nat)
    requires RunsMatch(runs, spans) && Sorted(Flatten(runs), Older) && k < |runs|
    ensures |runs| == |spans| && forall r :: r in runs[k] ==> spans[k].first <= DayOf(r) <= spans[k].last
  {
    hide Flatten;
    PartSorted(runs, k);
    SortedDaysAscend(runs[k]);
    var days := DaysOf(runs[k]);
    assert RunMatches(runs[k], spans[k]);
    forall r | r in runs[k] ensures spans[k].first <= DayOf(r) <= spans[k].last {
      var i :| 0 <= i < |runs[k]| && runs[k][i] == r;
      assert days[0] <= days[i] <= days[|days| - 1];
    }
  }

  lemma {:induction false} RunElements(runs: seq<seq<Row>>, k: nat)
    requires Sorted(Flatten(runs), Older) && RunsMatch(runs, Spans(DaysOf(Flatten(runs)))) && k < |runs|
    ensures Elements(runs[k]) == RowsIn(Elements(Flatten(runs)), Spans(DaysOf(Flatten(runs)))[k])
  {
    hide Flatten, Spans, RunsMatch, RunMatches, Sorted;
    var sorted := Flatten(runs);
    var spans := Spans(DaysOf(sorted));
    SortedDaysAscend(sorted);
    SpansOrdered(DaysOf(sorted));
    RunDays(runs, spans, k);
    PartInFlatten(runs, k);
    forall r | r in RowsIn(Elements(sorted), spans[k]) ensures r in runs[k] {
      var j := FlattenMember(runs, r);
      RunDays(runs, spans, j);
    }
  }

  /** The runs of a place are determined by the set of its days. */
  lemma {:induction false} SpansOfSet(sorted: seq<Row>, list: seq<int>)
    requires Sorted(sorted, Older) && DayList(Days(Elements(sorted)), list)
    ensures Spans(DaysOf(sorted)) == Spans(list)
  {
    hide Spans, Dedup;
    var days := DaysOf(sorted);
    SortedDaysAscend(sorted);
    DedupSorted(days);
    SpansDedup(days);
    ListsDays(sorted);
    DayListUnique(Days(Elements(sorted)), Dedup(days), list);
  }

  lemma ListsDays(sorted: seq<Row>)
    requires Sorted(sorted, Older)
    ensures DayList(Days(Elements(sorted)), Dedup(DaysOf(sorted)))
  {
    hide Dedup;
    var days := DaysOf(sorted);
    SortedDaysAscend(sorted);
    DedupSorted(days);
    forall d ensures d in days <==> d in Days(Elements(sorted)) {
      if d in days {
        var i :| 0 <= i < |days| && days[i] == d;
        assert sorted[i] in Elements(sorted);
      }
      if d in Days(Elements(sorted)) {
        var r :| r in Elements(sorted) && DayOf(r) == d;
        var i :| 0 <= i < |sorted| && sorted[i] == r;
        assert days[i] == d;
      }
    }
  }
}

/** The event a cluster of posts becomes. */
module EventBuild {
  import opened Wrappers
  import opened Sorting
  import opened Rosters
  import opened EventRows
  import opened EventHome
  import T = Text

  datatype Kind = Trip | Gathering

  datatype Event = Event(
    kind: Kind, place: string, startDate: int, endDate: int, participants: seq<Person>,
    postIds: seq<int>, photoCount: int, coverMediaId: Option<int>)

  predicate Chronological(a: Row, b: Row) {
    if a.createdAt != b.createdAt then a.createdAt < b.createdAt else a.postId < b.postId
  }

  lemma ChronologicalOrder()
    ensures WeakOrder(Chronological)
  {
  }

  /** The posts of a cluster in order of time. */
  ghost predicate InOrder(rows: set<Row>, sorted: seq<Row>) {
    StrictlySorted(sorted, Chronological) && Elements(sorted) == rows
  }

  lemma InOrderUnique(rows: set<Row>, a: seq<Row>, b: seq<Row>)
    requires InOrder(rows, a) && InOrder(rows, b)
    ensures a == b
  {
    ChronologicalOrder();
    DistinctCounts(a);
    DistinctCounts(b);
    forall r ensures multiset(a)[r] == multiset(b)[r] {
      assert r in Elements(a) <==> r in Elements(b);
    }
    assert multiset(a) == multiset(b);
    SortedUnique(a, b, Chronological);
  }

  // ---------- place, photos and cover ----------

  ghost function PostedAs(rows: set<Row>, location: string): set<Row> {
    set r | r in rows && r.location == location
  }

  /** How many of the posts carry each location string. */
  ghost function LocationCounts(rows: set<Row>): map<string, nat> {
    map k | k in (set r | r in rows :: r.location) :: |PostedAs(rows, k)|
  }

  function TotalPhotos(rows: seq<Row>): int {
    if rows == [] then 0 else TotalPhotos(rows[..|rows| - 1]) + rows[|rows| - 1].photoCount
  }

  /** `a` gives the cover rather than `b`: more likes, or as many on an older post id. */
  predicate CoversBefore(a: Row, b: Row) {
    a.likeCount > b.likeCount || (a.likeCount == b.likeCount && a.postId < b.postId)
  }

  ghost predicate BestCover(rows: set<Row>, best: Row) {
    && best in rows && best.coverMediaId.Some?
    && forall r :: r in rows && r.coverMediaId.Some? && r != best ==> CoversBefore(best, r)
  }

  ghost predicate IsCover(rows: set<Row>, cover: Option<int>) {
    if exists r :: r in rows && r.coverMediaId.Some?
    then exists best :: BestCover(rows, best) && cover == best.coverMediaId
    else cover == None
  }

  lemma CoverUnique(rows: set<Row>, a: Option<int>, b: Option<int>)
    requires IsCover(rows, a) && IsCover(rows, b)
    ensures a == b
  {
    if r :| r in rows && r.coverMediaId.Some? {
      var x :| BestCover(rows, x) && a == x.coverMediaId;
      var y :| BestCover(rows, y) && b == y.coverMediaId;
      assert x == y || (CoversBefore(x, y) && CoversBefore(y, x));
    }
  }

  // ---------- the event ----------

  function PostingOf(r: Row): Posting {
    Posting(r.authorId, r.authorName, r.authorPhotoId)
  }

  function Postings(rows: seq<Row>): (ps: seq<Posting>)
    ensures |ps| == |rows| && forall i :: 0 <= i < |rows| ==> ps[i] == PostingOf(rows[i])
  {
    seq(|rows|, i requires 0 <= i < |rows| => PostingOf(rows[i]))
  }

  function PostIds(rows: seq<Row>): (ids: seq<int>)
    ensures |ids| == |rows| && forall i :: 0 <= i < |rows| ==> ids[i] == rows[i].postId
  {
    seq(|rows|, i requires 0 <= i < |rows| => rows[i].postId)
  }

  /** The event of these posts, in order: each field by what it means. */
  ghost predicate Describes(kind: Kind, sorted: seq<Row>, ev: Event) {
    && sorted != []
    && ev.kind == kind
    && IsMostCommon(LocationCounts(Elements(sorted)), ev.place)
    && ev.startDate == DayOf(sorted[0]) && ev.endDate == DayOf(sorted[|sorted| - 1])
    && Roster(Postings(sorted), ev.participants)
    && ev.postIds == PostIds(sorted)
    && ev.photoCount == TotalPhotos(sorted)
    && IsCover(Elements(sorted), ev.coverMediaId)
  }

  /** The event of a set of posts. */
  ghost predicate IsEventOf(kind: Kind, rows: set<Row>, ev: Event) {
    exists sorted :: InOrder(rows, sorted) && Describes(kind, sorted, ev)
  }

  /** A cluster has one event: no choice is left to the order the posts are read in. */
  lemma EventUnique(kind: Kind, rows: set<Row>, a: Event, b: Event)
    requires IsEventOf(kind, rows, a) && IsEventOf(kind, rows, b)
    ensures a == b
  {
    hide InOrder, Describes;
    var x :| InOrder(rows, x) && Describes(kind, x, a);
    var y :| InOrder(rows, y) && Describes(kind, y, b);
    InOrderUnique(rows, x, y);
    DescribesUnique(kind, x, a, b);
  }

  lemma DescribesUnique(kind: Kind, sorted: seq<Row>, a: Event, b: Event)
    requires Describes(kind, sorted, a) && Describes(kind, sorted, b)
    ensures a == b
  {
    hide IsMostCommon, Roster, TotalPhotos, IsCover, LocationCounts, Elements, Postings, PostIds;
    MostCommonUnique(LocationCounts(Elements(sorted)), a.place, b.place);
    RosterUnique(Postings(sorted), a.participants, b.participants);
    CoverUnique(Elements(sorted), a.coverMediaId, b.coverMediaId);
  }

  /** What an event says of its posts: all of them, once each, all within its dates, and each author's share. */
  lemma EventCounts(kind: Kind, rows: set<Row>, ev: Event)
    requires DistinctIds(rows) && IsEventOf(kind, rows, ev)
    ensures forall id :: id in ev.postIds <==> id in Ids(rows)
    ensures |ev.postIds| == |rows| == SumPosts(ev.participants)
    ensures |ev.participants| == |AuthorsOf(rows)|
    ensures forall r :: r in rows ==> ev.startDate <= DayOf(r) <= ev.endDate
    ensures ev.startDate in Days(rows) && ev.endDate in Days(rows)
  {
    hide Roster, TotalPhotos, IsCover, IsMostCommon, LocationCounts;
    var sorted :| InOrder(rows, sorted) && Describes(kind, sorted, ev);
    InOrderIds(rows, sorted);
    InOrderSize(rows, sorted);
    RosterTotals(Postings(sorted), ev.participants);
    PostingAuthors(sorted);
    InOrderDays(rows, sorted);
  }

  lemma InOrderDays(rows: set<Row>, sorted: seq<Row>)
    requires InOrder(rows, sorted) && sorted != []
    ensures
      var first, last := DayOf(sorted[0]), DayOf(sorted[|sorted| - 1]);
      first in Days(rows) && last in Days(rows) && forall r :: r in rows ==> first <= DayOf(r) <= last
  {
    var n := |sorted|;
    assert sorted[0] in rows && sorted[n - 1] in rows;
    forall r | r in rows ensures DayOf(sorted[0]) <= DayOf(r) <= DayOf(sorted[n - 1]) {
      var i :| 0 <= i < n && sorted[i] == r;
      assert i > 0 ==> Chronological(sorted[0], sorted[i]);
      assert i < n - 1 ==> Chronological(sorted[i], sorted[n - 1]);
    }
  }

  lemma InOrderIds(rows: set<Row>, sorted: seq<Row>)
    requires InOrder(rows, sorted)
    ensures forall id :: id in PostIds(sorted) <==> id in Ids(rows)
  {
    var ids := PostIds(sorted);
    forall id ensures id in ids <==> id in Ids(rows) {
      if id in ids {
        var i :| 0 <= i < |ids| && ids[i] == id;
        assert sorted[i] in rows;
      }
      if id in Ids(rows) {
        var r :| r in rows && r.postId == id;
        var i :| 0 <= i < |sorted| && sorted[i] == r;
        assert ids[i] == id;
      }
    }
  }

  lemma InOrderSize(rows: set<Row>, sorted: seq<Row>)
    requires InOrder(rows, sorted) && DistinctIds(rows)
    ensures |sorted| == |rows|
  {
    forall i, j | 0 <= i < j < |sorted| ensures PostIdOf(sorted[i]) != PostIdOf(sorted[j]) {
      assert Chronological(sorted[i], sorted[j]);
      assert sorted[i] in rows && sorted[j] in rows;
    }
    ElementsSize(sorted);
  }

  lemma PostingAuthors(sorted: seq<Row>)
    ensures Authors(Postings(sorted)) == AuthorsOf(Elements(sorted))
  {
    var ps := Postings(sorted);
    forall a ensures a in Authors(ps) <==> a in AuthorsOf(Elements(sorted)) {
      if a in Authors(ps) {
        var p :| p in ps && p.userId == a;
        var i :| 0 <= i < |ps| && ps[i] == p;
        assert sorted[i] in Elements(sorted);
      }
      if a in AuthorsOf(Elements(sorted)) {
        var r :| r in Elements(sorted) && r.authorId == a;
        var i :| 0 <= i < |sorted| && sorted[i] == r;
        assert ps[i] in ps;
      }
    }
  }

  // ---------- building it ----------

  method DisplayLocation(run: seq<Row>) returns (place: string)
    requires run != [] && DistinctPosts(run)
    ensures IsMostCommon(LocationCounts(Elements(run)), place)
  {
    hide IsMostCommon, LocationCounts;
    var counts: map<string, nat> := map[];
    NoLocations();
    assert run[..0] == [];
    for i := 0 to |run|
      invariant counts == LocationCounts(Elements(run[..i]))
    {
      CountLocation(run, i);
      var k := run[i].location;
      counts := counts[k := (if k in counts then counts[k] else 0) + 1];
    }
    assert run[..|run|] == run;
    LocationsPositive(run);
    var n: nat;
    place, n := MostCommonKey(counts);
  }

  lemma NoLocations()
    ensures LocationCounts(Elements([])) == map[]
  {
  }

  lemma LocationsPositive(run: seq<Row>)
    requires run != []
    ensures LocationCounts(Elements(run)) != map[]
    ensures forall k :: k in LocationCounts(Elements(run)) ==> LocationCounts(Elements(run))[k] > 0
  {
    assert run[0] in Elements(run);
    assert run[0].location in LocationCounts(Elements(run));
    forall k | k in LocationCounts(Elements(run)) ensures LocationCounts(Elements(run))[k] > 0 {
      var r :| r in Elements(run) && r.location == k;
      assert r in PostedAs(Elements(run), k);
    }
  }

  lemma CountLocation(run: seq<Row>, i: nat)
    requires i < |run| && DistinctPosts(run)
    ensures
      var was, k := LocationCounts(Elements(run[..i])), run[i].location;
      LocationCounts(Elements(run[..i + 1])) == was[k := (if k in was then was[k] else 0) + 1]
  {
    var before, r := run[..i], run[i];
    assert run[..i + 1] == before + [r];
    assert r !in before by {
      forall j | 0 <= j < |before| ensures before[j] != r {
        assert PostIdOf(run[j]) != PostIdOf(run[i]);
      }
    }
    hide LocationCounts;
    assert Elements(run[..i + 1]) == Elements(before) + {r};
    AddLocation(Elements(before), r);
  }

  lemma AddLocation(was: set<Row>, r: Row)
    requires r !in was
    ensures
      var counts, k := LocationCounts(was), r.location;
      LocationCounts(was + {r}) == counts[k := (if k in counts then counts[k] else 0) + 1]
  {
    hide PostedAs;
    var now, loc := was + {r}, r.location;
    forall k ensures k in LocationCounts(now) <==> k in LocationCounts(was) || k == loc {
    }
    forall k ensures |PostedAs(now, k)| == |PostedAs(was, k)| + (if k == loc then 1 else 0) {
      PostedOne(was, r, k);
    }
    if loc !in LocationCounts(was) {
      assert PostedAs(was, loc) == {} by {
        NonePosted(was, loc);
      }
    }
  }

  lemma NonePosted(rows: set<Row>, k: string)
    requires !exists r :: r in rows && r.location == k
    ensures PostedAs(rows, k) == {}
  {
  }

  lemma PostedOne(was: set<Row>, r: Row, k: string)
    requires r !in was
    ensures |PostedAs(was + {r}, k)| == |PostedAs(was, k)| + (if k == r.location then 1 else 0)
  {
    if k == r.location {
      assert PostedAs(was + {r}, k) == PostedAs(was, k) + {r};
    } else {
      assert PostedAs(was + {r}, k) == PostedAs(was, k);
    }
  }

  /** The best cover among the posts read so far. */
  ghost predicate CoverSoFar(done: seq<Row>, coverPost: Option<Row>) {
    match coverPost
    case None => forall r :: r in done ==> r.coverMediaId.None?
    case Some(best) => BestCover(Elements(done), best)
  }

  lemma CoverOne(done: seq<Row>, r: Row, coverPost: Option<Row>)
    requires CoverSoFar(done, coverPost) && DistinctPosts(done + [r])
    ensures
      var better := r.coverMediaId.Some? && (coverPost.None? || CoversBefore(r, coverPost.value));
      CoverSoFar(done + [r], if better then Some(r) else coverPost)
  {
    var now := done + [r];
    if coverPost.Some? && r.coverMediaId.Some? {
      var best := coverPost.value;
      var k :| 0 <= k < |done| && done[k] == best;
      assert PostIdOf(now[k]) != PostIdOf(now[|done|]);
    }
  }

  lemma CoverFound(rows: seq<Row>, coverPost: Option<Row>)
    requires CoverSoFar(rows, coverPost)
    ensures IsCover(Elements(rows), if coverPost.Some? then coverPost.value.coverMediaId else None)
  {
    if coverPost.Some? {
      assert BestCover(Elements(rows), coverPost.value);
    }
  }

  lemma SortedInOrder(run: seq<Row>, sorted: seq<Row>)
    requires DistinctPosts(run) && multiset(sorted) == multiset(run) && Sorted(sorted, Chronological)
    ensures InOrder(Elements(run), sorted) && DistinctPosts(sorted) && |sorted| == |run|
  {
    SameElements(sorted, run);
    DistinctByPermutation(run, sorted, PostIdOf);
    forall i, j | 0 <= i < j < |sorted| ensures Chronological(sorted[i], sorted[j]) {
      assert !Chronological(sorted[j], sorted[i]) && PostIdOf(sorted[i]) != PostIdOf(sorted[j]);
    }
  }

  lemma DistinctPrefix(rows: seq<Row>, n: nat)
    requires DistinctPosts(rows) && n <= |rows|
    ensures DistinctPosts(rows[..n])
  {
    forall i, j | 0 <= i < j < n ensures PostIdOf(rows[..n][i]) != PostIdOf(rows[..n][j]) {
      assert PostIdOf(rows[i]) != PostIdOf(rows[j]);
    }
  }

  lemma PhotosStep(rows: seq<Row>, i: nat)
    requires i < |rows|
    ensures TotalPhotos(rows[..i + 1]) == TotalPhotos(rows[..i]) + rows[i].photoCount
  {
    assert rows[..i + 1][..i] == rows[..i];
  }

  method BuildEvent(kind: Kind, run: seq<Row>) returns (ev: Event)
    requires run != [] && DistinctPosts(run)
    ensures IsEventOf(kind, Elements(run), ev)
  {
    hide InOrder, Roster, TotalPhotos, IsCover, IsMostCommon, LocationCounts, DistinctBy, CoverSoFar, Sorted, WeakOrder;
    ChronologicalOrder();
    var sorted := SortSlice(run, Chronological);
    SortedInOrder(run, sorted);
    var photoCount := 0;
    var coverPost: Option<Row> := None;
    assert sorted[..0] == [];
    NoCover();
    for i := 0 to |sorted|
      invariant photoCount == TotalPhotos(sorted[..i])
      invariant CoverSoFar(sorted[..i], coverPost)
    {
      var r := sorted[i];
      assert sorted[..i + 1] == sorted[..i] + [r];
      DistinctPrefix(sorted, i + 1);
      CoverOne(sorted[..i], r, coverPost);
      PhotosStep(sorted, i);
      photoCount := photoCount + r.photoCount;
      if r.coverMediaId.Some? {
        if coverPost.None? || CoversBefore(r, coverPost.value) {
          coverPost := Some(r);
        }
      }
    }
    assert sorted[..|sorted|] == sorted;
    CoverFound(sorted, coverPost);
    var people := TallyPeople(Postings(sorted));
    var place := DisplayLocation(sorted);
    ev := Event(kind, place, DayOf(sorted[0]), DayOf(sorted[|sorted| - 1]), people, PostIds(sorted), photoCount,
                if coverPost.Some? then coverPost.value.coverMediaId else None);
    assert Describes(kind, sorted, ev);
  }

  lemma NoCover()
    ensures CoverSoFar([], None) && TotalPhotos([]) == 0
  {
  }

  // ---------- the order of events ----------

  function FirstPost(e: Event): int {
    if e.postIds == [] then 0 else e.postIds[0]
  }

  /** Newest end first; a trip before a gathering; then newest start, place, and earliest post. */
  predicate EventOutranks(a: Event, b: Event) {
    if a.endDate != b.endDate then a.endDate > b.endDate
    else if a.kind != b.kind then a.kind == Trip
    else if a.startDate != b.startDate then a.startDate > b.startDate
    else if a.place != b.place then T.Less(a.place, b.place)
    else FirstPost(a) < FirstPost(b)
  }

  lemma EventOrder()
    ensures WeakOrder(EventOutranks)
    ensures forall a, b :: EventOutranks(a, b) || EventOutranks(b, a) || FirstPost(a) == FirstPost(b)
  {
    hide T.Less;
    T.LessIsOrder();
  }
}
