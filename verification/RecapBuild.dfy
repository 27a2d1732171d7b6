/** How a recap is assembled from a period's posts, and what filtering such a recap does. */
module RecapBuild {
  import opened Wrappers
  import opened Sorting
  import opened RecapSelect
  import opened RecapWall
  import opened RecapFilter
  import opened Rosters

  const RECAP_MIN_POSTS: nat := 3
  const RECAP_MIN_POSTERS: nat := 2

  datatype RecapError = RecapEmpty

  function SumLikes(cands: seq<Candidate>): int {
    if cands == [] then 0 else cands[0].likeCount + SumLikes(cands[1..])
  }

  function SumComments(cands: seq<Candidate>): int {
    if cands == [] then 0 else cands[0].commentCount + SumComments(cands[1..])
  }

  predicate IsClip(c: Candidate) {
    c.media.Some? && StartsWith(c.media.value.mime, "video/")
  }

  function CountClips(cands: seq<Candidate>): nat {
    if cands == [] then 0 else (if IsClip(cands[0]) then 1 else 0) + CountClips(cands[1..])
  }

  function CountMedia(cands: seq<Candidate>): nat {
    if cands == [] then 0 else (if cands[0].media.Some? then 1 else 0) + CountMedia(cands[1..])
  }

  ghost function Places(cands: seq<Candidate>): set<string> {
    set c | c in cands && c.location != "" :: c.location
  }

  /** The totals of a period. */
  ghost predicate AreStats(cands: seq<Candidate>, memberCount: int, stats: RecapStats) {
    && stats.posts == |cands| && stats.members == memberCount
    && stats.likes == SumLikes(cands) && stats.comments == SumComments(cands)
    && stats.clips == CountClips(cands) && stats.photos + stats.clips == CountMedia(cands)
    && stats.places == |Places(cands)| && stats.posters == |Authors(Postings(cands))|
  }

  method RecapStatsOf(cands: seq<Candidate>, memberCount: int) returns (stats: RecapStats)
    ensures AreStats(cands, memberCount, stats)
  {
    var likes, comments, photos, clips := 0, 0, 0, 0;
    var places: set<string>, posters: set<int> := {}, {};
    for i := 0 to |cands|
      invariant SumLikes(cands) == likes + SumLikes(cands[i..])
      invariant SumComments(cands) == comments + SumComments(cands[i..])
      invariant CountClips(cands) == clips + CountClips(cands[i..])
      invariant CountMedia(cands) == photos + clips + CountMedia(cands[i..])
      invariant places == Places(cands[..i]) && posters == Authors(Postings(cands[..i]))
    {
      hide Places, Authors;
      var c := cands[i];
      assert cands[i..][1..] == cands[i + 1..];
      assert cands[..i + 1] == cands[..i] + [c];
      SetsAppend(cands[..i], c);
      likes := likes + c.likeCount;
      comments := comments + c.commentCount;
      posters := posters + {c.authorId};
      if c.media.Some? {
        if IsClip(c) {
          clips := clips + 1;
        } else {
          photos := photos + 1;
        }
      }
      if c.location != "" {
        places := places + {c.location};
      }
    }
    assert cands[..|cands|] == cands;
    stats := RecapStats(|cands|, photos, clips, likes, comments, |places|, memberCount, |posters|);
  }

  /** One more post adds its own likes and comments, and its attachment: a clip if the type begins so. */
  lemma {:induction false} TotalsGrow(cands: seq<Candidate>, c: Candidate)
    ensures SumLikes([]) == SumComments([]) == CountClips([]) == CountMedia([]) == 0
    ensures SumLikes(cands + [c]) == SumLikes(cands) + c.likeCount
    ensures SumComments(cands + [c]) == SumComments(cands) + c.commentCount
    ensures CountMedia(cands + [c]) == CountMedia(cands) + if c.media.Some? then 1 else 0
    ensures CountClips(cands + [c])
         == CountClips(cands) + if c.media.Some? && "video/" <= c.media.value.mime then 1 else 0
  {
    if cands == [] {
      assert cands + [c] == [c];
    } else {
      TotalsGrow(cands[1..], c);
      assert (cands + [c])[1..] == cands[1..] + [c];
    }
  }

  lemma SetsAppend(done: seq<Candidate>, c: Candidate)
    ensures Authors(Postings(done + [c])) == Authors(Postings(done)) + {c.authorId}
    ensures Places(done + [c]) == Places(done) + if c.location != "" then {c.location} else {}
  {
    assert Postings(done + [c]) == Postings(done) + [PostingOf(c)];
  }

  /** A payload assembled from `cands`. */
  ghost predicate BuiltFrom(payload: RecapPayload, cands: seq<Candidate>) {
    && Roster(Postings(cands), payload.people)
    && payload.stats.posts == |cands| && payload.stats.posters == |Authors(Postings(cands))|
    && (forall i :: 0 <= i < |payload.panels| ==>
          && payload.panels[i].cards != [] && payload.panels[i].awards == []
          && forall k :: 0 <= k < |payload.panels[i].cards| ==>
              payload.panels[i].cards[k].authorId in Authors(Postings(cands)))
  }

  /** How many of the panels asked for are the Wall, the only kind there is. */
  function Walls(panels: seq<string>): nat {
    if panels == [] then 0
    else Walls(panels[..|panels| - 1]) + if panels[|panels| - 1] == "collage" then 1 else 0
  }

  /** The panel of the Wall. */
  ghost predicate IsWallPanel(cands: seq<Candidate>, limit: nat, panel: RecapPanel) {
    && panel.kind == "collage" && panel.title == "The Wall" && panel.awards == []
    && panel.cards != [] && IsWall(cands, limit, panel.cards)
  }

  /** The payload of a period: its roster and totals, and the Wall as often as it was asked for. */
  ghost predicate IsPayload(
    cands: seq<Candidate>, memberCount: int, panels: seq<string>, period: RecapPeriod, payload: RecapPayload)
  {
    && payload.period == period
    && Roster(Postings(cands), payload.people) && AreStats(cands, memberCount, payload.stats)
    && |payload.panels| == Walls(panels)
    && forall i :: 0 <= i < |payload.panels| ==>
         IsWallPanel(cands, CollageCardCap(period.cadence, memberCount), payload.panels[i])
  }

  /** A Wall of some posts is not empty. */
  lemma WallNonempty(cands: seq<Candidate>, limit: nat, cards: seq<RecapCard>)
    requires IsWall(cands, limit, cards) && cands != [] && limit > 0
    ensures cards != []
  {
    hide Chosen, StrictlySorted, Bests;
    var ranked :| Ranking(cands, ranked) && cards == CardsAt(ranked, Chosen(ranked, limit));
    SameElements(cands, ranked);
    if |Bests(ranked, |ranked|)| <= limit {
      ChosenIsFair(ranked, limit);
      assert Standing(ranked, 0) == 0;
    } else {
      ChosenWhenCrowded(ranked, limit);
    }
  }

  lemma PayloadIsBuilt(
    cands: seq<Candidate>, memberCount: int, panels: seq<string>, period: RecapPeriod, payload: RecapPayload)
    requires IsPayload(cands, memberCount, panels, period, payload)
    ensures BuiltFrom(payload, cands)
  {
    hide IsWall, CollageCardCap, Roster, Authors, Postings;
    forall i | 0 <= i < |payload.panels|
      ensures forall k :: 0 <= k < |payload.panels[i].cards| ==>
                payload.panels[i].cards[k].authorId in Authors(Postings(cands))
    {
      assert IsWallPanel(cands, CollageCardCap(period.cadence, memberCount), payload.panels[i]);
      CardsBelong(cands, CollageCardCap(period.cadence, memberCount), payload.panels[i].cards);
    }
  }

  /** `BuildRecap` from the posts it read: nothing for a quiet period, else roster, totals and the Wall. */
  method BuildRecap(cands: seq<Candidate>, memberCount: int, panels: seq<string>, period: RecapPeriod,
                    groupName: string, groupColor: string)
    returns (r: Result<RecapPayload, RecapError>)
    requires DistinctPosts(cands)
    ensures r.Err? <==> |cands| < RECAP_MIN_POSTS || |Authors(Postings(cands))| < RECAP_MIN_POSTERS
    ensures r.Ok? ==> IsPayload(cands, memberCount, panels, period, r.value) && BuiltFrom(r.value, cands)
  {
    hide DistinctBy, Standing, Roster, Authors, IsWall, BuiltFrom, CollageCardCap;
    var stats := RecapStatsOf(cands, memberCount);
    if |cands| < RECAP_MIN_POSTS || stats.posters < RECAP_MIN_POSTERS {
      return Err(RecapEmpty);
    }
    var people := RecapPeople(cands);
    var payload := RecapPayload(1, period, groupName, groupColor, stats, [], people);
    for i := 0 to |panels|
      invariant IsPayload(cands, memberCount, panels[..i], period, payload)
    {
      assert panels[..i + 1][..i] == panels[..i];
      if panels[i] == "collage" {
        var cards := SelectCollageCards(cands, memberCount, period.cadence);
        WallNonempty(cands, CollageCardCap(period.cadence, memberCount), cards);
        if |cards| > 0 {
          payload := payload.(panels := payload.panels + [RecapPanel("collage", "The Wall", cards, [])]);
        }
      }
    }
    assert panels[..|panels|] == panels;
    PayloadIsBuilt(cands, memberCount, panels, period, payload);
    return Ok(payload);
  }

  lemma CardsBelong(cands: seq<Candidate>, limit: nat, cards: seq<RecapCard>)
    requires IsWall(cands, limit, cards)
    ensures forall k :: 0 <= k < |cards| ==> cards[k].authorId in Authors(Postings(cands))
  {
    hide Chosen, Ranking, CardsAt, Postings, Authors;
    var ranked :| Ranking(cands, ranked) && cards == CardsAt(ranked, Chosen(ranked, limit));
    CardsFrom(cands, ranked, Chosen(ranked, limit), cards);
  }

  lemma CardsFrom(cands: seq<Candidate>, ranked: seq<Candidate>, p: seq<nat>, cards: seq<RecapCard>)
    requires Ranking(cands, ranked) && Within(p, |ranked|) && cards == CardsAt(ranked, p)
    ensures forall k :: 0 <= k < |cards| ==> cards[k].authorId in Authors(Postings(cands))
  {
    SameElements(cands, ranked);
    forall k | 0 <= k < |cards| ensures cards[k].authorId in Authors(Postings(cands)) {
      assert ranked[p[k]] in cands;
      var i :| 0 <= i < |cands| && cands[i] == ranked[p[k]];
      assert Postings(cands)[i] in Postings(cands);
    }
  }

  // ---------- filtering a built recap ----------

  /** Blocking members who posted nothing changes nothing. */
  lemma FilterStrangers(payload: RecapPayload, cands: seq<Candidate>, blocked: set<int>)
    requires BuiltFrom(payload, cands) && blocked !! Authors(Postings(cands))
    ensures FilterRecap(payload, blocked) == payload
  {
    KeepAllPeople(payload.people, blocked);
    RosterTotals(Postings(cands), payload.people);
    forall i, k | 0 <= i < |payload.panels| && 0 <= k < |payload.panels[i].cards|
      ensures payload.panels[i].cards[k].authorId !in blocked
    {
      assert payload.panels[i].cards[k].authorId in Authors(Postings(cands));
    }
    KeepAllPanels(payload.panels, blocked);
  }

  lemma {:induction false} KeepAllPeople(people: seq<Person>, blocked: set<int>)
    requires forall p :: p in people ==> p.userId !in blocked
    ensures FilterPeople(people, blocked) == people
  {
    if people != [] {
      KeepAllPeople(people[1..], blocked);
      assert people == [people[0]] + people[1..];
    }
  }

  lemma {:induction false} KeepAllCards(cards: seq<RecapCard>, blocked: set<int>)
    requires forall k :: 0 <= k < |cards| ==> cards[k].authorId !in blocked
    ensures FilterCards(cards, blocked) == cards
  {
    if cards != [] {
      KeepAllCards(cards[1..], blocked);
      assert cards == [cards[0]] + cards[1..];
    }
  }

  lemma {:induction false} KeepAllPanels(panels: seq<RecapPanel>, blocked: set<int>)
    requires forall i :: 0 <= i < |panels| ==> panels[i].cards != [] && panels[i].awards == []
    requires forall i, k :: 0 <= i < |panels| && 0 <= k < |panels[i].cards| ==> panels[i].cards[k].authorId !in blocked
    ensures FilterPanels(panels, blocked) == panels
  {
    if panels != [] {
      KeepAllCards(panels[0].cards, blocked);
      KeepAllPanels(panels[1..], blocked);
      assert panels == [panels[0]] + panels[1..];
    }
  }

  /** What the viewer sees of roster and totals is what the posts of the others alone would give. */
  lemma {:induction false} FilterIsRebuild(payload: RecapPayload, cands: seq<Candidate>, blocked: set<int>)
    requires BuiltFrom(payload, cands)
    ensures
      var seen, rest := FilterRecap(payload, blocked), Unblocked(cands, blocked);
      && Roster(Postings(rest), seen.people)
      && seen.stats.posts == |rest| && seen.stats.posters == |Authors(Postings(rest))|
  {
    hide Roster, FilterPeople, Unblocked, Authors;
    UnblockedPostings(cands, blocked);
    FilterRoster(Postings(cands), payload.people, blocked);
    RosterTotals(Postings(Unblocked(cands, blocked)), FilterPeople(payload.people, blocked));
    if blocked == {} {
      KeepAllPeople(payload.people, blocked);
      NoneBlocked(cands);
    }
  }

  lemma {:induction false} NoneBlocked(cands: seq<Candidate>)
    ensures Unblocked(cands, {}) == cands
  {
    if cands != [] {
      NoneBlocked(cands[1..]);
      assert cands == [cands[0]] + cands[1..];
    }
  }

  lemma {:induction false} FilterRoster(ps: seq<Posting>, people: seq<Person>, blocked: set<int>)
    requires Roster(ps, people)
    ensures Roster(Without(ps, blocked), FilterPeople(people, blocked))
  {
    hide FilterPeople, PersonOf;
    var rest, seen := Without(ps, blocked), FilterPeople(people, blocked);
    WithoutCounts(ps, blocked);
    FilterMembers(people, blocked);
    FilterSorted(people, blocked);
    assert Authors(rest) == Authors(ps) - blocked;
  }

  lemma {:induction false} FilterMembers(people: seq<Person>, blocked: set<int>)
    ensures forall p :: p in FilterPeople(people, blocked) <==> p in people && p.userId !in blocked
  {
    if people != [] {
      FilterMembers(people[1..], blocked);
    }
  }

  lemma {:induction false} FilterSorted(people: seq<Person>, blocked: set<int>)
    requires StrictlySorted(people, PersonOutranks)
    ensures StrictlySorted(FilterPeople(people, blocked), PersonOutranks)
  {
    if people != [] {
      FilterSorted(people[1..], blocked);
      FilterMembers(people[1..], blocked);
      var rest := FilterPeople(people[1..], blocked);
      forall j | 0 <= j < |rest| ensures PersonOutranks(people[0], rest[j]) {
        assert rest[j] in people[1..];
      }
    }
  }
}
