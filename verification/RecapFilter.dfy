/**
 A recap's roster and totals, and the view of a recap for a member who has blocked some of the others.
 */
module RecapFilter {
  import opened RecapSelect
  import opened Rosters

  datatype RecapAward = RecapAward(id: string, userId: int, userName: string, value: string)

  datatype RecapPanel = RecapPanel(kind: string, title: string, cards: seq<RecapCard>, awards: seq<RecapAward>)

  datatype RecapStats = RecapStats(
    posts: nat, photos: nat, clips: nat, likes: int, comments: int, places: nat, members: int, posters: nat)

  datatype RecapPeriod = RecapPeriod(start: int, end: int, name: string, cadence: Cadence)

  datatype RecapPayload = RecapPayload(
    v: int, period: RecapPeriod, groupName: string, groupColor: string, stats: RecapStats,
    panels: seq<RecapPanel>, people: seq<Person>)

  // ---------- the roster ----------

  function PostingOf(c: Candidate): Posting {
    Posting(c.authorId, c.authorName, c.authorPhotoId)
  }

  function Postings(cands: seq<Candidate>): (ps: seq<Posting>)
    ensures |ps| == |cands|
  {
    seq(|cands|, i requires 0 <= i < |cands| => PostingOf(cands[i]))
  }

  /** The posts of authors who are not blocked. */
  function Unblocked(cands: seq<Candidate>, blocked: set<int>): seq<Candidate> {
    if cands == [] then []
    else if cands[0].authorId in blocked then Unblocked(cands[1..], blocked)
    else [cands[0]] + Unblocked(cands[1..], blocked)
  }

  lemma {:induction false} UnblockedPostings(cands: seq<Candidate>, blocked: set<int>)
    ensures Postings(Unblocked(cands, blocked)) == Without(Postings(cands), blocked)
  {
    hide Postings;
    if cands == [] {
      assert Postings(cands) == [];
    }
    if cands != [] {
      UnblockedPostings(cands[1..], blocked);
      PostingsFirst(cands);
      if cands[0].authorId !in blocked {
        var rest := Unblocked(cands[1..], blocked);
        PostingsFirst([cands[0]] + rest);
        assert ([cands[0]] + rest)[1..] == rest;
      }
    }
  }

  lemma PostingsFirst(cands: seq<Candidate>)
    requires cands != []
    ensures Postings(cands) == [PostingOf(cands[0])] + Postings(cands[1..])
    ensures Postings(cands)[1..] == Postings(cands[1..])
  {
  }

  /** `recapPeople`: the roster of a period. */
  method RecapPeople(cands: seq<Candidate>) returns (people: seq<Person>)
    ensures Roster(Postings(cands), people)
  {
    people := TallyPeople(Postings(cands));
  }

  // ---------- the view of a recap ----------

  function FilterPeople(people: seq<Person>, blocked: set<int>): seq<Person> {
    if people == [] then []
    else if people[0].userId in blocked then FilterPeople(people[1..], blocked)
    else [people[0]] + FilterPeople(people[1..], blocked)
  }

  function FilterCards(cards: seq<RecapCard>, blocked: set<int>): seq<RecapCard> {
    if cards == [] then []
    else if cards[0].authorId in blocked then FilterCards(cards[1..], blocked)
    else [cards[0]] + FilterCards(cards[1..], blocked)
  }

  function FilterAwards(awards: seq<RecapAward>, blocked: set<int>): seq<RecapAward> {
    if awards == [] then []
    else if awards[0].userId in blocked then FilterAwards(awards[1..], blocked)
    else [awards[0]] + FilterAwards(awards[1..], blocked)
  }

  function FilterPanel(panel: RecapPanel, blocked: set<int>): RecapPanel {
    panel.(cards := FilterCards(panel.cards, blocked), awards := FilterAwards(panel.awards, blocked))
  }

  /** Panels with nothing left in them are dropped. */
  function FilterPanels(panels: seq<RecapPanel>, blocked: set<int>): seq<RecapPanel> {
    if panels == [] then []
    else
      var p := FilterPanel(panels[0], blocked);
      if p.cards == [] && p.awards == [] then FilterPanels(panels[1..], blocked)
      else [p] + FilterPanels(panels[1..], blocked)
  }

  function FilterRecap(payload: RecapPayload, blocked: set<int>): RecapPayload {
    if blocked == {} then payload
    else
      var people := FilterPeople(payload.people, blocked);
      payload.(people := people, panels := FilterPanels(payload.panels, blocked),
               stats := payload.stats.(posts := SumPosts(people), posters := |people|))
  }

  method FilterRecapPeople(people: seq<Person>, blocked: set<int>) returns (out: seq<Person>)
    ensures out == FilterPeople(people, blocked)
  {
    out := [];
    for i := 0 to |people|
      invariant FilterPeople(people, blocked) == out + FilterPeople(people[i..], blocked)
    {
      assert people[i..][1..] == people[i + 1..];
      if people[i].userId !in blocked {
        out := out + [people[i]];
      }
    }
  }

  method FilterRecapCards(cards: seq<RecapCard>, blocked: set<int>) returns (out: seq<RecapCard>)
    ensures out == FilterCards(cards, blocked)
  {
    out := [];
    for i := 0 to |cards|
      invariant FilterCards(cards, blocked) == out + FilterCards(cards[i..], blocked)
    {
      assert cards[i..][1..] == cards[i + 1..];
      if cards[i].authorId !in blocked {
        out := out + [cards[i]];
      }
    }
  }

  method FilterRecapAwards(awards: seq<RecapAward>, blocked: set<int>) returns (out: seq<RecapAward>)
    ensures out == FilterAwards(awards, blocked)
  {
    out := [];
    for i := 0 to |awards|
      invariant FilterAwards(awards, blocked) == out + FilterAwards(awards[i..], blocked)
    {
      assert awards[i..][1..] == awards[i + 1..];
      if awards[i].userId !in blocked {
        out := out + [awards[i]];
      }
    }
  }

  method FilterRecapPanels(panels: seq<RecapPanel>, blocked: set<int>) returns (out: seq<RecapPanel>)
    ensures out == FilterPanels(panels, blocked)
  {
    out := [];
    for i := 0 to |panels|
      invariant FilterPanels(panels, blocked) == out + FilterPanels(panels[i..], blocked)
    {
      assert panels[i..][1..] == panels[i + 1..];
      var cards := FilterRecapCards(panels[i].cards, blocked);
      var awards := FilterRecapAwards(panels[i].awards, blocked);
      if |cards| != 0 || |awards| != 0 {
        out := out + [panels[i].(cards := cards, awards := awards)];
      }
    }
  }

  method FilterRecapForViewer(payload: RecapPayload, blocked: set<int>) returns (out: RecapPayload)
    ensures out == FilterRecap(payload, blocked)
  {
    if |blocked| == 0 {
      return payload;
    }
    var people := FilterRecapPeople(payload.people, blocked);
    var panels := FilterRecapPanels(payload.panels, blocked);
    var posts := 0;
    for i := 0 to |people|
      invariant SumPosts(people) == posts + SumPosts(people[i..])
    {
      assert people[i..][1..] == people[i + 1..];
      posts := posts + people[i].posts;
    }
    out := payload.(people := people, panels := panels, stats := payload.stats.(posts := posts, posters := |people|));
  }

  // ---------- blocking in two steps ----------

  lemma {:induction false} PeopleTwice(people: seq<Person>, a: set<int>, b: set<int>)
    ensures FilterPeople(FilterPeople(people, a), b) == FilterPeople(people, a + b)
  {
    if people != [] {
      PeopleTwice(people[1..], a, b);
      if people[0].userId !in a {
        assert FilterPeople(people, a)[1..] == FilterPeople(people[1..], a);
      }
    }
  }

  lemma {:induction false} CardsTwice(cards: seq<RecapCard>, a: set<int>, b: set<int>)
    ensures FilterCards(FilterCards(cards, a), b) == FilterCards(cards, a + b)
  {
    if cards != [] {
      CardsTwice(cards[1..], a, b);
      if cards[0].authorId !in a {
        assert FilterCards(cards, a)[1..] == FilterCards(cards[1..], a);
      }
    }
  }

  lemma {:induction false} AwardsTwice(awards: seq<RecapAward>, a: set<int>, b: set<int>)
    ensures FilterAwards(FilterAwards(awards, a), b) == FilterAwards(awards, a + b)
  {
    if awards != [] {
      AwardsTwice(awards[1..], a, b);
      if awards[0].userId !in a {
        assert FilterAwards(awards, a)[1..] == FilterAwards(awards[1..], a);
      }
    }
  }

  lemma {:induction false} PanelsTwice(panels: seq<RecapPanel>, a: set<int>, b: set<int>)
    ensures FilterPanels(FilterPanels(panels, a), b) == FilterPanels(panels, a + b)
  {
    hide FilterCards, FilterAwards;
    if panels != [] {
      var p := panels[0];
      PanelsTwice(panels[1..], a, b);
      CardsTwice(p.cards, a, b);
      AwardsTwice(p.awards, a, b);
      NothingLeft(b);
      var q := FilterPanel(p, a);
      if q.cards == [] && q.awards == [] {
        assert FilterPanels(panels, a) == FilterPanels(panels[1..], a);
      } else {
        assert FilterPanels(panels, a)[1..] == FilterPanels(panels[1..], a);
      }
    }
  }

  lemma {:induction false} NothingLeft(b: set<int>)
    ensures FilterCards([], b) == [] && FilterAwards([], b) == []
  {
  }

  /** Blocking some members, then some more, shows the same recap as blocking all of them at once. */
  lemma FilterTwice(payload: RecapPayload, a: set<int>, b: set<int>)
    ensures FilterRecap(FilterRecap(payload, a), b) == FilterRecap(payload, a + b)
  {
    PeopleTwice(payload.people, a, b);
    PanelsTwice(payload.panels, a, b);
    if a == {} {
      assert a + b == b;
    } else if b == {} {
      assert a + b == a;
    }
  }
}
