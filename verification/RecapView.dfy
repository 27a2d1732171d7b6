/** What a member who has blocked others sees of a recap: nothing of theirs, and everything else. */
module RecapView {
  import opened RecapSelect
  import opened RecapFilter
  import opened Rosters

  // ---------- a list without some of its elements ----------

  /** How many of the first `i` elements are to be kept. */
  function Before<T(!new)>(all: seq<T>, i: nat, keep: T -> bool): (n: nat)
    requires i <= |all|
  {
    if i == 0 then 0 else (if keep(all[0]) then 1 else 0) + Before(all[1..], i - 1, keep)
  }

  /** The elements to keep, each after as many as are kept before it, and no other. */
  ghost predicate Kept<T(!new)>(all: seq<T>, kept: seq<T>, keep: T -> bool) {
    && |kept| == Before(all, |all|, keep)
    && forall i :: 0 <= i < |all| && keep(all[i]) ==>
         Before(all, i, keep) < |kept| && kept[Before(all, i, keep)] == all[i]
  }

  lemma BeforeCons<T(!new)>(x: T, all: seq<T>, i: nat, keep: T -> bool)
    requires i <= |all|
    ensures Before([x] + all, i + 1, keep) == (if keep(x) then 1 else 0) + Before(all, i, keep)
  {
    assert ([x] + all)[1..] == all;
  }

  lemma KeptCons<T(!new)>(x: T, all: seq<T>, kept: seq<T>, keep: T -> bool)
    requires Kept(all, kept, keep)
    ensures Kept([x] + all, if keep(x) then [x] + kept else kept, keep)
  {
    hide Before;
    var all', kept' := [x] + all, if keep(x) then [x] + kept else kept;
    BeforeCons(x, all, |all|, keep);
    BeforeNone(all', keep);
    forall i | 0 <= i < |all'| && keep(all'[i])
      ensures Before(all', i, keep) < |kept'| && kept'[Before(all', i, keep)] == all'[i]
    {
      if i > 0 {
        BeforeCons(x, all, i - 1, keep);
        assert all'[i] == all[i - 1];
      }
    }
  }

  lemma {:induction false} BeforeNone<T(!new)>(all: seq<T>, keep: T -> bool)
    ensures Before(all, 0, keep) == 0
  {
  }

  lemma KeptNone<T(!new)>(keep: T -> bool)
    ensures Kept<T>([], [], keep)
  {
  }

  /** Every place of the list kept is that of one element. */
  lemma {:induction false} KeptFrom<T(!new)>(all: seq<T>, k: nat, keep: T -> bool) returns (i: nat)
    requires k < Before(all, |all|, keep)
    ensures i < |all| && keep(all[i]) && Before(all, i, keep) == k
  {
    var first := if keep(all[0]) then 1 else 0;
    if k < first {
      i := 0;
    } else {
      var j := KeptFrom(all[1..], k - first, keep);
      i := j + 1;
    }
  }

  /** In particular, what is kept are the elements to keep. */
  lemma KeptElements<T(!new)>(all: seq<T>, kept: seq<T>, keep: T -> bool)
    requires Kept(all, kept, keep)
    ensures forall x :: x in kept <==> x in all && keep(x)
  {
    hide Before;
    forall x ensures x in kept <==> x in all && keep(x) {
      if x in kept {
        var k :| 0 <= k < |kept| && kept[k] == x;
        var i := KeptFrom(all, k, keep);
        assert all[i] == x;
      }
      if x in all && keep(x) {
        var i :| 0 <= i < |all| && all[i] == x;
        assert kept[Before(all, i, keep)] == x;
      }
    }
  }

  // ---------- people, cards and awards ----------

  lemma {:induction false} PeopleKept(people: seq<Person>, blocked: set<int>, keep: Person -> bool)
    requires forall p :: keep(p) <==> p.userId !in blocked
    ensures Kept(people, FilterPeople(people, blocked), keep)
  {
    if people == [] {
      KeptNone(keep);
    } else {
      PeopleKept(people[1..], blocked, keep);
      KeptCons(people[0], people[1..], FilterPeople(people[1..], blocked), keep);
      assert people == [people[0]] + people[1..];
    }
  }

  lemma {:induction false} CardsKept(cards: seq<RecapCard>, blocked: set<int>, keep: RecapCard -> bool)
    requires forall c :: keep(c) <==> c.authorId !in blocked
    ensures Kept(cards, FilterCards(cards, blocked), keep)
  {
    if cards == [] {
      KeptNone(keep);
    } else {
      CardsKept(cards[1..], blocked, keep);
      KeptCons(cards[0], cards[1..], FilterCards(cards[1..], blocked), keep);
      assert cards == [cards[0]] + cards[1..];
    }
  }

  lemma {:induction false} AwardsKept(awards: seq<RecapAward>, blocked: set<int>, keep: RecapAward -> bool)
    requires forall a :: keep(a) <==> a.userId !in blocked
    ensures Kept(awards, FilterAwards(awards, blocked), keep)
  {
    if awards == [] {
      KeptNone(keep);
    } else {
      AwardsKept(awards[1..], blocked, keep);
      KeptCons(awards[0], awards[1..], FilterAwards(awards[1..], blocked), keep);
      assert awards == [awards[0]] + awards[1..];
    }
  }

  // ---------- panels ----------

  /** `shown` is `panel` with the cards and awards of members who are not blocked, in their order. */
  ghost predicate PanelShown(panel: RecapPanel, shown: RecapPanel, blocked: set<int>) {
    && shown.kind == panel.kind && shown.title == panel.title
    && Kept(panel.cards, shown.cards, (c: RecapCard) => c.authorId !in blocked)
    && Kept(panel.awards, shown.awards, (a: RecapAward) => a.userId !in blocked)
  }

  /** Something in the panel is by a member who is not blocked. */
  predicate Worthwhile(panel: RecapPanel, blocked: set<int>) {
    (exists c :: c in panel.cards && c.authorId !in blocked) || exists a :: a in panel.awards && a.userId !in blocked
  }

  /** The panels with anything to show, each after as many as are shown before it, and no other. */
  ghost predicate PanelsView(panels: seq<RecapPanel>, shown: seq<RecapPanel>, blocked: set<int>,
      show: RecapPanel -> bool) {
    && |shown| == Before(panels, |panels|, show)
    && forall i :: 0 <= i < |panels| && show(panels[i]) ==>
         Before(panels, i, show) < |shown| && PanelShown(panels[i], shown[Before(panels, i, show)], blocked)
  }

  lemma PanelIsShown(panel: RecapPanel, blocked: set<int>)
    ensures PanelShown(panel, FilterPanel(panel, blocked), blocked)
    ensures
      var p := FilterPanel(panel, blocked);
      p.cards == [] && p.awards == [] <==> !Worthwhile(panel, blocked)
  {
    hide FilterCards, FilterAwards, Kept;
    var p := FilterPanel(panel, blocked);
    var card, award := (c: RecapCard) => c.authorId !in blocked, (a: RecapAward) => a.userId !in blocked;
    CardsKept(panel.cards, blocked, card);
    AwardsKept(panel.awards, blocked, award);
    KeptElements(panel.cards, p.cards, card);
    KeptElements(panel.awards, p.awards, award);
    if p.cards != [] {
      assert p.cards[0] in p.cards;
    }
    if p.awards != [] {
      assert p.awards[0] in p.awards;
    }
  }

  lemma {:induction false} PanelsShown(panels: seq<RecapPanel>, blocked: set<int>, show: RecapPanel -> bool)
    requires forall p :: show(p) <==> Worthwhile(p, blocked)
    ensures PanelsView(panels, FilterPanels(panels, blocked), blocked, show)
  {
    hide PanelShown, Worthwhile, FilterPanel, Before;
    if panels == [] {
      BeforeNone(panels, show);
    } else {
      var first, rest := panels[0], panels[1..];
      PanelsShown(rest, blocked, show);
      PanelIsShown(first, blocked);
      assert panels == [first] + rest;
      var shown := FilterPanels(panels, blocked);
      BeforeCons(first, rest, |rest|, show);
      BeforeNone(panels, show);
      forall i | 0 <= i < |panels| && show(panels[i])
        ensures Before(panels, i, show) < |shown| && PanelShown(panels[i], shown[Before(panels, i, show)], blocked)
      {
        if i > 0 {
          BeforeCons(first, rest, i - 1, show);
          assert panels[i] == rest[i - 1];
        }
      }
    }
  }

  // ---------- the recap ----------

  /**
   A recap as a member sees it: the people who are not blocked, in order; of each panel that has anything by
   them, that, in order; the posts and posters of those people; and everything else as it was.
   */
  ghost predicate IsViewOf(payload: RecapPayload, seen: RecapPayload, blocked: set<int>) {
    && Kept(payload.people, seen.people, (p: Person) => p.userId !in blocked)
    && PanelsView(payload.panels, seen.panels, blocked, (p: RecapPanel) => Worthwhile(p, blocked))
    && seen.stats.posters == |seen.people| && seen.stats.posts == SumPosts(seen.people)
    && seen == payload.(people := seen.people, panels := seen.panels,
                        stats := payload.stats.(posts := seen.stats.posts, posters := seen.stats.posters))
  }

  lemma ViewOf(payload: RecapPayload, blocked: set<int>)
    requires blocked != {}
    ensures IsViewOf(payload, FilterRecap(payload, blocked), blocked)
  {
    hide FilterPeople, FilterPanels, Kept, PanelsView, SumPosts, Worthwhile;
    PeopleKept(payload.people, blocked, (p: Person) => p.userId !in blocked);
    PanelsShown(payload.panels, blocked, (p: RecapPanel) => Worthwhile(p, blocked));
  }

  /** Nothing of a blocked member is left anywhere in the recap. */
  lemma NothingOfBlocked(payload: RecapPayload, blocked: set<int>)
    ensures
      var seen := FilterRecap(payload, blocked);
      && (forall p :: p in seen.people ==> p.userId !in blocked)
      && (forall i, c :: 0 <= i < |seen.panels| && c in seen.panels[i].cards ==> c.authorId !in blocked)
      && (forall i, a :: 0 <= i < |seen.panels| && a in seen.panels[i].awards ==> a.userId !in blocked)
      && (blocked != {} ==>
            forall i :: 0 <= i < |seen.panels| ==> seen.panels[i].cards != [] || seen.panels[i].awards != [])
  {
    if blocked != {} {
      hide FilterRecap, Kept, Worthwhile, Before;
      ViewOf(payload, blocked);
      var seen := FilterRecap(payload, blocked);
      KeptElements(payload.people, seen.people, (p: Person) => p.userId !in blocked);
      var show := (p: RecapPanel) => Worthwhile(p, blocked);
      forall i | 0 <= i < |seen.panels|
        ensures forall c :: c in seen.panels[i].cards ==> c.authorId !in blocked
        ensures forall a :: a in seen.panels[i].awards ==> a.userId !in blocked
        ensures seen.panels[i].cards != [] || seen.panels[i].awards != []
      {
        var k := KeptFrom(payload.panels, i, show);
        PanelLeft(payload.panels[k], seen.panels[i], blocked);
      }
    }
  }

  lemma PanelLeft(panel: RecapPanel, shown: RecapPanel, blocked: set<int>)
    requires PanelShown(panel, shown, blocked) && Worthwhile(panel, blocked)
    ensures forall c :: c in shown.cards ==> c.authorId !in blocked
    ensures forall a :: a in shown.awards ==> a.userId !in blocked
    ensures shown.cards != [] || shown.awards != []
  {
    hide Kept;
    KeptElements(panel.cards, shown.cards, (c: RecapCard) => c.authorId !in blocked);
    KeptElements(panel.awards, shown.awards, (a: RecapAward) => a.userId !in blocked);
  }
}
