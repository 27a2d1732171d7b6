/** Titles: each member is named for the one superlative they rank best in. */
module RecapAwards {
  import opened Wrappers
  import opened Sorting

  /** The superlatives, in the order they are judged. */
  const AWARDS: seq<string> :=
    ["most_liked", "night_owl", "early_bird", "most_travelled", "chatterbox", "biggest_fan", "quiet_achiever",
     "most_tagged", "longest_thread"]

  datatype AwardEntry = AwardEntry(qualifies: bool, value: int, display: string, postId: int, mediaId: Option<int>)

  /** One member's showing, an entry for each superlative. */
  datatype AwardCandidate = AwardCandidate(
    userId: int, userName: string, userPhotoId: Option<int>, entries: seq<AwardEntry>)

  type Member = c: AwardCandidate | |c.entries| == 9
    witness AwardCandidate(0, "", None, seq(9, _ => AwardEntry(false, 0, "", 0, None)))

  type AwardIndex = t: nat | t < 9

  predicate Qualifies(c: Member, t: AwardIndex) {
    c.entries[t].qualifies
  }

  function UserOf(c: Member): int {
    c.userId
  }

  ghost predicate DistinctMembers(cands: seq<Member>) {
    DistinctBy(cands, UserOf)
  }

  /** A higher value, then the smaller user id. */
  predicate Ahead(t: AwardIndex, a: Member, b: Member) {
    if a.entries[t].value != b.entries[t].value then a.entries[t].value > b.entries[t].value else a.userId < b.userId
  }

  // ---------- what a rank means ----------

  /** The members ahead of `c` for an award. */
  ghost function Rivals(cands: set<Member>, t: AwardIndex, c: Member): set<Member> {
    set d | d in cands && Qualifies(d, t) && Ahead(t, d, c)
  }

  ghost function Rank(cands: set<Member>, t: AwardIndex, c: Member): nat {
    |Rivals(cands, t, c)|
  }

  /** The award a member ranks best in, the first of them in judging order. */
  ghost predicate IsBest(cands: set<Member>, c: Member, t: AwardIndex) {
    && Qualifies(c, t)
    && (forall u: AwardIndex :: Qualifies(c, u) ==> Rank(cands, t, c) <= Rank(cands, u, c))
    && (forall u: AwardIndex :: u < t && Qualifies(c, u) ==> Rank(cands, t, c) < Rank(cands, u, c))
  }

  lemma BestUnique(cands: set<Member>, c: Member, t: AwardIndex, u: AwardIndex)
    requires IsBest(cands, c, t) && IsBest(cands, c, u)
    ensures t == u
  {
    hide Rank;
  }

  ghost function Members(cands: seq<Member>): set<Member> {
    set c | c in cands
  }

  /** Being ahead adds rivals: two members share no rank. */
  lemma RanksDiffer(cands: set<Member>, t: AwardIndex, a: Member, b: Member)
    requires a in cands && b in cands && Qualifies(a, t) && Ahead(t, a, b)
    ensures Rank(cands, t, a) < Rank(cands, t, b)
  {
    var x, y := Rivals(cands, t, a), Rivals(cands, t, b);
    assert x <= y && a in y && a !in x;
    SubsetSmaller(x, y, a);
  }

  /** The first of an award has the highest value of those who qualify. */
  lemma FirstHasMost(cands: set<Member>, t: AwardIndex, c: Member, d: Member)
    requires d in cands && Qualifies(d, t) && Rank(cands, t, c) == 0
    ensures d.entries[t].value <= c.entries[t].value
  {
    assert d !in Rivals(cands, t, c);
  }

  // ---------- ranking ----------

  ghost predicate Listed(sorted: seq<Member>, t: AwardIndex, cands: seq<Member>) {
    forall c :: c in sorted <==> c in cands && Qualifies(c, t)
  }

  lemma {:induction false} SizeOf(s: seq<Member>)
    requires Distinct(s)
    ensures |Members(s)| == |s|
  {
    if s != [] {
      var init, last := s[..|s| - 1], s[|s| - 1];
      SizeOf(init);
      assert s == init + [last];
      assert Members(s) == Members(init) + {last};
    }
  }

  /** The place of a member in the sorted list is the number of members ahead. */
  lemma PlaceIsRank(sorted: seq<Member>, t: AwardIndex, cands: seq<Member>, i: nat)
    requires DistinctBy(sorted, UserOf) && Listed(sorted, t, cands) && i < |sorted|
    requires forall j, k :: 0 <= j < k < |sorted| ==> Ahead(t, sorted[j], sorted[k])
    ensures Rank(Members(cands), t, sorted[i]) == i
  {
    var before := sorted[..i];
    assert Distinct(before) by {
      forall j, k | 0 <= j < k < i ensures before[j] != before[k] {
        assert UserOf(sorted[j]) != UserOf(sorted[k]);
      }
    }
    SizeOf(before);
    var rivals := Rivals(Members(cands), t, sorted[i]);
    forall d ensures d in rivals <==> d in before {
      if d in before {
        var j :| 0 <= j < i && sorted[j] == d;
        assert d in sorted;
      }
      if d in rivals {
        assert d in sorted;
        var j :| 0 <= j < |sorted| && sorted[j] == d;
        assert !(i < j) || Ahead(t, sorted[i], sorted[j]);
      }
    }
    assert rivals == Members(before);
  }

  /** `byUser` ranks the members who qualify for an award. */
  ghost predicate Ranked(byUser: map<int, nat>, cands: seq<Member>, t: AwardIndex) {
    && (forall c :: c in cands ==> (c.userId in byUser <==> Qualifies(c, t)))
    && (forall c :: c in cands && Qualifies(c, t) ==> byUser[c.userId] == Rank(Members(cands), t, c))
  }

  method Qualifying(cands: seq<Member>, t: AwardIndex) returns (qualifying: seq<Member>)
    requires DistinctMembers(cands)
    ensures Listed(qualifying, t, cands) && DistinctMembers(qualifying)
  {
    qualifying := [];
    for i := 0 to |cands|
      invariant Listed(qualifying, t, cands[..i]) && DistinctMembers(qualifying)
    {
      assert cands[..i + 1] == cands[..i] + [cands[i]];
      NewMember(cands, i, qualifying);
      if Qualifies(cands[i], t) {
        qualifying := qualifying + [cands[i]];
      }
    }
    assert cands[..|cands|] == cands;
  }

  lemma NewMember(cands: seq<Member>, i: nat, found: seq<Member>)
    requires DistinctMembers(cands) && i < |cands| && forall c :: c in found ==> c in cands[..i]
    ensures forall j :: 0 <= j < |found| ==> UserOf(found[j]) != UserOf(cands[i])
  {
    forall j | 0 <= j < |found| ensures UserOf(found[j]) != UserOf(cands[i]) {
      assert found[j] in cands[..i];
      var k :| 0 <= k < i && cands[k] == found[j];
      assert UserOf(cands[k]) != UserOf(cands[i]);
    }
  }

  /** The body of `awardRankings` for one award. */
  method RankAward(cands: seq<Member>, t: AwardIndex) returns (byUser: map<int, nat>)
    requires DistinctMembers(cands)
    ensures Ranked(byUser, cands, t)
  {
    hide Rank, WeakOrder, Sorted, DistinctBy, Listed, DistinctMembers;
    var qualifying := Qualifying(cands, t);
    var less := (a: Member, b: Member) => Ahead(t, a, b);
    var sorted := SortSlice(qualifying, less);
    SortedQualifiers(qualifying, sorted, cands, t, less);
    byUser := map[];
    for i := 0 to |sorted|
      invariant forall u :: u in byUser <==> exists j :: 0 <= j < i && sorted[j].userId == u
      invariant forall j :: 0 <= j < i ==> byUser[sorted[j].userId] == j
    {
      byUser := byUser[sorted[i].userId := i];
    }
    RanksComplete(sorted, cands, t, byUser);
  }

  lemma SortedQualifiers(qualifying: seq<Member>, sorted: seq<Member>, cands: seq<Member>, t: AwardIndex,
                         less: (Member, Member) -> bool)
    requires Listed(qualifying, t, cands) && DistinctMembers(qualifying)
    requires multiset(sorted) == multiset(qualifying) && Sorted(sorted, less)
    requires forall a, b :: less(a, b) <==> Ahead(t, a, b)
    ensures Listed(sorted, t, cands) && DistinctMembers(sorted)
    ensures forall j, k :: 0 <= j < k < |sorted| ==>
              Ahead(t, sorted[j], sorted[k]) && sorted[j].userId != sorted[k].userId
  {
    SameElements(qualifying, sorted);
    DistinctByPermutation(qualifying, sorted, UserOf);
    forall j, k | 0 <= j < k < |sorted|
      ensures Ahead(t, sorted[j], sorted[k]) && sorted[j].userId != sorted[k].userId
    {
      assert !less(sorted[k], sorted[j]) && UserOf(sorted[j]) != UserOf(sorted[k]);
    }
  }

  lemma RanksComplete(sorted: seq<Member>, cands: seq<Member>, t: AwardIndex, byUser: map<int, nat>)
    requires DistinctMembers(cands) && DistinctMembers(sorted) && Listed(sorted, t, cands)
    requires forall j, k :: 0 <= j < k < |sorted| ==> Ahead(t, sorted[j], sorted[k])
    requires forall u :: u in byUser <==> exists j :: 0 <= j < |sorted| && sorted[j].userId == u
    requires forall j :: 0 <= j < |sorted| ==> byUser[sorted[j].userId] == j
    ensures Ranked(byUser, cands, t)
  {
    hide Rank;
    forall c | c in cands
      ensures c.userId in byUser <==> Qualifies(c, t)
      ensures Qualifies(c, t) ==> byUser[c.userId] == Rank(Members(cands), t, c)
    {
      if Qualifies(c, t) {
        assert c in sorted;
        var j :| 0 <= j < |sorted| && sorted[j] == c;
        PlaceIsRank(sorted, t, cands, j);
      } else if c.userId in byUser {
        var j :| 0 <= j < |sorted| && sorted[j].userId == c.userId;
        assert sorted[j] in sorted;
        SameMember(cands, sorted[j], c);
      }
    }
  }

  lemma SameMember(cands: seq<Member>, a: Member, b: Member)
    requires DistinctMembers(cands) && a in cands && b in cands && UserOf(a) == UserOf(b)
    ensures a == b
  {
    var i :| 0 <= i < |cands| && cands[i] == a;
    var j :| 0 <= j < |cands| && cands[j] == b;
  }

  /** `awardRankings`: the ranks of every award, in judging order. */
  method AwardRankings(cands: seq<Member>) returns (rankOf: seq<map<int, nat>>)
    requires DistinctMembers(cands)
    ensures |rankOf| == 9 && forall t: AwardIndex :: Ranked(rankOf[t], cands, t)
  {
    hide Ranked, DistinctMembers;
    rankOf := [];
    for t := 0 to 9
      invariant |rankOf| == t && forall u: AwardIndex :: u < t ==> Ranked(rankOf[u], cands, u)
    {
      var byUser := RankAward(cands, t);
      rankOf := rankOf + [byUser];
    }
  }

  /** The best of the awards before `t`, if any. */
  ghost predicate BestSoFar(cands: set<Member>, c: Member, t: nat, best: Option<nat>, rank: nat)
    requires t <= 9
  {
    match best
    case None => forall u: AwardIndex :: u < t ==> !Qualifies(c, u)
    case Some(b) =>
      && b < t && Qualifies(c, b) && rank == Rank(cands, b, c)
      && (forall u: AwardIndex :: u < t && Qualifies(c, u) ==> rank <= Rank(cands, u, c))
      && (forall u: AwardIndex :: u < b && Qualifies(c, u) ==> rank < Rank(cands, u, c))
  }

  method BestAward(cands: seq<Member>, c: Member, rankOf: seq<map<int, nat>>) returns (best: Option<nat>)
    requires c in cands && |rankOf| == 9 && forall t: AwardIndex :: Ranked(rankOf[t], cands, t)
    ensures best.None? <==> forall t: AwardIndex :: !Qualifies(c, t)
    ensures best.Some? ==> best.value < 9 && IsBest(Members(cands), c, best.value)
  {
    hide Rank, Qualifies;
    best := None;
    var bestRank := 0;
    for t := 0 to 9
      invariant BestSoFar(Members(cands), c, t, best, bestRank)
    {
      var byUser := rankOf[t];
      assert Ranked(byUser, cands, t);
      if c.userId in byUser {
        var r := byUser[c.userId];
        if best == None || r < bestRank {
          best, bestRank := Some(t), r;
        }
      }
    }
  }

  /** A member who qualifies for something is named for the award they rank best in; no one else is named. */
  ghost predicate Titled(cands: set<Member>, c: Member, out: map<int, string>) {
    && (c.userId in out <==> exists t: AwardIndex :: Qualifies(c, t))
    && (forall t: AwardIndex :: IsBest(cands, c, t) ==> c.userId in out && out[c.userId] == AWARDS[t])
  }

  method BestAwardPerMember(cands: seq<Member>) returns (out: map<int, string>)
    requires DistinctMembers(cands)
    ensures forall c :: c in cands ==> Titled(Members(cands), c, out)
    ensures forall u :: u in out ==> exists c :: c in cands && c.userId == u
  {
    hide Ranked, DistinctMembers, IsBest, Qualifies;
    out := map[];
    var rankOf := AwardRankings(cands);
    for i := 0 to |cands|
      invariant forall u :: u in out ==> exists c :: c in cands[..i] && c.userId == u
      invariant forall c :: c in cands[..i] ==> Titled(Members(cands), c, out)
    {
      var c := cands[i];
      assert cands[..i + 1] == cands[..i] + [c];
      var best := BestAward(cands, c, rankOf);
      NotYetTitled(cands, i, out);
      TitleOne(Members(cands), c, best, out);
      if best.Some? {
        out := out[c.userId := AWARDS[best.value]];
      }
    }
    assert cands[..|cands|] == cands;
  }

  lemma NotYetTitled(cands: seq<Member>, i: nat, out: map<int, string>)
    requires DistinctMembers(cands) && i < |cands|
    requires forall u :: u in out ==> exists c :: c in cands[..i] && c.userId == u
    ensures cands[i].userId !in out
    ensures forall c :: c in cands[..i] ==> c.userId != cands[i].userId
  {
    forall c | c in cands[..i] ensures c.userId != cands[i].userId {
      var k :| 0 <= k < i && cands[k] == c;
      assert UserOf(cands[k]) != UserOf(cands[i]);
    }
  }

  lemma TitleOne(cands: set<Member>, c: Member, best: Option<nat>, out: map<int, string>)
    requires c.userId !in out
    requires best.None? <==> forall t: AwardIndex :: !Qualifies(c, t)
    requires best.Some? ==> best.value < 9 && IsBest(cands, c, best.value)
    ensures Titled(cands, c, if best.Some? then out[c.userId := AWARDS[best.value]] else out)
  {
    hide Rank;
    if best.Some? {
      forall t: AwardIndex | IsBest(cands, c, t) ensures t == best.value {
        BestUnique(cands, c, t, best.value);
      }
    }
  }
}
