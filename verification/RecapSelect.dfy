/**
 The Wall panel of a recap: which posts it shows, and the proof that no fair choice of posts is better.

 Posts are listed best first. A choice of posts is an increasing list of positions in that ranking, so
 the `i`-th best post of a choice is the post at its `i`-th position.
 */
module RecapSelect {
  import opened Wrappers
  import opened Sorting

  /** The attachment of a post; a post without one is a quote card. */
  datatype Media = Media(id: int, mime: string, width: int, height: int, durationMs: int, hasPoster: bool)

  datatype Candidate = Candidate(
    postId: int, authorId: int, authorName: string, authorPhotoId: Option<int>, body: string,
    media: Option<Media>, location: string, likeCount: int, commentCount: int, createdAt: int)

  datatype CardKind = Quote | Photo | Clip

  datatype RecapCard = RecapCard(
    rank: nat, guaranteed: bool, kind: CardKind, postId: int, authorId: int, authorName: string,
    authorPhotoId: Option<int>, likeCount: int, commentCount: int, location: string, body: string, media: Option<Media>)

  datatype Cadence = Weekly | Monthly | Custom

  /** 12 cards, or 20 in a month; at least one for each member, and never more than 40. */
  function CollageCardCap(cadence: Cadence, memberCount: int): (n: nat)
    ensures memberCount >= 40 ==> n == 40
    ensures cadence == Monthly && memberCount <= 20 ==> n == 20
    ensures cadence != Monthly && memberCount <= 12 ==> n == 12
    ensures (if cadence == Monthly then 20 else 12) <= memberCount <= 40 ==> n == memberCount
  {
    var base := if cadence == Monthly then 20 else 12;
    var n := if memberCount > base then memberCount else base;
    if n > 40 then 40 else n
  }

  /** More likes, then more comments, then the earlier post, then the smaller id. */
  predicate Outranks(a: Candidate, b: Candidate) {
    if a.likeCount != b.likeCount then a.likeCount > b.likeCount
    else if a.commentCount != b.commentCount then a.commentCount > b.commentCount
    else if a.createdAt != b.createdAt then a.createdAt < b.createdAt
    else a.postId < b.postId
  }

  lemma OutranksIsOrder()
    ensures WeakOrder(Outranks)
  {
  }

  function PostIdOf(c: Candidate): int {
    c.postId
  }

  ghost predicate DistinctPosts(s: seq<Candidate>) {
    DistinctBy(s, PostIdOf)
  }

  /** The candidates, best first. */
  ghost predicate Ranking(candidates: seq<Candidate>, ranked: seq<Candidate>) {
    multiset(ranked) == multiset(candidates) && StrictlySorted(ranked, Outranks)
  }

  // ---------- standings ----------

  /** How many of the first `t` posts are by `author`. */
  function CountBy(ranked: seq<Candidate>, t: nat, author: int): nat
    requires t <= |ranked|
  {
    if t == 0 then 0
    else CountBy(ranked, t - 1, author) + if ranked[t - 1].authorId == author then 1 else 0
  }

  /** How many posts of its own author outrank the post at position `i`: 0 for the author's best post. */
  function Standing(ranked: seq<Candidate>, i: nat): nat
    requires i < |ranked|
  {
    CountBy(ranked, i, ranked[i].authorId)
  }

  /** The authors' best posts among the first `t`. */
  function Bests(ranked: seq<Candidate>, t: nat): (p: seq<nat>)
    requires t <= |ranked|
    ensures Increasing(p, t)
    ensures forall i :: i in p <==> 0 <= i < t && Standing(ranked, i) == 0
  {
    if t == 0 then []
    else if Standing(ranked, t - 1) == 0 then Bests(ranked, t - 1) + [t - 1]
    else Bests(ranked, t - 1)
  }

  /** The authors' second and third best posts among the first `t`. */
  function Fills(ranked: seq<Candidate>, t: nat): (p: seq<nat>)
    requires t <= |ranked|
    ensures Increasing(p, t)
    ensures forall i :: i in p <==> 0 <= i < t && 1 <= Standing(ranked, i) <= 2
  {
    if t == 0 then []
    else if 1 <= Standing(ranked, t - 1) <= 2 then Fills(ranked, t - 1) + [t - 1]
    else Fills(ranked, t - 1)
  }

  predicate Increasing(p: seq<nat>, bound: nat) {
    Within(p, bound) && Ascending(p)
  }

  predicate Within(p: seq<nat>, bound: nat) {
    forall i :: 0 <= i < |p| ==> p[i] < bound
  }

  predicate Ascending(p: seq<nat>) {
    forall i, j :: 0 <= i < j < |p| ==> p[i] < p[j]
  }

  /** The best posts, and the first `room` of the second and third best ones. */
  function Picks(ranked: seq<Candidate>, t: nat, room: nat): (p: seq<nat>)
    requires t <= |ranked|
    ensures Increasing(p, t)
  {
    if t == 0 then []
    else if Picked(ranked, t - 1, room) then Picks(ranked, t - 1, room) + [t - 1]
    else Picks(ranked, t - 1, room)
  }

  /** Does the Wall show the post at position `i`? */
  predicate Picked(ranked: seq<Candidate>, i: nat, room: nat)
    requires i < |ranked|
  {
    var standing := Standing(ranked, i);
    standing == 0 || (standing <= 2 && |Fills(ranked, i)| < room)
  }

  lemma {:induction false} PicksSize(ranked: seq<Candidate>, t: nat, room: nat)
    requires t <= |ranked|
    ensures |Picks(ranked, t, room)| == |Bests(ranked, t)| + Min(room, |Fills(ranked, t)|)
  {
    hide Standing, Increasing;
    if t > 0 {
      PicksSize(ranked, t - 1, room);
    }
  }

  lemma {:induction false} PicksStanding(ranked: seq<Candidate>, t: nat, room: nat)
    requires t <= |ranked|
    ensures forall i :: i in Picks(ranked, t, room) ==> 0 <= i < t && Standing(ranked, i) <= 2
  {
    hide Standing, Increasing;
    if t > 0 {
      PicksStanding(ranked, t - 1, room);
    }
  }

  function Min(a: int, b: int): int {
    if a < b then a else b
  }

  /** What is left of the limit when every author has one post. */
  function Room(ranked: seq<Candidate>, limit: nat): nat {
    var bests := |Bests(ranked, |ranked|)|;
    if bests < limit then limit - bests else 0
  }

  /** The positions the Wall shows, best first. */
  function Chosen(ranked: seq<Candidate>, limit: nat): (p: seq<nat>)
    ensures Increasing(p, |ranked|) && |p| <= limit
  {
    var p := Picks(ranked, |ranked|, Room(ranked, limit));
    if |p| > limit then p[..limit] else p
  }

  function At(ranked: seq<Candidate>, p: seq<nat>): (s: seq<Candidate>)
    requires Within(p, |ranked|)
  {
    seq(|p|, i requires 0 <= i < |p| => ranked[p[i]])
  }

  // ---------- no fair choice is better ----------

  /** The positions of a choice that hold posts of one author. */
  ghost function ByAuthor(ranked: seq<Candidate>, s: set<nat>, author: int): set<nat> {
    set i | i in s && i < |ranked| && ranked[i].authorId == author
  }

  ghost function Elements(p: seq<nat>): set<nat> {
    set i | i in p
  }

  /** A choice within the limit that shows every author's best post, and no author more than three times. */
  ghost predicate Fair(ranked: seq<Candidate>, limit: nat, p: seq<nat>) {
    && Increasing(p, |ranked|) && |p| <= limit
    && (forall i :: 0 <= i < |ranked| && Standing(ranked, i) == 0 ==> i in p)
    && (forall a :: |ByAuthor(ranked, Elements(p), a)| <= 3)
  }

  lemma {:induction false} ElementsSize(p: seq<nat>, bound: nat)
    requires Increasing(p, bound)
    ensures |Elements(p)| == |p|
  {
    if p != [] {
      var q, last := p[..|p| - 1], p[|p| - 1];
      ElementsSize(q, bound);
      assert p == q + [last];
      assert last !in q;
      assert Elements(p) == Elements(q) + {last};
    }
  }

  lemma SubsetSize(a: set<nat>, b: set<nat>)
    requires a <= b
    ensures |a| <= |b|
  {
    assert b == a + (b - a);
  }

  /** If no author has more positions in `x` than in `y`, then `x` is not larger than `y`. */
  lemma {:induction false} CompareByAuthor(ranked: seq<Candidate>, x: set<nat>, y: set<nat>)
    requires (forall i :: i in x ==> i < |ranked|) && (forall i :: i in y ==> i < |ranked|)
    requires forall a :: |ByAuthor(ranked, x, a)| <= |ByAuthor(ranked, y, a)|
    ensures |x| <= |y|
    decreases |x|
  {
    if x != {} {
      var i :| i in x;
      var a := ranked[i].authorId;
      var x', y' := x - ByAuthor(ranked, x, a), y - ByAuthor(ranked, y, a);
      forall b ensures |ByAuthor(ranked, x', b)| <= |ByAuthor(ranked, y', b)| {
        if b == a {
          assert ByAuthor(ranked, x', b) == {};
        } else {
          assert ByAuthor(ranked, x', b) == ByAuthor(ranked, x, b);
          assert ByAuthor(ranked, y', b) == ByAuthor(ranked, y, b);
        }
      }
      assert i in ByAuthor(ranked, x, a);
      CompareByAuthor(ranked, x', y');
      assert x == x' + ByAuthor(ranked, x, a) && y == y' + ByAuthor(ranked, y, a);
    }
  }

  ghost function Lower(ranked: seq<Candidate>, t: nat, author: int): set<nat>
    requires t <= |ranked|
  {
    set i: nat | 0 <= i < t && ranked[i].authorId == author && Standing(ranked, i) >= 1
  }

  lemma {:induction false} LowerSize(ranked: seq<Candidate>, t: nat, author: int)
    requires t <= |ranked|
    ensures |Lower(ranked, t, author)| == if CountBy(ranked, t, author) == 0 then 0 else CountBy(ranked, t, author) - 1
  {
    if t == 0 {
      assert Lower(ranked, t, author) == {};
    } else {
      LowerSize(ranked, t - 1, author);
      LowerStep(ranked, t, author);
    }
  }

  lemma LowerStep(ranked: seq<Candidate>, t: nat, author: int)
    requires 0 < t <= |ranked|
    ensures |Lower(ranked, t, author)| == |Lower(ranked, t - 1, author)|
         + if ranked[t - 1].authorId == author && Standing(ranked, t - 1) >= 1 then 1 else 0
  {
    hide Standing;
    var last := t - 1;
    if ranked[last].authorId == author && Standing(ranked, last) >= 1 {
      assert Lower(ranked, t, author) == Lower(ranked, t - 1, author) + {last};
    } else {
      assert Lower(ranked, t, author) == Lower(ranked, t - 1, author);
    }
  }

  lemma {:induction false} FillSize(ranked: seq<Candidate>, t: nat, author: int)
    requires t <= |ranked|
    ensures |ByAuthor(ranked, Elements(Fills(ranked, t)), author)|
         == if CountBy(ranked, t, author) == 0 then 0 else Min(2, CountBy(ranked, t, author) - 1)
  {
    hide Increasing, Elements;
    if t == 0 {
      FillsEmpty(ranked, author);
    } else {
      hide ByAuthor, Fills;
      FillSize(ranked, t - 1, author);
      FillStep(ranked, t, author);
    }
  }

  lemma {:induction false} FillsEmpty(ranked: seq<Candidate>, author: int)
    ensures ByAuthor(ranked, Elements(Fills(ranked, 0)), author) == {}
  {
  }

  lemma FillStep(ranked: seq<Candidate>, t: nat, author: int)
    requires 0 < t <= |ranked|
    ensures
      var was := ByAuthor(ranked, Elements(Fills(ranked, t - 1)), author);
      var now := ByAuthor(ranked, Elements(Fills(ranked, t)), author);
      |now| == |was| + if ranked[t - 1].authorId == author && 1 <= Standing(ranked, t - 1) <= 2 then 1 else 0
  {
    hide Standing, Increasing;
    var last := t - 1;
    var was := ByAuthor(ranked, Elements(Fills(ranked, last)), author);
    var now := ByAuthor(ranked, Elements(Fills(ranked, t)), author);
    assert last !in was;
    if ranked[last].authorId == author && 1 <= Standing(ranked, last) <= 2 {
      assert now == was + {last};
    } else {
      assert now == was;
    }
  }

  /** Among the first `t` posts, a fair choice holds no more second-rate posts than there are fills. */
  lemma {:induction false} FairFills(ranked: seq<Candidate>, limit: nat, rival: seq<nat>, t: nat, x: set<nat>)
    requires Fair(ranked, limit, rival) && t <= |ranked|
    requires x == set i | i in rival && i < t && Standing(ranked, i) >= 1
    ensures |x| <= |Fills(ranked, t)|
  {
    var y := Elements(Fills(ranked, t));
    forall a ensures |ByAuthor(ranked, x, a)| <= |ByAuthor(ranked, y, a)| {
      FairFillsBy(ranked, limit, rival, t, x, a);
    }
    CompareByAuthor(ranked, x, y);
    ElementsSize(Fills(ranked, t), t);
  }

  lemma {:induction false} FairFillsBy(ranked: seq<Candidate>, limit: nat, rival: seq<nat>, t: nat, x: set<nat>, a: int)
    requires Fair(ranked, limit, rival) && t <= |ranked|
    requires x == set i | i in rival && i < t && Standing(ranked, i) >= 1
    ensures |ByAuthor(ranked, x, a)| <= |ByAuthor(ranked, Elements(Fills(ranked, t)), a)|
  {
    hide Increasing, CountBy;
    LowerSize(ranked, t, a);
    FillSize(ranked, t, a);
    var xa := ByAuthor(ranked, x, a);
    SubsetSize(xa, Lower(ranked, t, a));
    if i :| i in xa {
      var b := FirstBy(ranked, i, a);
      var all := ByAuthor(ranked, Elements(rival), a);
      assert b in all && b !in xa;
      SubsetSize(xa + {b}, all);
    }
  }

  /** The best post of an author who has a post. */
  lemma {:induction false} FirstBy(ranked: seq<Candidate>, i: nat, author: int) returns (b: nat)
    requires i < |ranked| && ranked[i].authorId == author
    ensures b <= i && ranked[b].authorId == author && Standing(ranked, b) == 0
  {
    if Standing(ranked, i) == 0 {
      b := i;
    } else {
      var j := PostBy(ranked, i, author);
      b := FirstBy(ranked, j, author);
    }
  }

  lemma {:induction false} PostBy(ranked: seq<Candidate>, t: nat, author: int) returns (j: nat)
    requires t <= |ranked| && CountBy(ranked, t, author) > 0
    ensures j < t && ranked[j].authorId == author
  {
    if ranked[t - 1].authorId == author {
      j := t - 1;
    } else {
      j := PostBy(ranked, t - 1, author);
    }
  }

  /** Among the first `t` posts, a fair choice holds no more than the Wall does. */
  lemma {:induction false} FairPrefix(ranked: seq<Candidate>, limit: nat, rival: seq<nat>, j: nat, t: nat)
    requires Fair(ranked, limit, rival) && j < |rival| && t == rival[j] + 1
    ensures |Bests(ranked, |ranked|)| <= limit
    ensures j + 1 <= |Picks(ranked, t, Room(ranked, limit))|
  {
    hide Standing, Bests, Fills, Fair;
    var low := FairParts(ranked, limit, rival);
    var x := set i | i in rival && i < t && Standing(ranked, i) >= 1;
    FairFills(ranked, limit, rival, t, x);
    SubsetSize(x, low);
    FairPrefixParts(ranked, rival, j, t, x);
    PicksSize(ranked, t, Room(ranked, limit));
  }

  /** A fair choice is the best posts, and at most `Room` others. */
  lemma FairParts(ranked: seq<Candidate>, limit: nat, rival: seq<nat>) returns (low: set<nat>)
    requires Fair(ranked, limit, rival)
    ensures Increasing(rival, |ranked|) && |rival| <= limit
    ensures low == set i | i in rival && Standing(ranked, i) >= 1
    ensures |Bests(ranked, |ranked|)| <= limit && |low| <= Room(ranked, limit)
  {
    hide Standing;
    var n := |ranked|;
    low := set i | i in rival && Standing(ranked, i) >= 1;
    var bests := Elements(Bests(ranked, n));
    ElementsSize(rival, n);
    ElementsSize(Bests(ranked, n), n);
    assert Elements(rival) == low + bests;
  }

  lemma {:induction false} FairPrefixParts(ranked: seq<Candidate>, rival: seq<nat>, j: nat, t: nat, x: set<nat>)
    requires Increasing(rival, |ranked|) && j < |rival| && t == rival[j] + 1
    requires x == set i | i in rival && i < t && Standing(ranked, i) >= 1
    ensures j + 1 <= |x| + |Bests(ranked, t)|
  {
    hide Standing;
    var y := Elements(Bests(ranked, t));
    var prefix := rival[..j + 1];
    ElementsSize(Bests(ranked, t), t);
    ElementsSize(prefix, t);
    forall i | i in Elements(prefix) ensures i in x + y {
      assert i in rival && i < t;
    }
    SubsetSize(Elements(prefix), x + y);
  }

  /** The Wall's first positions do not depend on what comes later. */
  lemma {:induction false} PicksPrefix(ranked: seq<Candidate>, t: nat, u: nat, room: nat)
    requires t <= u <= |ranked|
    ensures Picks(ranked, t, room) <= Picks(ranked, u, room)
    decreases u
  {
    hide Increasing, Picked;
    if t < u {
      PicksPrefix(ranked, t, u - 1, room);
    }
  }

  /**
   When every author fits, the Wall is fair, and best: against any other fair choice it shows at
   least as many posts, and its i-th post is the rival's i-th post or outranks it.
   */
  lemma ChosenDominates(ranked: seq<Candidate>, limit: nat, rival: seq<nat>)
    requires Fair(ranked, limit, rival)
    ensures |rival| <= |Chosen(ranked, limit)|
    ensures forall j :: 0 <= j < |rival| ==> Chosen(ranked, limit)[j] <= rival[j]
  {
    hide Fair, Bests, Fills, Standing, Increasing;
    var n, room := |ranked|, Room(ranked, limit);
    var picks := Picks(ranked, n, room);
    var _ := FairParts(ranked, limit, rival);
    forall j | 0 <= j < |rival|
      ensures j < |picks| && picks[j] <= rival[j]
    {
      PickBeats(ranked, limit, rival, j);
    }
    PicksSize(ranked, n, room);
    if rival != [] {
      PickBeats(ranked, limit, rival, |rival| - 1);
    }
  }

  lemma {:induction false} PickBeats(ranked: seq<Candidate>, limit: nat, rival: seq<nat>, j: nat)
    requires Fair(ranked, limit, rival) && j < |rival|
    ensures
      var picks := Picks(ranked, |ranked|, Room(ranked, limit));
      j < |picks| && picks[j] <= rival[j]
  {
    hide Fair, Bests, Fills, Standing, Room;
    var _ := FairParts(ranked, limit, rival);
    var room := Room(ranked, limit);
    var t := rival[j] + 1;
    FairPrefix(ranked, limit, rival, j, t);
    PicksPrefix(ranked, t, |ranked|, room);
    assert Picks(ranked, |ranked|, room)[j] == Picks(ranked, t, room)[j];
  }

  /** The posts that are among the three best of their author: as many as the Wall could ever show. */
  ghost function TopThree(ranked: seq<Candidate>): set<nat> {
    set i: nat | 0 <= i < |ranked| && Standing(ranked, i) < 3
  }

  lemma {:induction false} ChosenIsFair(ranked: seq<Candidate>, limit: nat)
    requires |Bests(ranked, |ranked|)| <= limit
    ensures Fair(ranked, limit, Chosen(ranked, limit))
    ensures |Chosen(ranked, limit)| == Min(limit, |TopThree(ranked)|)
  {
    hide Standing, Fills, Bests, ByAuthor, TopThree;
    var n := |ranked|;
    var chosen := Chosen(ranked, limit);
    BestsArePicked(ranked, n, Room(ranked, limit));
    PicksSize(ranked, n, Room(ranked, limit));
    PicksStanding(ranked, n, Room(ranked, limit));
    forall a ensures |ByAuthor(ranked, Elements(chosen), a)| <= 3 {
      TopThreeBy(ranked, a, Elements(chosen));
    }
    TopThreeSize(ranked);
  }

  lemma {:induction false} TopThreeSize(ranked: seq<Candidate>)
    ensures |TopThree(ranked)| == |Bests(ranked, |ranked|)| + |Fills(ranked, |ranked|)|
  {
    hide Standing;
    var n := |ranked|;
    var bests, fills := Elements(Bests(ranked, n)), Elements(Fills(ranked, n));
    ElementsSize(Bests(ranked, n), n);
    ElementsSize(Fills(ranked, n), n);
    assert bests !! fills;
    assert TopThree(ranked) == bests + fills;
  }

  /** Each author counts for three of them, or for all their posts if they have fewer. */
  lemma {:induction false} TopThreeOf(ranked: seq<Candidate>, author: int)
    ensures |ByAuthor(ranked, TopThree(ranked), author)| == Min(3, CountBy(ranked, |ranked|, author))
  {
    hide Standing, CountBy;
    var n := |ranked|;
    var top := ByAuthor(ranked, TopThree(ranked), author);
    var fills := ByAuthor(ranked, Elements(Fills(ranked, n)), author);
    var bests := set i | i in top && Standing(ranked, i) == 0;
    FillSize(ranked, n, author);
    assert top - bests == fills;
    BestsBy(ranked, author, bests);
    if CountBy(ranked, n, author) > 0 {
      var j := PostBy(ranked, n, author);
      var b := FirstBy(ranked, j, author);
      assert b in bests;
    } else {
      NoPosts(ranked, n, author, bests);
    }
  }

  lemma {:induction false} NoPosts(ranked: seq<Candidate>, t: nat, author: int, s: set<nat>)
    requires t <= |ranked| && CountBy(ranked, t, author) == 0
    requires forall i :: i in s ==> i < t && ranked[i].authorId == author
    ensures s == {}
  {
    if i :| i in s {
      CountMonotone(ranked, i + 1, t, author);
    }
  }

  lemma {:induction false} BestsArePicked(ranked: seq<Candidate>, t: nat, room: nat)
    requires t <= |ranked|
    ensures forall i :: 0 <= i < t && Standing(ranked, i) == 0 ==> i in Picks(ranked, t, room)
  {
    if t > 0 {
      BestsArePicked(ranked, t - 1, room);
    }
  }

  lemma TopThreeBy(ranked: seq<Candidate>, a: int, x: set<nat>)
    requires forall i :: i in x ==> i < |ranked| && Standing(ranked, i) <= 2
    ensures |ByAuthor(ranked, x, a)| <= 3
  {
    hide Standing, Increasing, CountBy;
    var fills := ByAuthor(ranked, Elements(Fills(ranked, |ranked|)), a);
    FillSize(ranked, |ranked|, a);
    var xa := ByAuthor(ranked, x, a);
    var top := set i | i in xa && Standing(ranked, i) == 0;
    forall i | i in xa - top ensures i in fills {
    }
    hide ByAuthor, Fills;
    SubsetSize(xa - top, fills);
    BestsBy(ranked, a, top);
  }

  lemma BestsBy(ranked: seq<Candidate>, a: int, top: set<nat>)
    requires forall i :: i in top ==> i < |ranked| && ranked[i].authorId == a && Standing(ranked, i) == 0
    ensures |top| <= 1
  {
    hide Standing;
    if i :| i in top {
      forall j | j in top ensures j == i {
        OneBest(ranked, i, j);
      }
      assert top == {i};
    }
  }

  lemma OneBest(ranked: seq<Candidate>, i: nat, j: nat)
    requires i < |ranked| && j < |ranked| && ranked[i].authorId == ranked[j].authorId
    requires Standing(ranked, i) == 0 && Standing(ranked, j) == 0
    ensures i == j
  {
    if i < j {
      CountMonotone(ranked, i + 1, j, ranked[i].authorId);
    } else if j < i {
      CountMonotone(ranked, j + 1, i, ranked[i].authorId);
    }
  }

  lemma {:induction false} CountMonotone(ranked: seq<Candidate>, t: nat, u: nat, author: int)
    requires t <= u <= |ranked|
    ensures CountBy(ranked, t, author) <= CountBy(ranked, u, author)
    decreases u
  {
    if t < u {
      CountMonotone(ranked, t, u - 1, author);
    }
  }

  /** With more authors than cards, the Wall shows the best posts of the authors whose best posts rank highest. */
  lemma {:induction false} ChosenWhenCrowded(ranked: seq<Candidate>, limit: nat)
    requires |Bests(ranked, |ranked|)| > limit
    ensures Chosen(ranked, limit) == Bests(ranked, |ranked|)[..limit]
  {
    PicksWithoutRoom(ranked, |ranked|);
  }

  lemma {:induction false} PicksWithoutRoom(ranked: seq<Candidate>, t: nat)
    requires t <= |ranked|
    ensures Picks(ranked, t, 0) == Bests(ranked, t)
  {
    if t > 0 {
      PicksWithoutRoom(ranked, t - 1);
    }
  }
}

/** The Wall panel as the server builds it: three passes over the ranked posts. */
module RecapWall {
  import opened Sorting
  import opened RecapSelect

  predicate StartsWith(s: string, prefix: string) {
    prefix <= s
  }

  /** A quote card for a post without attachment, else a clip or a photo by its type. */
  function CandidateToCard(c: Candidate, rank: nat, guaranteed: bool): RecapCard {
    var kind := if c.media.None? then Quote else if StartsWith(c.media.value.mime, "video/") then Clip else Photo;
    RecapCard(rank, guaranteed, kind, c.postId, c.authorId, c.authorName, c.authorPhotoId, c.likeCount, c.commentCount,
              c.location, if c.media.None? then c.body else "", c.media)
  }

  /** The cards of a choice: numbered from 1, the authors' best posts marked as guaranteed. */
  function CardsAt(ranked: seq<Candidate>, p: seq<nat>): seq<RecapCard>
    requires Within(p, |ranked|)
  {
    seq(|p|, i requires 0 <= i < |p| => CandidateToCard(ranked[p[i]], i + 1, Standing(ranked, p[i]) == 0))
  }

  lemma AtAppend(ranked: seq<Candidate>, p: seq<nat>, i: nat)
    requires i < |ranked| && Within(p, |ranked|)
    ensures At(ranked, p + [i]) == At(ranked, p) + [ranked[i]]
  {
  }

  // ---------- pass 1: every author's best post ----------

  lemma CountStep(ranked: seq<Candidate>, k: nat, a: int)
    requires k < |ranked|
    ensures CountBy(ranked, k + 1, a) == CountBy(ranked, k, a) + if ranked[k].authorId == a then 1 else 0
  {
  }

  method GuaranteedPosts(ranked: seq<Candidate>) returns (guaranteed: seq<Candidate>)
    ensures guaranteed == At(ranked, Bests(ranked, |ranked|))
  {
    hide CountBy, Ascending, At;
    guaranteed := [];
    var seen: set<int> := {};
    NoneAt(ranked);
    for k := 0 to |ranked|
      invariant guaranteed == At(ranked, Bests(ranked, k))
      invariant forall a :: a in seen <==> CountBy(ranked, k, a) > 0
    {
      var c := ranked[k];
      forall a ensures CountBy(ranked, k + 1, a) == CountBy(ranked, k, a) + if c.authorId == a then 1 else 0 {
        CountStep(ranked, k, a);
      }
      if c.authorId !in seen {
        AtAppend(ranked, Bests(ranked, k), k);
        seen := seen + {c.authorId};
        guaranteed := guaranteed + [c];
      }
    }
  }

  lemma {:induction false} NoneAt(ranked: seq<Candidate>)
    ensures At(ranked, []) == []
    ensures forall a :: CountBy(ranked, 0, a) == 0
  {
  }

  // ---------- pass 2: the fill ----------

  /** How many of an author's fills are among the first `k` posts. */
  function FillsBy(ranked: seq<Candidate>, k: nat, a: int): nat
    requires k <= |ranked|
  {
    var count := CountBy(ranked, k, a);
    if count == 0 then 0 else Min(2, count - 1)
  }

  function Lookup(m: map<int, nat>, a: int): nat {
    if a in m then m[a] else 0
  }

  lemma FillsByStep(ranked: seq<Candidate>, k: nat, a: int)
    requires k < |ranked|
    ensures FillsBy(ranked, k + 1, a)
         == FillsBy(ranked, k, a) + if ranked[k].authorId == a && 1 <= Standing(ranked, k) <= 2 then 1 else 0
    ensures FillsBy(ranked, k, ranked[k].authorId) >= 2 <==> Standing(ranked, k) >= 3
  {
  }

  /** The fill pass after the first `k` posts, with `inSelected` the ids chosen so far. */
  ghost predicate Filled(ranked: seq<Candidate>, k: nat, inSelected: set<int>, fillCount: map<int, nat>)
    requires k <= |ranked|
  {
    && (forall a :: Lookup(fillCount, a) == FillsBy(ranked, k, a))
    && (forall i :: 0 <= i < |ranked| ==>
          (ranked[i].postId in inSelected <==> Standing(ranked, i) == 0 || (i < k && Standing(ranked, i) <= 2)))
  }

  lemma FillSkips(ranked: seq<Candidate>, k: nat, inSelected: set<int>, fillCount: map<int, nat>)
    requires DistinctPosts(ranked) && k < |ranked| && Filled(ranked, k, inSelected, fillCount)
    requires ranked[k].postId in inSelected || Lookup(fillCount, ranked[k].authorId) >= 2
    ensures Standing(ranked, k) == 0 || Standing(ranked, k) >= 3
    ensures Filled(ranked, k + 1, inSelected, fillCount)
  {
    hide CountBy, FillsBy;
    FillsByStep(ranked, k, ranked[k].authorId);
    forall a ensures Lookup(fillCount, a) == FillsBy(ranked, k + 1, a) {
      FillsByStep(ranked, k, a);
    }
  }

  lemma FillTakes(ranked: seq<Candidate>, k: nat, inSelected: set<int>, fillCount: map<int, nat>)
    requires DistinctPosts(ranked) && k < |ranked| && Filled(ranked, k, inSelected, fillCount)
    requires ranked[k].postId !in inSelected && Lookup(fillCount, ranked[k].authorId) < 2
    ensures 1 <= Standing(ranked, k) <= 2
    ensures
      var a := ranked[k].authorId;
      Filled(ranked, k + 1, inSelected + {ranked[k].postId}, fillCount[a := Lookup(fillCount, a) + 1])
  {
    hide CountBy, FillsBy, Standing;
    var a := ranked[k].authorId;
    FillsByStep(ranked, k, a);
    var fillCount' := fillCount[a := Lookup(fillCount, a) + 1];
    forall b ensures Lookup(fillCount', b) == FillsBy(ranked, k + 1, b) {
      FillsByStep(ranked, k, b);
    }
    forall i | 0 <= i < |ranked|
      ensures ranked[i].postId in inSelected + {ranked[k].postId}
         <==> Standing(ranked, i) == 0 || (i < k + 1 && Standing(ranked, i) <= 2)
    {
      if i < k {
        assert PostIdOf(ranked[i]) != PostIdOf(ranked[k]);
      } else if k < i {
        assert PostIdOf(ranked[k]) != PostIdOf(ranked[i]);
      }
    }
  }

  lemma {:induction false} FillBegins(ranked: seq<Candidate>, guaranteed: seq<Candidate>, inSelected: set<int>)
    requires DistinctPosts(ranked) && guaranteed == At(ranked, Bests(ranked, |ranked|))
    requires inSelected == set c | c in guaranteed :: c.postId
    ensures Filled(ranked, 0, inSelected, map[])
    ensures At(ranked, Fills(ranked, 0)) == []
  {
    hide Standing, Ascending;
    var bests := Bests(ranked, |ranked|);
    forall i | 0 <= i < |ranked| ensures ranked[i].postId in inSelected <==> Standing(ranked, i) == 0 {
      if ranked[i].postId in inSelected {
        var j := GuaranteedFrom(ranked, bests, guaranteed, ranked[i].postId);
      }
      if Standing(ranked, i) == 0 {
        assert i in bests;
        var m :| 0 <= m < |bests| && bests[m] == i;
        assert guaranteed[m] == ranked[i];
      }
    }
    assert forall a :: CountBy(ranked, 0, a) == 0;
  }

  lemma GuaranteedFrom(ranked: seq<Candidate>, p: seq<nat>, guaranteed: seq<Candidate>, id: int) returns (j: nat)
    requires Within(p, |ranked|)
    requires guaranteed == At(ranked, p)
    requires exists c :: c in guaranteed && c.postId == id
    ensures j in p && j < |ranked| && ranked[j].postId == id
  {
    var c :| c in guaranteed && c.postId == id;
    var m :| 0 <= m < |guaranteed| && guaranteed[m] == c;
    j := p[m];
  }

  method FillUp(ranked: seq<Candidate>, guaranteed: seq<Candidate>, limit: nat) returns (selected: seq<Candidate>)
    requires DistinctPosts(ranked) && guaranteed == At(ranked, Bests(ranked, |ranked|))
    ensures
      var fills, room := Fills(ranked, |ranked|), Room(ranked, limit);
      selected == guaranteed + At(ranked, fills[..Min(room, |fills|)])
  {
    hide Standing, Ascending, Filled, Fills, At, CountBy, Bests, DistinctPosts;
    selected := guaranteed;
    var inSelected := set c | c in guaranteed :: c.postId;
    var fillCount: map<int, nat> := map[];
    FillBegins(ranked, guaranteed, inSelected);
    FillsStart(ranked);
    GuaranteedSize(ranked, guaranteed);
    var k := 0;
    while k < |ranked|
      invariant k <= |ranked|
      invariant selected == guaranteed + At(ranked, Fills(ranked, k))
      invariant |Fills(ranked, k)| <= Room(ranked, limit)
      invariant |selected| == |guaranteed| + |Fills(ranked, k)|
      invariant Filled(ranked, k, inSelected, fillCount)
    {
      if |selected| >= limit {
        break;
      }
      var c := ranked[k];
      FillsStep(ranked, k);
      if c.postId in inSelected {
        FillSkips(ranked, k, inSelected, fillCount);
      } else if Lookup(fillCount, c.authorId) >= 2 {
        FillSkips(ranked, k, inSelected, fillCount);
      } else {
        FillTakes(ranked, k, inSelected, fillCount);
        AtAppend(ranked, Fills(ranked, k), k);
        assert (guaranteed + At(ranked, Fills(ranked, k))) + [c] == guaranteed + (At(ranked, Fills(ranked, k)) + [c]);
        selected := selected + [c];
        inSelected := inSelected + {c.postId};
        fillCount := fillCount[c.authorId := Lookup(fillCount, c.authorId) + 1];
      }
      k := k + 1;
    }
    FillsPrefix(ranked, k, |ranked|);
    var fills := Fills(ranked, |ranked|);
    assert Fills(ranked, k) == fills[..Min(Room(ranked, limit), |fills|)];
  }

  lemma {:induction false} GuaranteedSize(ranked: seq<Candidate>, guaranteed: seq<Candidate>)
    requires guaranteed == At(ranked, Bests(ranked, |ranked|))
    ensures |guaranteed| == |Bests(ranked, |ranked|)|
  {
  }

  lemma {:induction false} FillsStart(ranked: seq<Candidate>)
    ensures Fills(ranked, 0) == []
  {
  }

  lemma FillsStep(ranked: seq<Candidate>, k: nat)
    requires k < |ranked|
    ensures Fills(ranked, k + 1) == if 1 <= Standing(ranked, k) <= 2 then Fills(ranked, k) + [k] else Fills(ranked, k)
  {
    hide Standing;
  }

  lemma {:induction false} FillsPrefix(ranked: seq<Candidate>, t: nat, u: nat)
    requires t <= u <= |ranked|
    ensures Fills(ranked, t) <= Fills(ranked, u)
    decreases u
  {
    hide Fills;
    if t < u {
      FillsPrefix(ranked, t, u - 1);
      FillsStep(ranked, u - 1);
    }
  }

  // ---------- pass 3: the order ----------

  /** The fills that have room, and the best posts, are the picks. */
  lemma {:induction false} PicksAreFilled(ranked: seq<Candidate>, t: nat, room: nat)
    requires t <= |ranked|
    ensures
      var fills := Fills(ranked, t);
      multiset(At(ranked, Picks(ranked, t, room)))
      == multiset(At(ranked, Bests(ranked, t))) + multiset(At(ranked, fills[..Min(room, |fills|)]))
  {
    hide Standing, Ascending, At;
    if t == 0 {
      NoneAt(ranked);
    } else {
      var last := t - 1;
      PicksAreFilled(ranked, last, room);
      AtAppend(ranked, Picks(ranked, last, room), last);
      AtAppend(ranked, Bests(ranked, last), last);
      var fills := Fills(ranked, last);
      AtAppend(ranked, fills[..Min(room, |fills|)], last);
      TakeFill(fills, last, room);
    }
  }

  lemma TakeFill(fills: seq<nat>, last: nat, room: nat)
    ensures
      var more := fills + [last];
      more[..Min(room, |more|)]
      == if |fills| < room then fills[..Min(room, |fills|)] + [last] else fills[..Min(room, |fills|)]
  {
    if |fills| < room {
      assert fills[..|fills|] == fills;
    }
  }

  lemma PicksSorted(ranked: seq<Candidate>, p: seq<nat>)
    requires StrictlySorted(ranked, Outranks) && Increasing(p, |ranked|)
    ensures StrictlySorted(At(ranked, p), Outranks)
  {
  }

  lemma SortedIsStrict(ranked: seq<Candidate>)
    requires DistinctPosts(ranked) && Sorted(ranked, Outranks)
    ensures StrictlySorted(ranked, Outranks)
  {
    forall i, j | 0 <= i < j < |ranked| ensures Outranks(ranked[i], ranked[j]) {
      assert !Outranks(ranked[j], ranked[i]) && PostIdOf(ranked[i]) != PostIdOf(ranked[j]);
    }
  }

  predicate GuaranteedPost(guaranteed: seq<Candidate>, postId: int) {
    exists c :: c in guaranteed && c.postId == postId
  }

  lemma {:induction false} GuaranteedIff(ranked: seq<Candidate>, guaranteed: seq<Candidate>, i: nat)
    requires DistinctPosts(ranked) && guaranteed == At(ranked, Bests(ranked, |ranked|)) && i < |ranked|
    ensures GuaranteedPost(guaranteed, ranked[i].postId) <==> Standing(ranked, i) == 0
  {
    hide Standing, Ascending;
    var bests := Bests(ranked, |ranked|);
    if GuaranteedPost(guaranteed, ranked[i].postId) {
      var j := GuaranteedFrom(ranked, bests, guaranteed, ranked[i].postId);
    }
    if Standing(ranked, i) == 0 {
      var m :| 0 <= m < |bests| && bests[m] == i;
      assert guaranteed[m] == ranked[i];
    }
  }

  /** The cards of the chosen posts, best first. */
  ghost predicate IsWall(candidates: seq<Candidate>, limit: nat, cards: seq<RecapCard>) {
    exists ranked :: Ranking(candidates, ranked) && cards == CardsAt(ranked, Chosen(ranked, limit))
  }

  /** The set of candidates decides the Wall: the order they are read in does not. */
  lemma WallUnique(candidates: seq<Candidate>, shuffled: seq<Candidate>, limit: nat, a: seq<RecapCard>,
                   b: seq<RecapCard>)
    requires multiset(candidates) == multiset(shuffled)
    requires IsWall(candidates, limit, a) && IsWall(shuffled, limit, b)
    ensures a == b
  {
    hide Chosen, Outranks, CardsAt;
    var x :| Ranking(candidates, x) && a == CardsAt(x, Chosen(x, limit));
    var y :| Ranking(shuffled, y) && b == CardsAt(y, Chosen(y, limit));
    OutranksIsOrder();
    SortedUnique(x, y, Outranks);
  }

  /** The Wall of the posts. */
  method SelectCollageCards(candidates: seq<Candidate>, memberCount: int, cadence: Cadence)
    returns (cards: seq<RecapCard>)
    requires DistinctPosts(candidates)
    ensures IsWall(candidates, CollageCardCap(cadence, memberCount), cards)
  {
    hide Standing, Ascending, At, Bests, Fills, Picks, CollageCardCap, DistinctBy, CountBy, Sorted, StrictlySorted,
         Outranks, WeakOrder, GuaranteedPost, CandidateToCard;
    OutranksIsOrder();
    var order := SortSlice(candidates, Outranks);
    DistinctByPermutation(candidates, order, PostIdOf);
    SortedIsStrict(order);
    var limit := CollageCardCap(cadence, memberCount);
    var guaranteed := GuaranteedPosts(order);
    var selected := FillUp(order, guaranteed, limit);
    selected := SortSlice(selected, Outranks);
    ghost var picks := Picks(order, |order|, Room(order, limit));
    PicksAreFilled(order, |order|, Room(order, limit));
    PicksSorted(order, picks);
    SortedUnique(At(order, picks), selected, Outranks);
    AtSize(order, picks);
    if |selected| > limit {
      AtPrefix(order, picks, limit);
      selected := selected[..limit];
    }
    ghost var chosen := Chosen(order, limit);
    cards := [];
    for i := 0 to |selected|
      invariant |cards| == i
      invariant forall k :: 0 <= k < i ==>
                cards[k] == CandidateToCard(order[chosen[k]], k + 1, Standing(order, chosen[k]) == 0)
    {
      AtSelected(order, chosen, i);
      GuaranteedIff(order, guaranteed, chosen[i]);
      cards := cards + [CandidateToCard(selected[i], i + 1, GuaranteedPost(guaranteed, selected[i].postId))];
    }
    assert cards == CardsAt(order, chosen);
  }

  lemma AtSize(ranked: seq<Candidate>, p: seq<nat>)
    requires Within(p, |ranked|)
    ensures |At(ranked, p)| == |p|
  {
  }

  lemma AtPrefix(ranked: seq<Candidate>, p: seq<nat>, n: nat)
    requires n <= |p| && Within(p, |ranked|)
    ensures At(ranked, p)[..n] == At(ranked, p[..n])
  {
  }

  lemma AtSelected(ranked: seq<Candidate>, p: seq<nat>, i: nat)
    requires i < |p| && Within(p, |ranked|)
    ensures |At(ranked, p)| == |p| && At(ranked, p)[i] == ranked[p[i]]
  {
  }
}

/** What the cards of the Wall say, in terms of the posts alone. */
module RecapCards {
  import opened Wrappers
  import opened Sorting
  import opened RecapSelect
  import opened RecapWall

  /** A card shows a post: who, where, and how well liked; its text, or else its attachment and whether that moves. */
  predicate Shows(card: RecapCard, c: Candidate) {
    && card.postId == c.postId && card.authorId == c.authorId && card.authorName == c.authorName
    && card.authorPhotoId == c.authorPhotoId && card.likeCount == c.likeCount
    && card.commentCount == c.commentCount && card.location == c.location && card.media == c.media
    && (c.media.None? ==> card.kind == Quote && card.body == c.body)
    && (c.media.Some? ==> card.body == ""
                          && card.kind == if "video/" <= c.media.value.mime then Clip else Photo)
  }

  /** Cards count from 1, the most liked first, and among equally liked ones the most discussed. */
  ghost predicate InOrder(cards: seq<RecapCard>) {
    && (forall i :: 0 <= i < |cards| ==> cards[i].rank == i + 1)
    && (forall i, j :: 0 <= i < j < |cards| ==>
          && cards[i].postId != cards[j].postId && cards[i].likeCount >= cards[j].likeCount
          && (cards[i].likeCount == cards[j].likeCount ==> cards[i].commentCount >= cards[j].commentCount))
  }

  /** A guaranteed card is the only one of its author, and no post of the author has more likes. */
  ghost predicate BestOfAuthor(candidates: seq<Candidate>, cards: seq<RecapCard>, i: nat)
    requires i < |cards|
  {
    && (forall c :: c in candidates && c.authorId == cards[i].authorId ==> c.likeCount <= cards[i].likeCount)
    && (forall j :: 0 <= j < |cards| && j != i && cards[j].guaranteed ==> cards[j].authorId != cards[i].authorId)
  }

  ghost function AuthorsOf(candidates: seq<Candidate>): set<int> {
    set c | c in candidates :: c.authorId
  }

  lemma BetterLiked(ranked: seq<Candidate>, i: nat, j: nat)
    requires StrictlySorted(ranked, Outranks) && i <= j < |ranked|
    ensures ranked[i].likeCount >= ranked[j].likeCount
    ensures ranked[i].likeCount == ranked[j].likeCount ==> ranked[i].commentCount >= ranked[j].commentCount
  {
    assert i < j ==> Outranks(ranked[i], ranked[j]);
  }

  lemma CardAt(ranked: seq<Candidate>, p: seq<nat>, i: nat)
    requires Within(p, |ranked|) && i < |p|
    ensures |CardsAt(ranked, p)| == |p|
    ensures
      var card := CardsAt(ranked, p)[i];
      Shows(card, ranked[p[i]]) && card.rank == i + 1 && (card.guaranteed <==> Standing(ranked, p[i]) == 0)
  {
    hide Standing;
  }

  ghost predicate ShowsOneOf(card: RecapCard, candidates: seq<Candidate>) {
    exists c :: c in candidates && Shows(card, c)
  }

  /** The cards in order, each of a post of its own; and a guaranteed one has the most likes of its author's. */
  lemma WallSays(candidates: seq<Candidate>, limit: nat, cards: seq<RecapCard>)
    requires DistinctPosts(candidates) && IsWall(candidates, limit, cards)
    ensures |cards| <= limit && InOrder(cards)
    ensures forall i :: 0 <= i < |cards| ==> ShowsOneOf(cards[i], candidates)
    ensures forall i :: 0 <= i < |cards| && cards[i].guaranteed ==> BestOfAuthor(candidates, cards, i)
  {
    hide Chosen, CardsAt, Outranks, Standing, Shows, StrictlySorted, BestOfAuthor, InOrder;
    var ranked :| Ranking(candidates, ranked) && cards == CardsAt(ranked, Chosen(ranked, limit));
    var p := Chosen(ranked, limit);
    DistinctByPermutation(candidates, ranked, PostIdOf);
    CardsShow(ranked, p, cards);
    CardsInOrder(ranked, p, cards);
    forall i | 0 <= i < |cards| && cards[i].guaranteed ensures BestOfAuthor(candidates, cards, i) {
      GuaranteedBest(candidates, ranked, p, cards, i);
    }
    forall i | 0 <= i < |cards| ensures ShowsOneOf(cards[i], candidates) {
      RankedCandidate(candidates, ranked, p, i);
      assert Shows(cards[i], ranked[p[i]]);
    }
  }

  /** Each card shows the post chosen for it. */
  lemma CardsShow(ranked: seq<Candidate>, p: seq<nat>, cards: seq<RecapCard>)
    requires Increasing(p, |ranked|) && cards == CardsAt(ranked, p)
    ensures |cards| == |p|
    ensures forall i :: 0 <= i < |p| ==>
              && p[i] < |ranked| && Shows(cards[i], ranked[p[i]]) && cards[i].rank == i + 1
              && (cards[i].guaranteed <==> Standing(ranked, p[i]) == 0)
  {
    hide CardsAt, Standing, Shows;
    NoCards(ranked, p);
    forall i | 0 <= i < |p|
      ensures Shows(cards[i], ranked[p[i]]) && cards[i].rank == i + 1
      ensures cards[i].guaranteed <==> Standing(ranked, p[i]) == 0
    {
      CardAt(ranked, p, i);
    }
  }

  lemma RankedCandidate(candidates: seq<Candidate>, ranked: seq<Candidate>, p: seq<nat>, i: nat)
    requires Ranking(candidates, ranked) && Increasing(p, |ranked|) && i < |p|
    ensures p[i] < |ranked| && ranked[p[i]] in candidates
  {
    hide StrictlySorted;
    SameElements(candidates, ranked);
    assert ranked[p[i]] in ranked;
  }

  lemma NoCards(ranked: seq<Candidate>, p: seq<nat>)
    requires Within(p, |ranked|)
    ensures |CardsAt(ranked, p)| == |p|
  {
  }

  lemma CardsInOrder(ranked: seq<Candidate>, p: seq<nat>, cards: seq<RecapCard>)
    requires StrictlySorted(ranked, Outranks) && DistinctPosts(ranked) && Increasing(p, |ranked|) && |cards| == |p|
    requires forall i :: 0 <= i < |p| ==>
               p[i] < |ranked| && Shows(cards[i], ranked[p[i]]) && cards[i].rank == i + 1
    ensures InOrder(cards)
  {
    hide Outranks, StrictlySorted;
    forall i, j | 0 <= i < j < |cards|
      ensures cards[i].postId != cards[j].postId && cards[i].likeCount >= cards[j].likeCount
      ensures cards[i].likeCount == cards[j].likeCount ==> cards[i].commentCount >= cards[j].commentCount
    {
      assert Shows(cards[i], ranked[p[i]]) && Shows(cards[j], ranked[p[j]]);
      BetterLiked(ranked, p[i], p[j]);
      assert PostIdOf(ranked[p[i]]) != PostIdOf(ranked[p[j]]);
    }
  }

  lemma GuaranteedBest(candidates: seq<Candidate>, ranked: seq<Candidate>, p: seq<nat>, cards: seq<RecapCard>, i: nat)
    requires Ranking(candidates, ranked) && Increasing(p, |ranked|) && |cards| == |p| && i < |p|
    requires forall k :: 0 <= k < |p| ==>
               p[k] < |ranked| && Shows(cards[k], ranked[p[k]])
                   && (cards[k].guaranteed <==> Standing(ranked, p[k]) == 0)
    requires cards[i].guaranteed
    ensures BestOfAuthor(candidates, cards, i)
  {
    hide Outranks, Standing, StrictlySorted;
    SameElements(candidates, ranked);
    assert Shows(cards[i], ranked[p[i]]);
    forall c | c in candidates && c.authorId == cards[i].authorId ensures c.likeCount <= cards[i].likeCount {
      var k :| 0 <= k < |ranked| && ranked[k] == c;
      var b := FirstBy(ranked, k, c.authorId);
      OneBest(ranked, b, p[i]);
      BetterLiked(ranked, p[i], k);
    }
    forall j | 0 <= j < |cards| && j != i && cards[j].guaranteed ensures cards[j].authorId != cards[i].authorId {
      assert Shows(cards[j], ranked[p[j]]);
      if cards[j].authorId == cards[i].authorId {
        OneBest(ranked, p[j], p[i]);
      }
    }
  }

  // ---------- every author ----------

  lemma {:induction false} BestsAreAuthors(ranked: seq<Candidate>, t: nat)
    requires t <= |ranked|
    ensures |Bests(ranked, t)| == |AuthorsOf(ranked[..t])|
  {
    hide Increasing;
    if t > 0 {
      BestsAreAuthors(ranked, t - 1);
      var a := ranked[t - 1].authorId;
      assert ranked[..t] == ranked[..t - 1] + [ranked[t - 1]];
      assert AuthorsOf(ranked[..t]) == AuthorsOf(ranked[..t - 1]) + {a};
      NewAuthor(ranked, t - 1);
      assert a in AuthorsOf(ranked[..t - 1]) ==> AuthorsOf(ranked[..t]) == AuthorsOf(ranked[..t - 1]);
    } else {
      assert AuthorsOf(ranked[..0]) == {};
    }
  }

  lemma NewAuthor(ranked: seq<Candidate>, i: nat)
    requires i < |ranked|
    ensures Standing(ranked, i) == 0 <==> ranked[i].authorId !in AuthorsOf(ranked[..i])
  {
    var a := ranked[i].authorId;
    if Standing(ranked, i) > 0 {
      var j := PostBy(ranked, i, a);
      assert ranked[j] in ranked[..i];
    }
    if a in AuthorsOf(ranked[..i]) {
      var c :| c in ranked[..i] && c.authorId == a;
      var j :| 0 <= j < i && ranked[j] == c;
      CountMonotone(ranked, j + 1, i, a);
    }
  }

  /** Where the authors fit, each has a guaranteed card; and none has more than three cards. */
  lemma EveryAuthorShown(candidates: seq<Candidate>, limit: nat, cards: seq<RecapCard>, c: Candidate)
    requires IsWall(candidates, limit, cards) && c in candidates && |AuthorsOf(candidates)| <= limit
    ensures exists i :: 0 <= i < |cards| && cards[i].guaranteed && cards[i].authorId == c.authorId
    ensures |set i | 0 <= i < |cards| && cards[i].authorId == c.authorId| <= 3
  {
    hide Chosen, CardsAt, Standing, Shows, StrictlySorted, Bests;
    var ranked :| Ranking(candidates, ranked) && cards == CardsAt(ranked, Chosen(ranked, limit));
    var p := Chosen(ranked, limit);
    SameElements(candidates, ranked);
    assert AuthorsOf(ranked) == AuthorsOf(candidates) && ranked[..|ranked|] == ranked;
    BestsAreAuthors(ranked, |ranked|);
    ChosenIsFair(ranked, limit);
    var k :| 0 <= k < |ranked| && ranked[k] == c;
    var b := FirstBy(ranked, k, c.authorId);
    assert b in p;
    var i :| 0 <= i < |p| && p[i] == b;
    CardAt(ranked, p, i);
    CardBy(ranked, p, i);
    AuthorsCards(ranked, p, c.authorId);
  }

  lemma CardBy(ranked: seq<Candidate>, p: seq<nat>, i: nat)
    requires Within(p, |ranked|) && i < |p|
    ensures |CardsAt(ranked, p)| == |p| && CardsAt(ranked, p)[i].authorId == ranked[p[i]].authorId
  {
    hide Standing;
  }

  lemma AuthorsCards(ranked: seq<Candidate>, p: seq<nat>, author: int)
    requires Increasing(p, |ranked|) && |ByAuthor(ranked, Elements(p), author)| <= 3
    ensures |set i | 0 <= i < |CardsAt(ranked, p)| && CardsAt(ranked, p)[i].authorId == author| <= 3
  {
    hide Standing, CardsAt;
    NoCards(ranked, p);
    var cards := CardsAt(ranked, p);
    var shown := set i | 0 <= i < |cards| && cards[i].authorId == author;
    var posts := ByAuthor(ranked, Elements(p), author);
    forall i | i in shown ensures p[i] in posts {
      CardBy(ranked, p, i);
    }
    Injected(shown, posts, p);
  }

  lemma {:induction false} Injected(x: set<int>, y: set<nat>, p: seq<nat>)
    requires forall i :: i in x ==> 0 <= i < |p| && p[i] in y
    requires Ascending(p)
    ensures |x| <= |y|
    decreases |x|
  {
    if x != {} {
      var i := PickSome(x);
      forall j | j in x - {i} ensures p[j] in y - {p[i]} {
        assert j < i || i < j;
      }
      Injected(x - {i}, y - {p[i]}, p);
    }
  }
}
