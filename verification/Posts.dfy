/**
 Who posted, and how much: one entry for each author, the busiest first. The cover of a recap and the
 participants of an event are both such rosters.
 */
module Rosters {
  import opened Wrappers
  import opened Sorting

  /** One post, as far as the roster is concerned. */
  datatype Posting = Posting(userId: int, name: string, photoId: Option<int>)

  datatype Person = Person(userId: int, name: string, photoId: Option<int>, posts: nat)

  function CountOf(ps: seq<Posting>, user: int): nat {
    if ps == [] then 0 else (if ps[0].userId == user then 1 else 0) + CountOf(ps[1..], user)
  }

  ghost function Authors(ps: seq<Posting>): set<int> {
    set p | p in ps :: p.userId
  }

  /** The author's entry: name and photo from the first of their posts. */
  function PersonOf(ps: seq<Posting>, user: int): (p: Person)
    ensures p.userId == user && p.posts == CountOf(ps, user)
  {
    if ps == [] then Person(user, "", None, 0)
    else if ps[0].userId == user then Person(user, ps[0].name, ps[0].photoId, CountOf(ps, user))
    else PersonOf(ps[1..], user)
  }

  /** A person is called, and pictured, as in the first of their posts. */
  lemma {:induction false} PersonFrom(ps: seq<Posting>, user: int) returns (i: nat)
    requires user in Authors(ps)
    ensures i < |ps| && ps[i].userId == user && forall j :: 0 <= j < i ==> ps[j].userId != user
    ensures PersonOf(ps, user).name == ps[i].name && PersonOf(ps, user).photoId == ps[i].photoId
  {
    if ps[0].userId == user {
      i := 0;
    } else {
      assert ps == [ps[0]] + ps[1..];
      var k := PersonFrom(ps[1..], user);
      i := k + 1;
    }
  }

  /** More posts first, then the smaller id. */
  predicate PersonOutranks(a: Person, b: Person) {
    if a.posts != b.posts then a.posts > b.posts else a.userId < b.userId
  }

  /** One entry for each author, the busiest first. */
  ghost predicate Roster(ps: seq<Posting>, people: seq<Person>) {
    && StrictlySorted(people, PersonOutranks)
    && (forall p :: p in people ==> p.userId in Authors(ps) && p == PersonOf(ps, p.userId))
    && (forall a :: a in Authors(ps) ==> PersonOf(ps, a) in people)
  }

  function UserOf(p: Person): int {
    p.userId
  }

  lemma PersonOrder()
    ensures WeakOrder(PersonOutranks)
  {
  }

  /** The roster is determined by the posts. */
  lemma RosterUnique(ps: seq<Posting>, a: seq<Person>, b: seq<Person>)
    requires Roster(ps, a) && Roster(ps, b)
    ensures a == b
  {
    PersonOrder();
    assert Distinct(a) && Distinct(b);
    DistinctCounts(a);
    DistinctCounts(b);
    assert multiset(a) == multiset(b) by {
      forall p ensures multiset(a)[p] == multiset(b)[p] {
        assert p in a <==> p in b;
      }
    }
    SortedUnique(a, b, PersonOutranks);
  }

  /** Counts each author's posts in a map, then sorts the entries. */
  method TallyPeople(ps: seq<Posting>) returns (people: seq<Person>)
    ensures Roster(ps, people)
  {
    hide PersonOf, Tallied, Roster, Sorted, WeakOrder, PersonOutranks;
    var order: seq<int> := [];
    var byAuthor: map<int, Person> := map[];
    TallyStarts();
    assert ps[..0] == [];
    for k := 0 to |ps|
      invariant Tallied(ps[..k], order, byAuthor)
    {
      var c := ps[k];
      var entry := if c.userId in byAuthor then byAuthor[c.userId] else Person(c.userId, c.name, c.photoId, 0);
      TallyOne(ps[..k], c, order, byAuthor);
      assert ps[..k + 1] == ps[..k] + [c];
      if c.userId !in byAuthor {
        order := order + [c.userId];
      }
      byAuthor := byAuthor[c.userId := entry.(posts := entry.posts + 1)];
    }
    assert ps[..|ps|] == ps;
    AllTallied(ps, order, byAuthor);
    people := seq(|order|, i requires 0 <= i < |order| => byAuthor[order[i]]);
    PersonOrder();
    ghost var unsorted := people;
    people := SortSlice(people, PersonOutranks);
    TalliedIsRoster(ps, order, byAuthor, unsorted, people);
  }

  lemma TallyStarts()
    ensures Tallied([], [], map[])
  {
  }

  lemma AllTallied(ps: seq<Posting>, order: seq<int>, byAuthor: map<int, Person>)
    requires Tallied(ps, order, byAuthor)
    ensures forall i :: 0 <= i < |order| ==> order[i] in byAuthor
  {
  }

  ghost predicate Tallied(done: seq<Posting>, order: seq<int>, byAuthor: map<int, Person>) {
    && (forall i :: 0 <= i < |order| ==> order[i] in byAuthor)
    && (forall i, j :: 0 <= i < j < |order| ==> order[i] != order[j])
    && (forall a :: a in byAuthor <==> a in Authors(done))
    && (forall a :: a in byAuthor ==> byAuthor[a] == PersonOf(done, a) && a in order)
  }

  lemma {:induction false} PersonAppend(done: seq<Posting>, c: Posting, user: int)
    ensures
      var was, now := PersonOf(done, user), PersonOf(done + [c], user);
      now == if c.userId != user then was
             else if user in Authors(done) then was.(posts := was.posts + 1)
             else Person(user, c.name, c.photoId, 1)
    ensures CountOf(done + [c], user) == CountOf(done, user) + if c.userId == user then 1 else 0
    ensures user !in Authors(done) ==> CountOf(done, user) == 0
  {
    if done == [] {
      assert done + [c] == [c];
    } else {
      assert (done + [c])[1..] == done[1..] + [c];
      PersonAppend(done[1..], c, user);
      assert done == [done[0]] + done[1..];
      assert Authors(done) == {done[0].userId} + Authors(done[1..]);
    }
  }

  lemma TallyOne(done: seq<Posting>, c: Posting, order: seq<int>, byAuthor: map<int, Person>)
    requires Tallied(done, order, byAuthor)
    ensures
      var a := c.userId;
      var entry := if a in byAuthor then byAuthor[a] else Person(a, c.name, c.photoId, 0);
      Tallied(done + [c], if a in byAuthor then order else order + [a], byAuthor[a := entry.(posts := entry.posts + 1)])
  {
    hide PersonOf;
    var a := c.userId;
    forall b ensures PersonOf(done + [c], b)
         == if a != b then PersonOf(done, b)
            else if b in Authors(done) then PersonOf(done, b).(posts := PersonOf(done, b).posts + 1)
            else Person(b, c.name, c.photoId, 1)
    {
      PersonAppend(done, c, b);
    }
    assert Authors(done + [c]) == Authors(done) + {a};
  }

  lemma TalliedIsRoster(ps: seq<Posting>, order: seq<int>, byAuthor: map<int, Person>, unsorted: seq<Person>,
                        people: seq<Person>)
    requires Tallied(ps, order, byAuthor)
    requires |unsorted| == |order| && forall i :: 0 <= i < |order| ==> unsorted[i] == byAuthor[order[i]]
    requires multiset(people) == multiset(unsorted) && Sorted(people, PersonOutranks)
    ensures Roster(ps, people)
  {
    hide PersonOf;
    SameElements(people, unsorted);
    PersonOrder();
    forall p | p in people ensures p.userId in Authors(ps) && p == PersonOf(ps, p.userId) {
      assert p in unsorted;
      var i :| 0 <= i < |unsorted| && unsorted[i] == p;
      assert order[i] in byAuthor;
    }
    forall a | a in Authors(ps) ensures PersonOf(ps, a) in people {
      var i :| 0 <= i < |order| && order[i] == a;
      assert unsorted[i] in unsorted;
    }
    forall i, j | 0 <= i < j < |unsorted| ensures UserOf(unsorted[i]) != UserOf(unsorted[j]) {
      assert order[i] != order[j];
    }
    DistinctByPermutation(unsorted, people, UserOf);
    forall i, j | 0 <= i < j < |people| ensures PersonOutranks(people[i], people[j]) {
      assert !PersonOutranks(people[j], people[i]) && UserOf(people[i]) != UserOf(people[j]);
    }
  }

  // ---------- totals ----------

  function SumPosts(people: seq<Person>): nat {
    if people == [] then 0 else people[0].posts + SumPosts(people[1..])
  }

  /** The posts of authors outside a set. */
  function Without(ps: seq<Posting>, users: set<int>): (r: seq<Posting>)
    ensures forall p :: p in r <==> p in ps && p.userId !in users
  {
    if ps == [] then []
    else if ps[0].userId in users then Without(ps[1..], users)
    else [ps[0]] + Without(ps[1..], users)
  }

  lemma {:induction false} WithoutCounts(ps: seq<Posting>, users: set<int>)
    ensures forall a :: a !in users ==> PersonOf(Without(ps, users), a) == PersonOf(ps, a)
    ensures forall a :: a !in users ==> CountOf(Without(ps, users), a) == CountOf(ps, a)
  {
    if ps != [] {
      WithoutCounts(ps[1..], users);
      var rest := Without(ps[1..], users);
      assert ps[0].userId !in users ==> Without(ps, users)[1..] == rest;
      assert ps[0].userId in users ==> Without(ps, users) == rest;
    }
  }

  lemma {:induction false} WithoutSize(ps: seq<Posting>, a: int)
    ensures |Without(ps, {a})| == |ps| - CountOf(ps, a)
  {
    if ps != [] {
      WithoutSize(ps[1..], a);
    }
  }

  lemma {:induction false} RosterSum(ps: seq<Posting>, people: seq<Person>)
    requires DistinctBy(people, UserOf)
    requires forall i :: 0 <= i < |people| ==> people[i].posts == CountOf(ps, people[i].userId)
    requires forall c :: c in ps ==> exists p :: p in people && p.userId == c.userId
    ensures SumPosts(people) == |ps|
    decreases |people|
  {
    if people == [] {
      forall c ensures multiset(ps)[c] == 0 {
        assert c !in ps;
      }
      assert multiset(ps) == multiset{};
      assert |ps| == |multiset(ps)|;
    } else {
      var a := people[0].userId;
      var rest := Without(ps, {a});
      WithoutCounts(ps, {a});
      WithoutSize(ps, a);
      forall i | 0 <= i < |people| - 1
        ensures people[1..][i].posts == CountOf(rest, people[1..][i].userId)
      {
        assert UserOf(people[0]) != UserOf(people[i + 1]);
      }
      forall c | c in rest ensures exists p :: p in people[1..] && p.userId == c.userId {
        assert c in ps && c.userId != a;
        var p :| p in people && p.userId == c.userId;
        assert p in people[1..];
      }
      RosterSum(rest, people[1..]);
    }
  }

  lemma {:induction false} UsersOf(people: seq<Person>)
    requires DistinctBy(people, UserOf)
    ensures |(set p | p in people :: p.userId)| == |people|
  {
    if people != [] {
      UsersOf(people[1..]);
      assert people == [people[0]] + people[1..];
      var rest := set p | p in people[1..] :: p.userId;
      forall p | p in people[1..] ensures p.userId != people[0].userId {
        var i :| 0 <= i < |people| - 1 && people[1..][i] == p;
        assert UserOf(people[0]) != UserOf(people[i + 1]);
      }
      assert (set p | p in people :: p.userId) == {people[0].userId} + rest;
    }
  }

  /** A roster has one entry for each author, and its posts add up. */
  lemma {:induction false} RosterTotals(ps: seq<Posting>, people: seq<Person>)
    requires Roster(ps, people)
    ensures |people| == |Authors(ps)| && SumPosts(people) == |ps|
  {
    hide PersonOf;
    forall i, j | 0 <= i < j < |people| ensures UserOf(people[i]) != UserOf(people[j]) {
      assert PersonOutranks(people[i], people[j]);
      assert people[i] == PersonOf(ps, people[i].userId) && people[j] == PersonOf(ps, people[j].userId);
    }
    forall c | c in ps ensures exists p :: p in people && p.userId == c.userId {
      assert c.userId in Authors(ps);
      assert PersonOf(ps, c.userId) in people;
    }
    forall i | 0 <= i < |people| ensures people[i].posts == CountOf(ps, people[i].userId) {
      assert people[i] in people;
    }
    RosterSum(ps, people);
    UsersOf(people);
    assert (set p | p in people :: p.userId) == Authors(ps) by {
      forall a | a in Authors(ps) ensures a in set p | p in people :: p.userId {
        assert PersonOf(ps, a) in people;
      }
    }
  }
}

/** The posts events are detected from, and the sets of days, authors and places taken from them. */
module EventRows {
  import opened Wrappers
  import opened Sorting

  // Instants are nanoseconds since 1970-01-01 00:00 UTC.
  const DAY: int := 86_400_000_000_000

  datatype Row = Row(
    postId: int, authorId: int, authorName: string, authorPhotoId: Option<int>, location: string, createdAt: int,
    likeCount: int, photoCount: int, coverMediaId: Option<int>, lat: Option<real>, lng: Option<real>)

  /** The UTC calendar day of a post. */
  function DayOf(r: Row): int {
    r.createdAt / DAY
  }

  /** Folding of case and white space in location strings, which is not part of this model. */
  type Norm = string -> string

  function PostIdOf(r: Row): int {
    r.postId
  }

  ghost predicate DistinctPosts(rows: seq<Row>) {
    DistinctBy(rows, PostIdOf)
  }

  ghost function Elements(rows: seq<Row>): set<Row> {
    set r | r in rows
  }

  /** The same as a property of a set: a post id belongs to one row. */
  ghost predicate DistinctIds(rows: set<Row>) {
    forall a, b :: a in rows && b in rows && a.postId == b.postId ==> a == b
  }

  lemma DistinctElements(rows: seq<Row>)
    requires DistinctPosts(rows)
    ensures DistinctIds(Elements(rows))
  {
    forall a, b | a in rows && b in rows && a.postId == b.postId ensures a == b {
      var i :| 0 <= i < |rows| && rows[i] == a;
      var j :| 0 <= j < |rows| && rows[j] == b;
      SamePost(rows, i, j);
    }
  }

  lemma SamePost(rows: seq<Row>, i: nat, j: nat)
    requires DistinctPosts(rows) && i < |rows| && j < |rows| && PostIdOf(rows[i]) == PostIdOf(rows[j])
    ensures i == j
  {
  }

  lemma LastIsNew(rows: seq<Row>)
    requires DistinctPosts(rows) && rows != []
    ensures rows[|rows| - 1] !in rows[..|rows| - 1]
  {
    forall i | 0 <= i < |rows| - 1 ensures rows[i] != rows[|rows| - 1] {
      assert PostIdOf(rows[i]) != PostIdOf(rows[|rows| - 1]);
    }
  }

  lemma {:induction false} ElementsSize(rows: seq<Row>)
    requires DistinctPosts(rows)
    ensures |Elements(rows)| == |rows|
  {
    if rows != [] {
      var init, last := rows[..|rows| - 1], rows[|rows| - 1];
      ElementsSize(init);
      assert rows == init + [last];
      LastIsNew(rows);
      assert Elements(rows) == Elements(init) + {last};
    }
  }

  ghost function Ids(rows: set<Row>): set<int> {
    set r | r in rows :: r.postId
  }

  // ---------- rows of a place ----------

  ghost function RowsAt(rows: set<Row>, loc: string, norm: Norm): set<Row> {
    set r | r in rows && norm(r.location) == loc
  }

  ghost function Days(rows: set<Row>): set<int> {
    set r | r in rows :: DayOf(r)
  }

  ghost function AuthorsOf(rows: set<Row>): set<int> {
    set r | r in rows :: r.authorId
  }

  ghost function Recent(rows: set<Row>, cutoff: int): set<Row> {
    set r | r in rows && r.createdAt >= cutoff
  }

  ghost predicate HasPlace(rows: seq<Row>, loc: string, norm: Norm) {
    exists r :: r in rows && norm(r.location) == loc
  }

  /** The rows grouped by place, places in the order they first appear, rows in their order. */
  ghost predicate Grouped(rows: seq<Row>, norm: Norm, order: seq<string>, groups: map<string, seq<Row>>) {
    && (forall k :: k in order <==> k in groups) && Distinct(order)
    && (forall k :: k in groups <==> HasPlace(rows, k, norm))
    && (forall k :: k in groups ==> groups[k] == AtPlace(rows, k, norm) && groups[k] != [])
  }

  /** The rows of one place, in their order. */
  function AtPlace(rows: seq<Row>, loc: string, norm: Norm): (s: seq<Row>)
    ensures forall r :: r in s <==> r in rows && norm(r.location) == loc
  {
    if rows == [] then []
    else
      var init := AtPlace(rows[..|rows| - 1], loc, norm);
      if norm(rows[|rows| - 1].location) == loc then init + [rows[|rows| - 1]] else init
  }

  lemma {:induction false} AtPlaceAppend(rows: seq<Row>, r: Row, loc: string, norm: Norm)
    ensures
      var init := AtPlace(rows, loc, norm);
      AtPlace(rows + [r], loc, norm) == if norm(r.location) == loc then init + [r] else init
  {
    assert (rows + [r])[..|rows|] == rows;
  }

  lemma {:induction false} AtPlaceDistinct(rows: seq<Row>, loc: string, norm: Norm)
    requires DistinctPosts(rows)
    ensures DistinctPosts(AtPlace(rows, loc, norm))
  {
    if rows != [] {
      var init, last := rows[..|rows| - 1], rows[|rows| - 1];
      assert DistinctPosts(init) by {
        forall i, j | 0 <= i < j < |init| ensures PostIdOf(init[i]) != PostIdOf(init[j]) {
          assert PostIdOf(rows[i]) != PostIdOf(rows[j]);
        }
      }
      AtPlaceDistinct(init, loc, norm);
      var s := AtPlace(init, loc, norm);
      forall i | 0 <= i < |s| ensures PostIdOf(s[i]) != PostIdOf(last) {
        assert s[i] in init;
        var k :| 0 <= k < |init| && init[k] == s[i];
        assert PostIdOf(rows[k]) != PostIdOf(rows[|rows| - 1]);
      }
    }
  }

  lemma {:induction false} AtNewPlace(rows: seq<Row>, loc: string, norm: Norm)
    requires !HasPlace(rows, loc, norm)
    ensures AtPlace(rows, loc, norm) == []
  {
    var s := AtPlace(rows, loc, norm);
    forall x ensures multiset(s)[x] == 0 {
      assert x !in s;
    }
    assert multiset(s) == multiset{};
    assert |multiset(s)| == |s|;
  }

  lemma HasPlaceAppend(rows: seq<Row>, r: Row, loc: string, norm: Norm)
    ensures HasPlace(rows + [r], loc, norm) <==> HasPlace(rows, loc, norm) || norm(r.location) == loc
  {
    if norm(r.location) == loc {
      assert r in rows + [r];
    }
    if HasPlace(rows, loc, norm) {
      var x :| x in rows && norm(x.location) == loc;
      assert x in rows + [r];
    }
  }

  lemma GroupOne(rows: seq<Row>, r: Row, norm: Norm, order: seq<string>, groups: map<string, seq<Row>>)
    requires Grouped(rows, norm, order, groups)
    ensures
      var k := norm(r.location);
      Grouped(rows + [r], norm, if k in groups then order else order + [k],
              groups[k := (if k in groups then groups[k] else []) + [r]])
  {
    hide AtPlace, HasPlace, Distinct;
    var k := norm(r.location);
    forall loc
      ensures HasPlace(rows + [r], loc, norm) <==> HasPlace(rows, loc, norm) || loc == k
      ensures AtPlace(rows + [r], loc, norm)
           == if k == loc then AtPlace(rows, loc, norm) + [r] else AtPlace(rows, loc, norm)
    {
      HasPlaceAppend(rows, r, loc, norm);
      AtPlaceAppend(rows, r, loc, norm);
    }
    if k !in groups {
      AtNewPlace(rows, k, norm);
      DistinctAppend(order, k);
    }
  }

  lemma DistinctAppend(order: seq<string>, k: string)
    requires Distinct(order) && k !in order
    ensures Distinct(order + [k])
  {
  }

  lemma NoGroups(norm: Norm)
    ensures Grouped([], norm, [], map[])
  {
  }

  method GroupByPlace(rows: seq<Row>, norm: Norm) returns (order: seq<string>, groups: map<string, seq<Row>>)
    ensures Grouped(rows, norm, order, groups)
  {
    hide Grouped;
    NoGroups(norm);
    assert rows[..0] == [];
    order, groups := [], map[];
    for i := 0 to |rows|
      invariant Grouped(rows[..i], norm, order, groups)
    {
      var r := rows[i];
      var key := norm(r.location);
      GroupOne(rows[..i], r, norm, order, groups);
      assert rows[..i + 1] == rows[..i] + [r];
      if key !in groups {
        order := order + [key];
        groups := groups[key := [r]];
        assert [] + [r] == [r];
      } else {
        groups := groups[key := groups[key] + [r]];
      }
    }
    assert rows[..|rows|] == rows;
  }
}
