/** The activity list: one page at a time, while items come and go between pages. */
module Activity {
  import opened Wrappers
  import opened Sorting
  import opened Text

  const ACTIVITY_MAX_LIMIT: nat := 100

  const KINDS: set<string> := {"comment", "reply", "like"}

  /** An item's position in the list; comments and likes are numbered separately. */
  datatype Cursor = Cursor(createdAt: int, kind: string, sourceId: int)

  /** What a row holds besides its position. */
  datatype Detail = Detail(postId: int, commentId: Option<int>, actorId: int, actorName: string,
                           actorPhotoId: Option<int>, body: string, mediaId: Option<int>)

  datatype ActivityItem = ActivityItem(
    kind: string, postId: int, commentId: Option<int>, actorId: int, actorName: string,
    actorPhotoId: Option<int>, preview: string, createdAt: int)

  /** The rows the query derives for one viewer, by position. */
  type Snapshot = map<Cursor, Detail>

  /** The text form of timestamps, which is not part of this model. */
  datatype TimeText = TimeText(format: int -> string, parse: string -> Option<int>)

  // The years 0 to 9999, which are the ones RFC 3339 can write, in nanoseconds since 1970.
  const FIRST_INSTANT: int := -62_167_219_200_000_000_000
  const LAST_INSTANT: int := 253_402_300_799_999_999_999

  ghost predicate Faithful(time: TimeText) {
    forall t :: FIRST_INSTANT <= t <= LAST_INSTANT ==> time.parse(time.format(t)) == Some(t) && '|' !in time.format(t)
  }

  // ---------- cursors ----------

  function CursorText(c: Cursor, time: TimeText): string {
    time.format(c.createdAt) + "|" + (c.kind + "|" + FormatInt(c.sourceId))
  }

  /** A malformed cursor is no cursor: the list starts over. */
  function ParseCursor(raw: string, time: TimeText): Option<Cursor> {
    var parts := Split(raw, '|');
    if |parts| != 3 then None
    else
      match time.parse(parts[0])
      case None => None
      case Some(at) =>
        match ParseInt(parts[2])
        case None => None
        case Some(id) => Some(Cursor(at, parts[1], id))
  }

  /** Positions of rows: a timestamp of those years, a kind of this package, a 64-bit id. */
  predicate Printable(c: Cursor) {
    && FIRST_INSTANT <= c.createdAt <= LAST_INSTANT
    && '|' !in c.kind && MIN_INT64 <= c.sourceId <= MAX_INT64
  }

  lemma CursorRoundTrip(c: Cursor, time: TimeText)
    requires Faithful(time) && Printable(c)
    ensures ParseCursor(CursorText(c, time), time) == Some(c)
    ensures CursorText(c, time) != ""
  {
    hide FormatInt, ParseInt;
    var t, id := time.format(c.createdAt), FormatInt(c.sourceId);
    IntRoundTrip(c.sourceId);
    assert time.parse(t) == Some(c.createdAt) && '|' !in t;
    assert CursorText(c, time) == t + ['|'] + (c.kind + ['|'] + id);
    SplitFirst(t, c.kind + ['|'] + id, '|');
    SplitFirst(c.kind, id, '|');
    SplitWhole(id, '|');
  }

  /** Equal texts are equal positions; but a position also has other texts, such as one with a plus sign. */
  lemma CursorTextInjective(a: Cursor, b: Cursor, time: TimeText)
    requires Faithful(time) && Printable(a) && Printable(b) && CursorText(a, time) == CursorText(b, time)
    ensures a == b
  {
    CursorRoundTrip(a, time);
    CursorRoundTrip(b, time);
  }

  /** A text is a cursor exactly when it is a timestamp, a kind and an id between two bars, and no other. */
  lemma CursorIff(raw: string, c: Cursor, time: TimeText)
    ensures ParseCursor(raw, time) == Some(c) <==>
              exists at, id ::
                && '|' !in at && '|' !in c.kind && '|' !in id && raw == at + ['|'] + (c.kind + ['|'] + id)
                && time.parse(at) == Some(c.createdAt) && ParseInt(id) == Some(c.sourceId)
  {
    hide ParseInt, Split;
    if ParseCursor(raw, time) == Some(c) {
      var first := SplitRest(raw, '|');
      var second := SplitRest(first, '|');
      var _ := SplitRest(second, '|');
    }
    if at, id :| '|' !in at && '|' !in c.kind && '|' !in id && raw == at + ['|'] + (c.kind + ['|'] + id)
                 && time.parse(at) == Some(c.createdAt) && ParseInt(id) == Some(c.sourceId) {
      SplitFirst(at, c.kind + ['|'] + id, '|');
      SplitFirst(c.kind, id, '|');
      SplitWhole(id, '|');
    }
  }

  /** The row-wise comparison of the query. */
  predicate Before(a: Cursor, b: Cursor) {
    if a.createdAt != b.createdAt then a.createdAt < b.createdAt
    else if a.kind != b.kind then Less(a.kind, b.kind)
    else a.sourceId < b.sourceId
  }

  predicate After(a: Cursor, b: Cursor) {
    Before(b, a)
  }

  lemma CursorOrder()
    ensures forall a, b :: Before(a, b) ==> !Before(b, a)
    ensures forall a, b, c :: Before(a, b) && Before(b, c) ==> Before(a, c)
    ensures forall a, b :: a == b || Before(a, b) || Before(b, a)
    ensures WeakOrder(After)
  {
    LessIsOrder();
  }

  // ---------- one page ----------

  function Clamp(limit: int): (n: nat)
    ensures 1 <= n <= ACTIVITY_MAX_LIMIT
  {
    if limit <= 0 || limit > ACTIVITY_MAX_LIMIT then ACTIVITY_MAX_LIMIT else limit
  }

  predicate Eligible(at: Option<Cursor>, c: Cursor) {
    at.None? || Before(c, at.value)
  }

  ghost predicate Descending(s: seq<Cursor>) {
    forall i, j :: 0 <= i < j < |s| ==> Before(s[j], s[i])
  }

  /** The first `limit` eligible positions, newest first. */
  ghost predicate IsPage(items: Snapshot, at: Option<Cursor>, limit: nat, page: seq<Cursor>) {
    && Descending(page) && |page| <= limit
    && (forall c :: c in page ==> c in items && Eligible(at, c))
    && (forall c :: c in items && Eligible(at, c) && c !in page ==>
          |page| == limit && forall d :: d in page ==> Before(c, d))
  }

  /** A position on one page is on every page of the same request. */
  lemma PageHolds(items: Snapshot, at: Option<Cursor>, limit: nat, a: seq<Cursor>, b: seq<Cursor>, c: Cursor)
    requires IsPage(items, at, limit, a) && IsPage(items, at, limit, b) && c in a
    ensures c in b
  {
    hide Before, Eligible;
    CursorOrder();
    if c !in b {
      forall d | d in b ensures d in a {
        assert Before(c, d);
      }
      DescendingSize(a);
      DescendingSize(b);
      SubsetSmaller(Positions(b), Positions(a), c);
    }
  }

  ghost function Positions(s: seq<Cursor>): set<Cursor> {
    set c | c in s
  }

  lemma {:induction false} DescendingSize(s: seq<Cursor>)
    requires Descending(s)
    ensures |Positions(s)| == |s|
  {
    hide Before;
    CursorOrder();
    if s != [] {
      var init, last := s[..|s| - 1], s[|s| - 1];
      DescendingSize(init);
      assert s == init + [last];
      assert last !in init;
      assert Positions(s) == Positions(init) + {last};
    }
  }

  /** The request decides the page: no choice is left to the order the rows are read in. */
  lemma PageUnique(items: Snapshot, at: Option<Cursor>, limit: nat, a: seq<Cursor>, b: seq<Cursor>)
    requires IsPage(items, at, limit, a) && IsPage(items, at, limit, b)
    ensures a == b
  {
    hide IsPage, Before;
    forall c ensures c in a <==> c in b {
      if c in a {
        PageHolds(items, at, limit, a, b, c);
      }
      if c in b {
        PageHolds(items, at, limit, b, a, c);
      }
    }
    PageDescends(items, at, limit, a);
    PageDescends(items, at, limit, b);
    CursorOrder();
    DistinctCounts(a);
    DistinctCounts(b);
    assert multiset(a) == multiset(b);
    SortedUnique(a, b, After);
  }

  lemma PageDescends(items: Snapshot, at: Option<Cursor>, limit: nat, page: seq<Cursor>)
    requires IsPage(items, at, limit, page)
    ensures Descending(page) && StrictlySorted(page, After) && Sorted(page, After)
  {
    hide Eligible;
    CursorOrder();
  }

  /** The page query: filter, order, limit. */
  method QueryPage(items: Snapshot, at: Option<Cursor>, limit: nat) returns (page: seq<Cursor>)
    ensures IsPage(items, at, limit, page)
  {
    var todo := items.Keys;
    var found: seq<Cursor> := [];
    while todo != {}
      invariant todo <= items.Keys
      invariant forall c :: c in found <==> c in items && c !in todo && Eligible(at, c)
      invariant Distinct(found)
      decreases todo
    {
      var c :| c in todo;
      todo := todo - {c};
      if Eligible(at, c) {
        found := found + [c];
      }
    }
    CursorOrder();
    page := SortSlice(found, After);
    SortedPage(items, at, limit, found, page);
    if |page| > limit {
      page := page[..limit];
    }
  }

  lemma SortedPage(items: Snapshot, at: Option<Cursor>, limit: nat, found: seq<Cursor>, sorted: seq<Cursor>)
    requires forall c :: c in found <==> c in items && Eligible(at, c)
    requires Distinct(found) && multiset(sorted) == multiset(found) && Sorted(sorted, After)
    ensures IsPage(items, at, limit, if |sorted| > limit then sorted[..limit] else sorted)
  {
    hide Before, Eligible;
    CursorOrder();
    DistinctPermutation(found, sorted);
    SameElements(sorted, found);
    assert Descending(sorted) by {
      forall i, j | 0 <= i < j < |sorted| ensures Before(sorted[j], sorted[i]) {
        assert !After(sorted[j], sorted[i]);
      }
    }
    if |sorted| > limit {
      var page := sorted[..limit];
      forall k | 0 <= k < limit ensures sorted[k] in page {
        assert page[k] == sorted[k];
      }
      forall c, d | c in sorted && c !in page && d in page ensures Before(c, d) {
        var j :| 0 <= j < |sorted| && sorted[j] == c;
        var i :| 0 <= i < |page| && page[i] == d;
        assert page[i] == sorted[i];
      }
    }
  }

  /** A like has no content of its own; a comment without text is a GIF. */
  function Preview(kind: string, body: string, mediaId: Option<int>): string {
    if kind == "like" then ""
    else if body == "" && mediaId.Some? then "GIF"
    else body
  }

  function ItemOf(c: Cursor, d: Detail): ActivityItem {
    ActivityItem(c.kind, d.postId, d.commentId, d.actorId, d.actorName, d.actorPhotoId,
        Preview(c.kind, d.body, d.mediaId), c.createdAt)
  }

  /** The cursor after a page: none when the page is short of the limit. */
  function NextCursor(page: seq<Cursor>, limit: nat, time: TimeText): string
    requires limit > 0
  {
    if |page| < limit then "" else CursorText(page[|page| - 1], time)
  }

  /** `out` shows the items of the page, in its order. */
  ghost predicate Shows(items: Snapshot, page: seq<Cursor>, out: seq<ActivityItem>) {
    |out| == |page| && forall i :: 0 <= i < |page| ==> page[i] in items && out[i] == ItemOf(page[i], items[page[i]])
  }

  /** The reply to a request: the items of the page after the cursor, and the cursor to continue from. */
  ghost predicate IsReply(items: Snapshot, cursor: string, limit: int, time: TimeText, out: seq<ActivityItem>,
                          next: string) {
    exists page ::
      && IsPage(items, ParseCursor(cursor, time), Clamp(limit), page)
      && Shows(items, page, out) && next == NextCursor(page, Clamp(limit), time)
  }

  /** One page of the viewer's activity, and the cursor to continue from. */
  method ReadActivity(items: Snapshot, cursor: string, limit: int, time: TimeText)
    returns (out: seq<ActivityItem>, next: string)
    ensures IsReply(items, cursor, limit, time, out, next)
  {
    hide ParseCursor, Before, CursorText;
    var n := Clamp(limit);
    var rows := QueryPage(items, ParseCursor(cursor, time), n);
    out := [];
    var last := Cursor(0, "", 0);
    for i := 0 to |rows|
      invariant |out| == i
      invariant forall k :: 0 <= k < i ==> rows[k] in items && out[k] == ItemOf(rows[k], items[rows[k]])
      invariant i > 0 ==> last == rows[i - 1]
    {
      assert rows[i] in rows;
      out := out + [ItemOf(rows[i], items[rows[i]])];
      last := rows[i];
    }
    assert Shows(items, rows, out);
    next := if |out| < n then "" else CursorText(last, time);
    assert next == NextCursor(rows, n, time);
  }

  // ---------- following the cursor ----------

  /** One request of a session: what the list held then, and the limit asked for. */
  datatype Request = Request(items: Snapshot, limit: int)

  ghost predicate Genuine(items: Snapshot) {
    forall c :: c in items ==> c.kind in KINDS && Printable(c)
  }

  /** The pages got by following each page's cursor until it is empty, starting from the text `cursor`. */
  ghost predicate Session(requests: seq<Request>, cursor: string, pages: seq<seq<Cursor>>, time: TimeText)
    decreases |requests|
  {
    && |requests| == |pages| && requests != []
    && var r := requests[0];
       var next := NextCursor(pages[0], Clamp(r.limit), time);
       && Genuine(r.items)
       && IsPage(r.items, ParseCursor(cursor, time), Clamp(r.limit), pages[0])
       && (if next == "" then |requests| == 1 else Session(requests[1..], next, pages[1..], time))
  }

  function Delivered(pages: seq<seq<Cursor>>): seq<Cursor> {
    if pages == [] then [] else pages[0] + Delivered(pages[1..])
  }

  /** The page's cursor stands for its last position. */
  lemma NextIsLast(items: Snapshot, at: Option<Cursor>, limit: nat, page: seq<Cursor>, time: TimeText)
    requires Faithful(time) && Genuine(items) && limit > 0 && IsPage(items, at, limit, page)
    ensures NextCursor(page, limit, time) != "" ==>
              |page| == limit && ParseCursor(NextCursor(page, limit, time), time) == Some(page[limit - 1])
    ensures NextCursor(page, limit, time) == "" ==> |page| < limit
  {
    hide CursorText, ParseCursor, Before, Faithful;
    if |page| == limit {
      assert page[limit - 1] in page;
      CursorRoundTrip(page[limit - 1], time);
    }
  }

  lemma PageBeforeLast(page: seq<Cursor>, c: Cursor)
    requires Descending(page) && page != []
    ensures Before(c, page[|page| - 1]) ==> forall d :: d in page ==> Before(c, d)
  {
    hide Before;
    CursorOrder();
    var last := page[|page| - 1];
    forall d | d in page && Before(c, last) ensures Before(c, d) {
      var i :| 0 <= i < |page| && page[i] == d;
    }
  }

  /** Everything delivered from a cursor on lies beyond it, each position once, newest first. */
  lemma {:induction false} SessionDescends(requests: seq<Request>, cursor: string, pages: seq<seq<Cursor>>,
      time: TimeText)
    requires Faithful(time) && Session(requests, cursor, pages, time)
    ensures Descending(Delivered(pages))
    ensures forall c :: c in Delivered(pages) ==> Eligible(ParseCursor(cursor, time), c)
    decreases |requests|
  {
    hide Before, Faithful, ParseCursor, NextCursor, Genuine;
    var r := requests[0];
    var n := Clamp(r.limit);
    var page, next := pages[0], NextCursor(pages[0], n, time);
    NextIsLast(r.items, ParseCursor(cursor, time), n, page, time);
    var rest := Delivered(pages[1..]);
    if next == "" {
      assert rest == [];
      assert page + rest == page;
    } else {
      SessionDescends(requests[1..], next, pages[1..], time);
      CursorOrder();
      forall c | c in rest ensures Eligible(ParseCursor(cursor, time), c) && forall d :: d in page ==> Before(c, d) {
        PageBeforeLast(page, c);
        assert page[n - 1] in page;
      }
      DescendingAppend(page, rest);
    }
  }

  lemma DescendingAppend(a: seq<Cursor>, b: seq<Cursor>)
    requires Descending(a) && Descending(b)
    requires forall c, d :: c in b && d in a ==> Before(c, d)
    ensures Descending(a + b)
  {
    hide Before;
    var s := a + b;
    forall i, j | 0 <= i < j < |s| ensures Before(s[j], s[i]) {
      if i < |a| && j >= |a| {
        assert s[i] in a && s[j] in b;
      }
    }
  }

  /** What every snapshot of the session holds is delivered. */
  lemma {:induction false} SessionDelivers(requests: seq<Request>, cursor: string, pages: seq<seq<Cursor>>,
      time: TimeText, c: Cursor)
    requires Faithful(time) && Session(requests, cursor, pages, time)
    requires forall i :: 0 <= i < |requests| ==> c in requests[i].items
    requires Eligible(ParseCursor(cursor, time), c)
    ensures c in Delivered(pages)
    decreases |requests|
  {
    hide Before, Faithful, ParseCursor, NextCursor, Genuine, Descending;
    var r := requests[0];
    var n := Clamp(r.limit);
    var page, next := pages[0], NextCursor(pages[0], n, time);
    NextIsLast(r.items, ParseCursor(cursor, time), n, page, time);
    if c !in page {
      assert page[n - 1] in page;
      SessionDelivers(requests[1..], next, pages[1..], time, c);
    }
  }

  /** Nothing is delivered that its snapshot did not hold. */
  lemma {:induction false} SessionHonest(requests: seq<Request>, cursor: string, pages: seq<seq<Cursor>>,
      time: TimeText, c: Cursor)
    requires Session(requests, cursor, pages, time) && c in Delivered(pages)
    ensures exists i :: 0 <= i < |requests| && c in pages[i] && c in requests[i].items
    decreases |requests|
  {
    hide Before, ParseCursor, NextCursor, Genuine, Descending;
    if c in pages[0] {
      assert c in requests[0].items;
    } else {
      var next := NextCursor(pages[0], Clamp(requests[0].limit), time);
      assert pages[1..] != [];
      SessionHonest(requests[1..], next, pages[1..], time, c);
      var i :| 0 <= i < |requests| - 1 && c in pages[1..][i] && c in requests[1..][i].items;
      assert c in pages[i + 1] && c in requests[i + 1].items;
    }
  }

  /**
   Following the cursor from the start until it is empty, with any limits and while items are added
   and removed between pages, delivers in order, and exactly once, every item that was there throughout.
   */
  lemma {:induction false} PagingDeliversAll(requests: seq<Request>, pages: seq<seq<Cursor>>, time: TimeText, c: Cursor)
    requires Faithful(time) && Session(requests, "", pages, time)
    requires forall i :: 0 <= i < |requests| ==> c in requests[i].items
    ensures Descending(Delivered(pages))
    ensures multiset(Delivered(pages))[c] == 1
  {
    assert ParseCursor("", time) == None by {
      assert |Split("", '|')| == 1;
    }
    SessionDescends(requests, "", pages, time);
    SessionDelivers(requests, "", pages, time, c);
    DistinctCounts(Delivered(pages));
  }

  /** What is delivered is in order of time, the newest first. */
  lemma {:induction false} NewestFirst(requests: seq<Request>, cursor: string, pages: seq<seq<Cursor>>,
      time: TimeText, i: nat, j: nat)
    requires Faithful(time) && Session(requests, cursor, pages, time) && i < j < |Delivered(pages)|
    ensures Delivered(pages)[i].createdAt >= Delivered(pages)[j].createdAt
  {
    SessionDescends(requests, cursor, pages, time);
    assert Before(Delivered(pages)[j], Delivered(pages)[i]);
  }

  /** A limit from 1 to 100 is kept, and any other is 100. */
  lemma ClampIff(limit: int)
    ensures Clamp(limit) == limit <==> 1 <= limit <= 100
    ensures Clamp(limit) != limit ==> Clamp(limit) == 100
  {
  }

  /** An item says who did what to which post; a comment shows its text, or GIF for one without, and a like nothing. */
  lemma ItemSays(items: Snapshot, page: seq<Cursor>, out: seq<ActivityItem>, i: nat)
    requires Shows(items, page, out) && i < |out|
    ensures page[i] in items && out[i].kind == page[i].kind && out[i].createdAt == page[i].createdAt
    ensures
      var d := items[page[i]];
      && out[i].postId == d.postId && out[i].commentId == d.commentId && out[i].actorId == d.actorId
      && out[i].actorName == d.actorName && out[i].actorPhotoId == d.actorPhotoId
      && (page[i].kind == "like" ==> out[i].preview == "")
      && (page[i].kind != "like" && (d.body != "" || d.mediaId.None?) ==> out[i].preview == d.body)
      && (page[i].kind != "like" && d.body == "" && d.mediaId.Some? ==> out[i].preview == "GIF")
  {
  }
}
