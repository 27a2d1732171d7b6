/**
 The box structure of ISO/IEC 14496-12, section 4.2, as the upload sanitizer reads it.

 A region of a file is split into boxes, each a header of 8 or 16 bytes and a payload, up to the
 first malformed header. `Split` is the meaning of one such walk, `Print` its inverse, and
 `ParseBoxList` the in-place walk over the caller's buffer.
 */
module Mp4Boxes {
  import opened Bytes

  const MAX_BOX_SIBLINGS: nat := 4096

  /** The bytes of a box header: 8, or 16 when a 64-bit size follows the type. */
  type Header = h: seq<byte> | |h| == 8 || |h| == 16 witness Zeros(8)

  /** One box: the header bytes as they stand in the file, and the payload they announce. */
  datatype Box = Box(header: Header, payload: seq<byte>)

  /** The four-character code of a header, as the big-endian number of its four bytes. */
  function TypeOf(header: Header): u32 {
    Be32(header[4..8])
  }

  /** The boxes read from a region, what is left of it, and whether all of it parsed. */
  datatype Forest = Forest(boxes: seq<Box>, rest: seq<byte>, ok: bool)

  datatype HeaderResult = Malformed | Sized(header: nat, size: nat)

  /** Four printable characters, or Apple's 0xA9 marker. */
  predicate ValidBoxType(typ: seq<byte>)
    requires |typ| == 4
  {
    Printable(typ[0]) && Printable(typ[1]) && Printable(typ[2]) && Printable(typ[3])
  }

  predicate Printable(c: byte) {
    c == 0xA9 || 0x20 <= c <= 0x7E
  }

  /** The header at the front of `data`: its own length, and the length of the whole box. */
  function ReadHeader(data: seq<byte>, printable: bool): (r: HeaderResult)
    ensures r.Sized? ==> (r.header == 8 || r.header == 16) && r.header <= r.size <= |data|
  {
    if |data| < 8 then Malformed
    else if printable && !ValidBoxType(data[4..8]) then Malformed
    else
      var size := Be32(data[..4]);
      if size == 0 then Sized(8, |data|)
      else if size == 1 then
        if |data| < 16 then Malformed
        else
          var large := Be64(data[8..16]);
          if large < 16 || large > |data| then Malformed else Sized(16, large)
      else if size < 8 || size > |data| then Malformed
      else Sized(8, size)
  }

  /** At most `room` boxes from the front of `data`. */
  function Split(data: seq<byte>, room: nat, printable: bool): (f: Forest)
    ensures |f.boxes| <= room
  {
    if data == [] then Forest([], [], true)
    else if room == 0 then Forest([], data, false)
    else
      match ReadHeader(data, printable)
      case Malformed => Forest([], data, false)
      case Sized(h, n) =>
        var tail := Split(data[n..], room - 1, printable);
        Forest([Box(data[..h], data[h..n])] + tail.boxes, tail.rest, tail.ok)
  }

  /** The boxes written one after another. */
  function Print(boxes: seq<Box>): seq<byte> {
    if boxes == [] then [] else (boxes[0].header + boxes[0].payload) + Print(boxes[1..])
  }

  lemma {:induction false} PrintCons(b: Box, boxes: seq<Box>)
    ensures Print([b] + boxes) == (b.header + b.payload) + Print(boxes)
  {
    assert ([b] + boxes)[1..] == boxes;
  }

  lemma {:induction false} PrintAppend(a: seq<Box>, b: seq<Box>)
    ensures Print(a + b) == Print(a) + Print(b)
  {
    if a == [] {
      assert a + b == b;
    } else {
      assert (a + b)[1..] == a[1..] + b;
      PrintAppend(a[1..], b);
    }
  }

  lemma {:induction false} PrintSameLength(a: seq<Box>, b: seq<Box>)
    requires SameFrames(a, b)
    ensures |Print(a)| == |Print(b)|
  {
    if a != [] {
      SameFramesTail(a, b);
      PrintSameLength(a[1..], b[1..]);
    }
  }

  /** The same header around a payload of the same length. */
  predicate SameFrame(a: Box, b: Box) {
    a.header == b.header && |a.payload| == |b.payload|
  }

  predicate SameFrames(a: seq<Box>, b: seq<Box>) {
    |a| == |b| && forall i :: 0 <= i < |a| ==> SameFrame(a[i], b[i])
  }

  lemma SameFramesTail(a: seq<Box>, b: seq<Box>)
    requires SameFrames(a, b) && a != []
    ensures b != [] && SameFrame(a[0], b[0]) && SameFrames(a[1..], b[1..])
  {
    forall i | 0 <= i < |a| - 1 ensures SameFrame(a[1..][i], b[1..][i]) {
      assert SameFrame(a[i + 1], b[i + 1]);
    }
  }

  lemma Glue(s: seq<byte>, h: nat, n: nat)
    requires h <= n <= |s|
    ensures s == (s[..h] + s[h..n]) + s[n..]
  {
  }

  lemma {:induction false} PrintFront(data: seq<byte>, h: nat, n: nat, boxes: seq<Box>, rest: seq<byte>)
    requires (h == 8 || h == 16) && h <= n <= |data|
    requires Print(boxes) + rest == data[n..]
    ensures Print([Box(data[..h], data[h..n])] + boxes) + rest == data
  {
    PrintCons(Box(data[..h], data[h..n]), boxes);
    Glue(data, h, n);
    Associate(data[..h] + data[h..n], Print(boxes), rest);
  }

  /** The parse loses nothing: printing its boxes and its remainder gives the region back. */
  lemma {:induction false} SplitPrints(data: seq<byte>, room: nat, printable: bool)
    ensures
      var f := Split(data, room, printable);
      Print(f.boxes) + f.rest == data && (f.ok ==> f.rest == [])
  {
    if data != [] && room != 0 {
      var r := ReadHeader(data, printable);
      if r.Sized? {
        var tail := Split(data[r.size..], room - 1, printable);
        SplitPrints(data[r.size..], room - 1, printable);
        PrintFront(data, r.header, r.size, tail.boxes, tail.rest);
      }
    }
  }

  lemma HeaderIsLocal(data: seq<byte>, data': seq<byte>, printable: bool)
    requires |data| == |data'|
    requires
      var r := ReadHeader(data, printable);
      r.Sized? && data[..r.header] == data'[..r.header]
    ensures ReadHeader(data', printable) == ReadHeader(data, printable)
  {
    var h := ReadHeader(data, printable).header;
    assert data[..4] == data[..h][..4] && data'[..4] == data'[..h][..4];
    assert data[4..8] == data[..h][4..8] && data'[4..8] == data'[..h][4..8];
    if h == 16 {
      assert data[8..16] == data[..h][8..16] && data'[8..16] == data'[..h][8..16];
    }
  }

  /** One step of the walk, over a box put in place of another of the same frame. */
  lemma {:induction false} SplitCons(data: seq<byte>, room: nat, printable: bool, b: Box, tail: Forest)
    requires data != [] && room != 0
    requires
      var r := ReadHeader(data, printable);
      && r.Sized? && b.header == data[..r.header] && |b.payload| == r.size - r.header
      && |Print(tail.boxes) + tail.rest| == |data| - r.size
    requires Split(Print(tail.boxes) + tail.rest, room - 1, printable) == tail
    ensures
      var data' := Print([b] + tail.boxes) + tail.rest;
      && |data'| == |data|
      && Split(data', room, printable) == Forest([b] + tail.boxes, tail.rest, tail.ok)
  {
    hide Print;
    var r := ReadHeader(data, printable);
    var after := Print(tail.boxes) + tail.rest;
    var data' := (b.header + b.payload) + after;
    PrintCons(b, tail.boxes);
    Associate(b.header + b.payload, Print(tail.boxes), tail.rest);
    HeaderIsLocal(data, data', printable);
  }

  /** A walk reads headers only: with other payloads of the same lengths in place, it reads the same boxes. */
  lemma {:induction false} SplitReplaced(data: seq<byte>, room: nat, printable: bool, boxes: seq<Box>)
    requires SameFrames(Split(data, room, printable).boxes, boxes)
    ensures
      var f := Split(data, room, printable);
      && |Print(boxes) + f.rest| == |data|
      && Split(Print(boxes) + f.rest, room, printable) == Forest(boxes, f.rest, f.ok)
  {
    hide ReadHeader, Print, Split, SameFrames;
    var f := Split(data, room, printable);
    if data == [] || room == 0 || ReadHeader(data, printable).Malformed? {
      SplitStops(data, room, printable, boxes);
      PrintNone();
      assert Print(boxes) + f.rest == data;
    } else {
      var r := ReadHeader(data, printable);
      var after := data[r.size..];
      var tail := Split(after, room - 1, printable);
      SplitStep(data, room, printable);
      assert f.boxes[1..] == tail.boxes;
      SameFramesTail(f.boxes, boxes);
      SplitReplaced(after, room - 1, printable, boxes[1..]);
      SplitCons(data, room, printable, boxes[0], Forest(boxes[1..], tail.rest, tail.ok));
      assert boxes == [boxes[0]] + boxes[1..];
    }
  }

  lemma {:induction false} SplitStops(data: seq<byte>, room: nat, printable: bool, boxes: seq<Box>)
    requires data == [] || room == 0 || ReadHeader(data, printable).Malformed?
    requires SameFrames(Split(data, room, printable).boxes, boxes)
    ensures boxes == [] && Split(data, room, printable) == Forest([], data, data == [])
  {
    hide ReadHeader;
  }

  lemma SplitStep(data: seq<byte>, room: nat, printable: bool)
    requires data != [] && room > 0 && ReadHeader(data, printable).Sized?
    ensures
      var r := ReadHeader(data, printable);
      var tail := Split(data[r.size..], room - 1, printable);
      Split(data, room, printable)
      == Forest([Box(data[..r.header], data[r.header..r.size])] + tail.boxes, tail.rest, tail.ok)
  {
    hide ReadHeader;
  }

  lemma PrintNone()
    ensures Print([]) == []
  {
  }

  // ---------- boxes are as long as they announce ----------

  /**
   A box of the standard: its size stands in its first four bytes, or after the type when these hold 1;
   a size of 0 lets the last box reach to the end.
   */
  predicate Announced(b: Box, last: bool, printable: bool) {
    var total := |b.header| + |b.payload|;
    && (printable ==> ValidBoxType(b.header[4..8]))
    && if |b.header| == 16 then Be32(b.header[..4]) == 1 && Be64(b.header[8..16]) == total
       else Be32(b.header[..4]) == total || (Be32(b.header[..4]) == 0 && last)
  }

  /** A header is read exactly where such a box stands. */
  lemma HeaderIff(data: seq<byte>, b: Box, tail: seq<byte>, printable: bool)
    requires data == (b.header + b.payload) + tail
    ensures ReadHeader(data, printable) == Sized(|b.header|, |b.header| + |b.payload|)
       <==> Announced(b, tail == [], printable)
  {
    hide Be32, Be64, ValidBoxType;
    assert data[..4] == b.header[..4] && data[4..8] == b.header[4..8];
    if |b.header| == 16 {
      assert data[8..16] == b.header[8..16];
    }
  }

  /** Both widths read the bytes as the digits of base 256, the most significant one first. */
  function BigEndian(s: seq<byte>): nat {
    if s == [] then 0 else 256 * BigEndian(s[..|s| - 1]) + s[|s| - 1]
  }

  lemma {:induction false} DigitsJoin(hi: seq<byte>, lo: seq<byte>)
    requires |lo| == 4
    ensures BigEndian(hi + lo) == TWO32 * BigEndian(hi) + Be32(lo)
  {
    var s := hi + lo;
    var n := |hi|;
    assert s[..n] == hi;
    assert s[..n + 1][..n] == s[..n];
    assert BigEndian(s[..n + 1]) == 256 * BigEndian(hi) + lo[0];
    assert s[..n + 2][..n + 1] == s[..n + 1];
    assert BigEndian(s[..n + 2]) == 256 * BigEndian(s[..n + 1]) + lo[1];
    assert s[..n + 3][..n + 2] == s[..n + 2];
    assert BigEndian(s[..n + 3]) == 256 * BigEndian(s[..n + 2]) + lo[2];
    assert s[..n + 4] == s;
    assert BigEndian(s) == 256 * BigEndian(s[..n + 3]) + lo[3];
  }

  lemma {:induction false} WidthsAgree(s: seq<byte>)
    ensures |s| == 4 ==> Be32(s) == BigEndian(s)
    ensures |s| == 8 ==> Be64(s) == BigEndian(s)
  {
    if |s| == 4 {
      DigitsJoin([], s);
      assert [] + s == s;
    }
    if |s| == 8 {
      DigitsJoin([], s[..4]);
      DigitsJoin(s[..4], s[4..]);
      assert [] + s[..4] == s[..4] && s[..4] + s[4..] == s;
    }
  }

  /** Every box of a region is announced, and what is left over does not begin with one. */
  lemma {:induction false} SplitAnnounced(data: seq<byte>, room: nat, printable: bool)
    ensures
      var f := Split(data, room, printable);
      && (forall k :: 0 <= k < |f.boxes| ==>
            Announced(f.boxes[k], k == |f.boxes| - 1 && f.rest == [], printable))
      && (f.ok <==> f.rest == [])
      && (|f.boxes| < room ==>
            forall b: Box, tail :: f.rest == (b.header + b.payload) + tail ==> !Announced(b, tail == [], printable))
  {
    hide ReadHeader, Announced;
    var f := Split(data, room, printable);
    if data == [] || room == 0 || ReadHeader(data, printable).Malformed? {
      forall b: Box, tail | f.rest == (b.header + b.payload) + tail && |f.boxes| < room
        ensures !Announced(b, tail == [], printable)
      {
        HeaderIff(f.rest, b, tail, printable);
        assert f.rest != [];
      }
    } else {
      var r := ReadHeader(data, printable);
      var b, after := Box(data[..r.header], data[r.header..r.size]), data[r.size..];
      SplitStep(data, room, printable);
      SplitAnnounced(after, room - 1, printable);
      assert data == (b.header + b.payload) + after;
      HeaderIff(data, b, after, printable);
      SplitEmpty(after, room - 1, printable);
      var tail := Split(after, room - 1, printable);
      forall k | 0 <= k < |f.boxes|
        ensures Announced(f.boxes[k], k == |f.boxes| - 1 && f.rest == [], printable)
      {
        if k > 0 {
          assert f.boxes[k] == tail.boxes[k - 1];
        }
      }
    }
  }

  lemma {:induction false} SplitEmpty(data: seq<byte>, room: nat, printable: bool)
    ensures
      var f := Split(data, room, printable);
      f.boxes == [] && f.rest == [] <==> data == []
  {
  }

  // ---------- the walk over the caller's buffer ----------

  /** A box of the buffer: its type and the half-open range of its payload. */
  datatype BoxRef = BoxRef(typ: u32, start: nat, end: nat)

  function EndOf(b: Box, at: nat): nat {
    at + |b.header| + |b.payload|
  }

  function RefAt(b: Box, at: nat): BoxRef {
    BoxRef(TypeOf(b.header), at + |b.header|, EndOf(b, at))
  }

  /** Where the boxes lie when the first of them begins at offset `at`. */
  function Layout(boxes: seq<Box>, at: nat): (refs: seq<BoxRef>)
    ensures |refs| == |boxes|
  {
    if boxes == [] then []
    else [RefAt(boxes[0], at)] + Layout(boxes[1..], EndOf(boxes[0], at))
  }

  lemma {:induction false} LayoutAt(boxes: seq<Box>, at: nat, k: nat)
    requires k < |boxes|
    ensures Layout(boxes, at)[k] == RefAt(boxes[k], at + |Print(boxes[..k])|)
  {
    if k == 0 {
      assert boxes[..0] == [];
    } else {
      LayoutAt(boxes[1..], EndOf(boxes[0], at), k - 1);
      assert boxes[..k] == [boxes[0]] + boxes[1..][..k - 1];
      PrintCons(boxes[0], boxes[1..][..k - 1]);
    }
  }

  lemma {:induction false} LayoutAppend(boxes: seq<Box>, b: Box, at: nat)
    ensures Layout(boxes + [b], at) == Layout(boxes, at) + [RefAt(b, at + |Print(boxes)|)]
  {
    hide RefAt;
    if boxes == [] {
      assert boxes + [b] == [b];
    } else {
      assert (boxes + [b])[1..] == boxes[1..] + [b];
      LayoutAppend(boxes[1..], b, EndOf(boxes[0], at));
    }
  }

  lemma {:induction false} PrintSnoc(boxes: seq<Box>, b: Box)
    ensures |Print(boxes + [b])| == |Print(boxes)| + |b.header| + |b.payload|
  {
    PrintAppend(boxes, [b]);
    PrintCons(b, []);
    assert [b] == [b] + [];
  }

  /** The state of a walk that reads `whole`, after the boxes `done`: `here` is what it has left to read. */
  ghost predicate Walked(whole: Forest, printable: bool, done: seq<Box>, here: seq<byte>, refs: seq<BoxRef>, lo: nat) {
    && |done| <= MAX_BOX_SIBLINGS
    && refs == Layout(done, lo)
    && var f := Split(here, MAX_BOX_SIBLINGS - |done|, printable);
       whole == Forest(done + f.boxes, f.rest, f.ok)
  }

  lemma {:induction false} WalkStarts(region: seq<byte>, printable: bool, lo: nat)
    ensures Walked(Split(region, MAX_BOX_SIBLINGS, printable), printable, [], region, [], lo)
  {
  }

  lemma {:induction false} WalkStops(whole: Forest, printable: bool, done: seq<Box>, here: seq<byte>,
      refs: seq<BoxRef>, lo: nat)
    requires Walked(whole, printable, done, here, refs, lo)
    requires here == [] || |done| >= MAX_BOX_SIBLINGS || ReadHeader(here, printable).Malformed?
    ensures refs == Layout(whole.boxes, lo) && whole.ok == (here == [])
  {
    assert done + [] == done;
  }

  lemma {:induction false} WalkSteps(whole: Forest, printable: bool, done: seq<Box>, here: seq<byte>,
      refs: seq<BoxRef>, lo: nat, b: Box)
    requires Walked(whole, printable, done, here, refs, lo)
    requires here != [] && |done| < MAX_BOX_SIBLINGS
    requires
      var r := ReadHeader(here, printable);
      r.Sized? && b == Box(here[..r.header], here[r.header..r.size])
    ensures
      var r := ReadHeader(here, printable);
      Walked(whole, printable, done + [b], here[r.size..], refs + [RefAt(b, lo + |Print(done)|)], lo)
  {
    var r := ReadHeader(here, printable);
    LayoutAppend(done, b, lo);
    var f := Split(here[r.size..], MAX_BOX_SIBLINGS - |done| - 1, printable);
    Concat3(done, b, f.boxes);
  }

  lemma Concat3(done: seq<Box>, b: Box, boxes: seq<Box>)
    ensures done + ([b] + boxes) == (done + [b]) + boxes
  {
  }

  /** The header at `data[p]`, read no further than `hi`. */
  method ReadHeaderAt(data: array<byte>, p: nat, hi: nat, printable: bool) returns (r: HeaderResult)
    requires p <= hi <= data.Length
    ensures r == ReadHeader(data[p..hi], printable)
  {
    ghost var here := data[p..hi];
    if p + 8 > hi {
      return Malformed;
    }
    var size := Be32(data[p..p + 4]);
    var typ := data[p + 4..p + 8];
    SubSlice(data[..], p, hi, 0, 4);
    SubSlice(data[..], p, hi, 4, 8);
    if printable && !ValidBoxType(typ) {
      return Malformed;
    }
    var header := 8;
    if size == 0 {
      size := hi - p;
    } else if size == 1 {
      if p + 16 > hi {
        return Malformed;
      }
      SubSlice(data[..], p, hi, 8, 16);
      size := Be64(data[p + 8..p + 16]);
      header := 16;
    }
    if size < header || size > hi - p {
      return Malformed;
    }
    return Sized(header, size);
  }

  /** One turn of the loop below, on the bytes `s` of the buffer. */
  lemma Turn(whole: Forest, printable: bool, done: seq<Box>, s: seq<byte>, p: nat, hi: nat, refs: seq<BoxRef>,
             lo: nat, r: HeaderResult)
    returns (b: Box)
    requires p < hi <= |s| && |done| < MAX_BOX_SIBLINGS
    requires r == ReadHeader(s[p..hi], printable) && r.Sized?
    requires p == lo + |Print(done)| && Walked(whole, printable, done, s[p..hi], refs, lo)
    ensures r.header <= r.size <= hi - p && |s[p + 4..p + 8]| == 4
    ensures p + r.size == lo + |Print(done + [b])|
    ensures
      var ref := BoxRef(Be32(s[p + 4..p + 8]), p + r.header, p + r.size);
      Walked(whole, printable, done + [b], s[p + r.size..hi], refs + [ref], lo)
  {
    hide Be32, Be64, Split, Walked, Print, Layout;
    var here := s[p..hi];
    b := Box(here[..r.header], here[r.header..r.size]);
    WalkSteps(whole, printable, done, here, refs, lo, b);
    PrintSnoc(done, b);
    SubSlice(s, p, hi, 0, r.header);
    SubSlice(s, p, p + r.header, 4, 8);
    SubSlice(s, p, hi, r.size, hi - p);
  }

  /** The walk over `data[lo..hi]`: the boxes of `Split`, as ranges of the buffer. */
  method ParseBoxList(data: array<byte>, lo: nat, hi: nat, printable: bool) returns (boxes: seq<BoxRef>, ok: bool)
    requires lo <= hi <= data.Length
    ensures
      var f := Split(data[lo..hi], MAX_BOX_SIBLINGS, printable);
      boxes == Layout(f.boxes, lo) && ok == f.ok
  {
    hide Split, ReadHeader, Walked, Be32, Be64, Layout, Print;
    boxes := [];
    var p := lo;
    ghost var s := data[..];
    ghost var whole := Split(s[lo..hi], MAX_BOX_SIBLINGS, printable);
    ghost var done: seq<Box> := [];
    assert data[lo..hi] == s[lo..hi];
    PrintNone();
    WalkStarts(s[lo..hi], printable, lo);
    while p < hi
      invariant lo <= p <= hi
      invariant |boxes| == |done|
      invariant p == lo + |Print(done)|
      invariant Walked(whole, printable, done, s[p..hi], boxes, lo)
    {
      if |boxes| >= MAX_BOX_SIBLINGS {
        WalkStops(whole, printable, done, s[p..hi], boxes, lo);
        return boxes, false;
      }
      var r := ReadHeaderAt(data, p, hi, printable);
      assert data[p..hi] == s[p..hi];
      if r == Malformed {
        WalkStops(whole, printable, done, s[p..hi], boxes, lo);
        return boxes, false;
      }
      ghost var b := Turn(whole, printable, done, s, p, hi, boxes, lo, r);
      boxes := boxes + [BoxRef(Be32(data[p + 4..p + 8]), p + r.header, p + r.size)];
      done := done + [b];
      p := p + r.size;
    }
    WalkStops(whole, printable, done, s[p..hi], boxes, lo);
    return boxes, true;
  }
}
