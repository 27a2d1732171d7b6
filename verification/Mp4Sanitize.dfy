/**
 What the location scrub does to an MP4 file, as a tree.

 `Outline` reads a file into the tree of boxes the scrub visits. Every byte the scrub leaves alone
 is in the tree; of the bytes it blanks, only their number is. `Render` writes a tree back, with
 zeros for the blanked bytes, so the scrubbed file is `Render(Outline(file))`.
 */
module Mp4Outline {
  import opened Bytes
  import opened Mp4Boxes

  const MAX_BOX_DEPTH: nat := 8

  const MOOV: u32 := 0x6D6F_6F76
  const TRAK: u32 := 0x7472_616B
  const MDIA: u32 := 0x6D64_6961
  const MINF: u32 := 0x6D69_6E66
  const STBL: u32 := 0x7374_626C
  const META: u32 := 0x6D65_7461
  const KEYS: u32 := 0x6B65_7973
  const ILST: u32 := 0x696C_7374
  const DATA: u32 := 0x6461_7461

  /** Boxes whose payload is a list of boxes; any other box is a leaf. */
  predicate IsContainer(typ: u32) {
    typ in {MOOV, TRAK, MDIA, MINF, STBL,
            0x7564_7461 /* udta */, 0x6564_7473 /* edts */, 0x6D6F_6F66 /* moof */, 0x7472_6166 /* traf */}
  }

  /** Boxes that hold coordinates or identify the device; 0xA9 is the marker Apple's names start with. */
  predicate IsPrivacyBox(typ: u32) {
    typ in {0xA978_797A /* .xyz */, 0x6C6F_6369 /* loci */, 0x6770_7320 /* gps */, 0xA96D_616B /* .mak */,
            0xA96D_6F64 /* .mod */, 0xA973_7772 /* .swr */, 0xA974_6F6F /* .too */, 0xA964_6179 /* .day */}
  }

  // ---------- names of metadata entries ----------

  /** `strings.ToLower`, which is not part of this model. */
  type Fold = seq<byte> -> seq<byte>

  function Ascii(s: string): seq<byte> {
    seq(|s|, i requires 0 <= i < |s| => if s[i] < 128 as char then s[i] as int else 0)
  }

  predicate Contains(s: seq<byte>, token: seq<byte>) {
    token <= s || (s != [] && Contains(s[1..], token))
  }

  const PRIVACY_TOKENS: seq<seq<byte>> :=
    [Ascii("location"), Ascii("make"), Ascii("model"), Ascii("software"), Ascii("creationdate")]

  predicate PrivacyKey(key: seq<byte>, fold: Fold) {
    key != [] && exists i :: 0 <= i < |PRIVACY_TOKENS| && Contains(fold(key), PRIVACY_TOKENS[i])
  }

  /** The index of the first box of a type, or the number of boxes when there is none. */
  function FindBox(boxes: seq<Box>, typ: u32): (k: nat)
    ensures k <= |boxes|
    ensures k < |boxes| ==> TypeOf(boxes[k].header) == typ
    ensures forall j :: 0 <= j < k ==> TypeOf(boxes[j].header) != typ
  {
    if boxes == [] || TypeOf(boxes[0].header) == typ then 0 else 1 + FindBox(boxes[1..], typ)
  }

  /** The next `count` names of a keys table, up to the first malformed one. */
  function KeyNames(data: seq<byte>, count: nat): (keys: seq<seq<byte>>)
    ensures |keys| <= count
  {
    if count == 0 || |data| < 8 then []
    else
      var size := Be32(data[..4]);
      if size < 8 || size > |data| then [] else [data[8..size]] + KeyNames(data[size..], count - 1)
  }

  /** The key names of a meta box, in index order. */
  function MetadataKeys(kids: seq<Box>): seq<seq<byte>> {
    var k := FindBox(kids, KEYS);
    if k == |kids| || |kids[k].payload| < 8 then []
    else
      var count := Be32(kids[k].payload[4..8]);
      if count > MAX_BOX_SIBLINGS then [] else KeyNames(kids[k].payload[8..], count)
  }

  predicate LooksLikeBoxHeader(data: seq<byte>) {
    |data| >= 8 && 8 <= Be32(data[..4]) <= |data| && ValidBoxType(data[4..8])
  }

  datatype MetaStart = NoChildren | StartsAt(offset: nat)

  /** Where the children of a meta box begin: at once (QuickTime), or after version and flags (ISO). */
  function ChildrenOf(payload: seq<byte>): (m: MetaStart)
    ensures m.StartsAt? ==> m.offset <= |payload|
  {
    if LooksLikeBoxHeader(payload) then StartsAt(0)
    else if |payload| >= 4 && LooksLikeBoxHeader(payload[4..]) then StartsAt(4)
    else NoChildren
  }

  /** The entry of an item list is named by an index into the keys, or directly by its type. */
  predicate PrivateEntry(typ: u32, keys: seq<seq<byte>>, fold: Fold) {
    (1 <= typ <= |keys| && PrivacyKey(keys[typ - 1], fold)) || IsPrivacyBox(typ)
  }

  // ---------- the walk ----------

  /** The list of boxes the walk is in. */
  datatype Level =
    | Container(depth: nat)
    | MetaKids
    | ItemList(keys: seq<seq<byte>>)
    | Entry

  /** How many more levels a walk can go down. */
  function Rank(level: Level): nat {
    match level
    case Container(d) => if d < MAX_BOX_DEPTH then 3 + (MAX_BOX_DEPTH - d) else 3
    case MetaKids => 2
    case ItemList(_) => 1
    case Entry => 0
  }

  /** What the walk does with a box: leave it, blank it, blank all but 8 bytes of it, or go into it. */
  datatype Role = Keep | Wipe | WipeValue | Open(skip: nat, level: Level)

  function RoleOf(boxes: seq<Box>, i: nat, level: Level, fold: Fold): (r: Role)
    requires i < |boxes|
    requires level.Container? ==> level.depth < MAX_BOX_DEPTH
    ensures r.WipeValue? ==> |boxes[i].payload| > 8
    ensures r.Open? ==> r.skip <= |boxes[i].payload| && Rank(r.level) < Rank(level)
  {
    var typ, payload := TypeOf(boxes[i].header), boxes[i].payload;
    match level
    case Container(depth) =>
      if IsPrivacyBox(typ) then Wipe
      else if typ == META then
        var start := ChildrenOf(payload);
        if start.StartsAt? then Open(start.offset, MetaKids) else Keep
      else if IsContainer(typ) then Open(0, Container(depth + 1))
      else Keep
    case MetaKids =>
      if FindBox(boxes, ILST) == i then Open(0, ItemList(MetadataKeys(boxes))) else Keep
    case ItemList(keys) =>
      if PrivateEntry(typ, keys, fold) then Open(0, Entry) else Keep
    case Entry =>
      if typ == DATA && |payload| > 8 then WipeValue else Keep
  }

  /** The boxes of a region; below the depth cap the walk does not look for any. */
  function Region(data: seq<byte>, level: Level): (f: Forest)
    ensures f.boxes != [] && level.Container? ==> level.depth < MAX_BOX_DEPTH
  {
    if level.Container? && level.depth >= MAX_BOX_DEPTH then Forest([], data, false)
    else Split(data, MAX_BOX_SIBLINGS, !level.ItemList?)
  }

  datatype Tree = Tree(nodes: seq<Node>, rest: seq<byte>, ok: bool)

  datatype Node =
    | Kept(header: Header, payload: seq<byte>)
    | Wiped(header: Header, size: nat)
    | ValueWiped(header: Header, prefix: seq<byte>, size: nat)
    | Opened(header: Header, prefix: seq<byte>, kids: Tree)

  function Outline(data: seq<byte>, level: Level, fold: Fold): (t: Tree)
    decreases Rank(level), 2, 0
  {
    var f := Region(data, level);
    Tree(OutlineBoxes(f.boxes, 0, level, fold), f.rest, f.ok)
  }

  function OutlineBoxes(boxes: seq<Box>, k: nat, level: Level, fold: Fold): (nodes: seq<Node>)
    requires k <= |boxes|
    requires boxes != [] && level.Container? ==> level.depth < MAX_BOX_DEPTH
    ensures |nodes| == |boxes| - k
    ensures forall i :: 0 <= i < |nodes| ==> nodes[i] == OutlineBox(boxes, k + i, level, fold)
    decreases Rank(level), 1, |boxes| - k
  {
    if k == |boxes| then []
    else [OutlineBox(boxes, k, level, fold)] + OutlineBoxes(boxes, k + 1, level, fold)
  }

  function OutlineBox(boxes: seq<Box>, i: nat, level: Level, fold: Fold): Node
    requires i < |boxes|
    requires level.Container? ==> level.depth < MAX_BOX_DEPTH
    decreases Rank(level), 0, 0
  {
    var b := boxes[i];
    match RoleOf(boxes, i, level, fold)
    case Keep => Kept(b.header, b.payload)
    case Wipe => Wiped(b.header, |b.payload|)
    case WipeValue => ValueWiped(b.header, b.payload[..8], |b.payload| - 8)
    case Open(skip, inner) => Opened(b.header, b.payload[..skip], Outline(b.payload[skip..], inner, fold))
  }

  function Render(t: Tree): seq<byte>
    decreases t, 0
  {
    Print(RenderNodes(t.nodes)) + t.rest
  }

  function RenderNodes(nodes: seq<Node>): (boxes: seq<Box>)
    ensures |boxes| == |nodes|
    ensures forall i :: 0 <= i < |nodes| ==> boxes[i] == Box(nodes[i].header, RenderPayload(nodes[i]))
    decreases nodes, 1
  {
    if nodes == [] then []
    else [Box(nodes[0].header, RenderPayload(nodes[0]))] + RenderNodes(nodes[1..])
  }

  function RenderPayload(node: Node): seq<byte>
    decreases node, 0
  {
    match node
    case Kept(_, payload) => payload
    case Wiped(_, size) => Zeros(size)
    case ValueWiped(_, prefix, size) => prefix + Zeros(size)
    case Opened(_, prefix, kids) => prefix + Render(kids)
  }

  /** The scrubbed region. */
  function Scrub(data: seq<byte>, level: Level, fold: Fold): seq<byte> {
    Render(Outline(data, level, fold))
  }

  /** The boxes of a region after the scrub. */
  function ScrubBoxes(boxes: seq<Box>, level: Level, fold: Fold): (scrubbed: seq<Box>)
    requires boxes != [] && level.Container? ==> level.depth < MAX_BOX_DEPTH
  {
    RenderNodes(OutlineBoxes(boxes, 0, level, fold))
  }

  function ScrubPayload(boxes: seq<Box>, i: nat, level: Level, fold: Fold): seq<byte>
    requires i < |boxes|
    requires level.Container? ==> level.depth < MAX_BOX_DEPTH
  {
    RenderPayload(OutlineBox(boxes, i, level, fold))
  }

  // ---------- nothing moves ----------

  lemma ScrubBoxesAt(boxes: seq<Box>, level: Level, fold: Fold, i: nat)
    requires i < |boxes|
    requires level.Container? ==> level.depth < MAX_BOX_DEPTH
    ensures |ScrubBoxes(boxes, level, fold)| == |boxes|
    ensures ScrubBoxes(boxes, level, fold)[i] == Box(boxes[i].header, ScrubPayload(boxes, i, level, fold))
  {
  }

  lemma {:induction false} ScrubSameLength(data: seq<byte>, level: Level, fold: Fold)
    ensures |Scrub(data, level, fold)| == |data|
    ensures
      var f := Region(data, level);
      SameFrames(f.boxes, ScrubBoxes(f.boxes, level, fold))
    decreases Rank(level), 2
  {
    hide Region, OutlineBox;
    var f := Region(data, level);
    var scrubbed := ScrubBoxes(f.boxes, level, fold);
    forall i | 0 <= i < |f.boxes| ensures SameFrame(f.boxes[i], scrubbed[i]) {
      ScrubSameFrame(f.boxes, i, level, fold);
    }
    PrintSameLength(f.boxes, scrubbed);
    RegionPrints(data, level);
  }

  lemma RegionPrints(data: seq<byte>, level: Level)
    ensures
      var f := Region(data, level);
      Print(f.boxes) + f.rest == data
  {
    if level.Container? && level.depth >= MAX_BOX_DEPTH {
      PrintNone();
    } else {
      SplitPrints(data, MAX_BOX_SIBLINGS, !level.ItemList?);
    }
  }

  lemma {:induction false} ScrubSameFrame(boxes: seq<Box>, i: nat, level: Level, fold: Fold)
    requires i < |boxes|
    requires level.Container? ==> level.depth < MAX_BOX_DEPTH
    ensures SameFrame(boxes[i], Box(boxes[i].header, ScrubPayload(boxes, i, level, fold)))
    ensures OutlineBox(boxes, i, level, fold).header == boxes[i].header
    decreases Rank(level), 1
  {
    hide RoleOf, Region, Outline, Render;
    var role := RoleOf(boxes, i, level, fold);
    if role.Open? {
      ScrubSameLength(boxes[i].payload[role.skip..], role.level, fold);
    }
  }

  // ---------- a second walk sees what the first one saw ----------

  lemma {:induction false} FindSameFrames(a: seq<Box>, b: seq<Box>, typ: u32)
    requires SameFrames(a, b)
    ensures FindBox(a, typ) == FindBox(b, typ)
  {
    hide TypeOf;
    if a != [] {
      SameFramesTail(a, b);
      FindSameFrames(a[1..], b[1..], typ);
    }
  }

  /** The header of a region's first box stays in place. */
  lemma ScrubKeepsFirstHeader(data: seq<byte>, level: Level, fold: Fold)
    requires level == MetaKids && LooksLikeBoxHeader(data)
    ensures |Scrub(data, level, fold)| == |data| && Scrub(data, level, fold)[..8] == data[..8]
  {
    hide OutlineBox, Be32, Be64;
    var f := Region(data, level);
    ScrubSameLength(data, level, fold);
    var scrubbed := ScrubBoxes(f.boxes, level, fold);
    assert SameFrame(f.boxes[0], scrubbed[0]);
  }

  /** Where the children of a meta box begin does not change when they are scrubbed. */
  lemma ScrubKeepsChildren(payload: seq<byte>, fold: Fold)
    requires ChildrenOf(payload).StartsAt?
    ensures
      var o := ChildrenOf(payload).offset;
      ChildrenOf(payload[..o] + Scrub(payload[o..], MetaKids, fold)) == ChildrenOf(payload)
  {
    hide Scrub, Be32;
    var o := ChildrenOf(payload).offset;
    var kids := payload[o..];
    var kids' := Scrub(kids, MetaKids, fold);
    var payload' := payload[..o] + kids';
    assert o == 0 ==> kids == payload;
    ScrubKeepsFirstHeader(kids, MetaKids, fold);
    assert payload'[o..] == kids';
    if o == 4 {
      assert payload'[..4] == payload[..4];
      assert payload'[4..8] == kids'[..8][..4] == kids[..8][..4] == payload[4..8];
    } else {
      assert payload' == kids';
    }
    SameHeaderLooksSame(kids, kids');
  }

  lemma SameHeaderLooksSame(a: seq<byte>, b: seq<byte>)
    requires |a| == |b| >= 8 && a[..8] == b[..8]
    ensures LooksLikeBoxHeader(a) == LooksLikeBoxHeader(b)
  {
    assert a[..4] == a[..8][..4] && b[..4] == b[..8][..4];
    assert a[4..8] == a[..8][4..8] && b[4..8] == b[..8][4..8];
  }

  /** The boxes `after` are `before` with each payload scrubbed. */
  ghost predicate Scrubbed(before: seq<Box>, after: seq<Box>, level: Level, fold: Fold)
    requires before != [] && level.Container? ==> level.depth < MAX_BOX_DEPTH
  {
    && SameFrames(before, after)
    && forall i :: 0 <= i < |before| ==> after[i].payload == ScrubPayload(before, i, level, fold)
  }

  lemma ScrubKeepsKeys(before: seq<Box>, after: seq<Box>, fold: Fold)
    requires Scrubbed(before, after, MetaKids, fold)
    ensures MetadataKeys(after) == MetadataKeys(before)
  {
    hide KeyNames;
    FindSameFrames(before, after, KEYS);
    FindSameFrames(before, after, ILST);
    var k := FindBox(before, KEYS);
    if k < |before| {
      assert after[k].payload == ScrubPayload(before, k, MetaKids, fold);
    }
  }

  /** The walk does with every box of a scrubbed region what it did before the scrub. */
  lemma ScrubKeepsRole(before: seq<Box>, after: seq<Box>, i: nat, level: Level, fold: Fold)
    requires i < |before|
    requires level.Container? ==> level.depth < MAX_BOX_DEPTH
    requires Scrubbed(before, after, level, fold)
    ensures RoleOf(after, i, level, fold) == RoleOf(before, i, level, fold)
  {
    hide IsPrivacyBox, IsContainer, ChildrenOf, MetadataKeys, TypeOf, PrivateEntry, Render, Outline;
    assert SameFrame(before[i], after[i]);
    assert after[i].payload == ScrubPayload(before, i, level, fold);
    match level
    case Container(depth) =>
      var payload := before[i].payload;
      var typ := TypeOf(before[i].header);
      if !IsPrivacyBox(typ) && typ == META && ChildrenOf(payload).StartsAt? {
        ScrubKeepsChildren(payload, fold);
      }
    case MetaKids =>
      FindSameFrames(before, after, ILST);
      ScrubKeepsKeys(before, after, fold);
    case ItemList(_) =>
    case Entry =>
  }

  /**
   Scrubbing moves no byte and keeps every box header and every other byte the walk leaves alone, at
   every level: the scrubbed file has the outline of the original.
   */
  lemma {:induction false} OutlineOfScrub(data: seq<byte>, level: Level, fold: Fold)
    ensures |Scrub(data, level, fold)| == |data|
    ensures Region(Scrub(data, level, fold), level)
         == var f := Region(data, level); Forest(ScrubBoxes(f.boxes, level, fold), f.rest, f.ok)
    ensures Outline(Scrub(data, level, fold), level, fold) == Outline(data, level, fold)
    decreases Rank(level), 1
  {
    hide Split, OutlineBox, Print;
    var f := Region(data, level);
    var after := ScrubBoxes(f.boxes, level, fold);
    ScrubSameLength(data, level, fold);
    if level.Container? && level.depth >= MAX_BOX_DEPTH {
      PrintNone();
    } else {
      SplitReplaced(data, MAX_BOX_SIBLINGS, !level.ItemList?, after);
      forall i | 0 <= i < |f.boxes|
        ensures OutlineBox(after, i, level, fold) == OutlineBox(f.boxes, i, level, fold)
      {
        OutlineOfScrubbedBox(f.boxes, after, i, level, fold);
      }
      assert OutlineBoxes(after, 0, level, fold) == OutlineBoxes(f.boxes, 0, level, fold);
    }
  }

  lemma {:induction false} OutlineOfScrubbedBox(before: seq<Box>, after: seq<Box>, i: nat, level: Level, fold: Fold)
    requires i < |before|
    requires level.Container? ==> level.depth < MAX_BOX_DEPTH
    requires Scrubbed(before, after, level, fold)
    ensures OutlineBox(after, i, level, fold) == OutlineBox(before, i, level, fold)
    decreases Rank(level), 0
  {
    hide RoleOf, Outline, Render;
    ScrubKeepsRole(before, after, i, level, fold);
    assert SameFrame(before[i], after[i]);
    assert after[i].payload == ScrubPayload(before, i, level, fold);
    var role := RoleOf(before, i, level, fold);
    var payload := before[i].payload;
    if role.Open? {
      OutlineOfScrub(payload[role.skip..], role.level, fold);
      var prefix := payload[..role.skip];
      assert after[i].payload[..role.skip] == prefix;
      assert after[i].payload[role.skip..] == Scrub(payload[role.skip..], role.level, fold);
    } else if role.WipeValue? {
      assert after[i].payload[..8] == payload[..8];
    }
  }

  /** Scrubbing twice is scrubbing once. */
  lemma ScrubTwice(data: seq<byte>, level: Level, fold: Fold)
    ensures Scrub(Scrub(data, level, fold), level, fold) == Scrub(data, level, fold)
  {
    OutlineOfScrub(data, level, fold);
  }

  // ---------- what is blanked, and nothing else ----------

  /** Every byte a walk over `data` is there to blank is zero. */
  ghost predicate Clean(data: seq<byte>, level: Level, fold: Fold)
    decreases Rank(level)
  {
    var boxes := Region(data, level).boxes;
    forall i :: 0 <= i < |boxes| ==>
      match RoleOf(boxes, i, level, fold)
      case Keep => true
      case Wipe => AllZero(boxes[i].payload)
      case WipeValue => AllZero(boxes[i].payload[8..])
      case Open(skip, inner) => Clean(boxes[i].payload[skip..], inner, fold)
  }

  /** After the scrub, every privacy box and every private value the walk reaches is blank. */
  lemma {:induction false} ScrubCleans(data: seq<byte>, level: Level, fold: Fold)
    ensures Clean(Scrub(data, level, fold), level, fold)
    decreases Rank(level)
  {
    hide Outline, Render, RoleOf, Region;
    OutlineOfScrub(data, level, fold);
    ScrubSameLength(data, level, fold);
    var f := Region(data, level);
    var after := ScrubBoxes(f.boxes, level, fold);
    forall i | 0 <= i < |after|
      ensures
        match RoleOf(after, i, level, fold)
        case Keep => true
        case Wipe => AllZero(after[i].payload)
        case WipeValue => AllZero(after[i].payload[8..])
        case Open(skip, inner) => Clean(after[i].payload[skip..], inner, fold)
    {
      ScrubKeepsRole(f.boxes, after, i, level, fold);
      var role, payload := RoleOf(f.boxes, i, level, fold), f.boxes[i].payload;
      assert after[i].payload == ScrubPayload(f.boxes, i, level, fold);
      if role.Open? {
        ScrubCleans(payload[role.skip..], role.level, fold);
        assert after[i].payload[role.skip..] == Scrub(payload[role.skip..], role.level, fold);
      } else if role.WipeValue? {
        assert after[i].payload[8..] == Zeros(|payload| - 8);
      }
    }
  }

  /** Is byte `i` of the region one the walk blanks? */
  predicate Target(data: seq<byte>, level: Level, fold: Fold, i: nat)
    decreases Rank(level), 1, 0
  {
    TargetFrom(Region(data, level).boxes, 0, level, fold, i)
  }

  /** The same for the bytes of the boxes from the `k`-th on, counted from the first of those bytes. */
  predicate TargetFrom(boxes: seq<Box>, k: nat, level: Level, fold: Fold, i: nat)
    requires k <= |boxes|
    requires boxes != [] && level.Container? ==> level.depth < MAX_BOX_DEPTH
    decreases Rank(level), 0, |boxes| - k
  {
    if k == |boxes| then false
    else
      var h, n := |boxes[k].header|, |boxes[k].payload|;
      if i < h then false
      else if i >= h + n then TargetFrom(boxes, k + 1, level, fold, i - h - n)
      else
        match RoleOf(boxes, k, level, fold)
        case Keep => false
        case Wipe => true
        case WipeValue => i - h >= 8
        case Open(skip, inner) => i - h >= skip && Target(boxes[k].payload[skip..], inner, fold, i - h - skip)
  }

  /** The scrub zeroes exactly the bytes the walk blanks; every other byte stays as it was. */
  lemma {:induction false} ScrubZeroesTargets(data: seq<byte>, level: Level, fold: Fold, i: nat)
    requires i < |data|
    ensures |Scrub(data, level, fold)| == |data|
    ensures Scrub(data, level, fold)[i] == if Target(data, level, fold, i) then 0 else data[i]
    decreases Rank(level), 1, 0
  {
    hide Region, OutlineBox;
    var f := Region(data, level);
    ScrubSameLength(data, level, fold);
    RegionPrints(data, level);
    var after := ScrubBoxes(f.boxes, level, fold);
    assert f.boxes[0..] == f.boxes && after[0..] == after;
    ScrubZeroesFrom(f.boxes, after, 0, level, fold, f.rest, i);
  }

  lemma {:induction false} ScrubZeroesFrom(before: seq<Box>, after: seq<Box>, k: nat, level: Level, fold: Fold,
      rest: seq<byte>, i: nat)
    requires k <= |before|
    requires before != [] && level.Container? ==> level.depth < MAX_BOX_DEPTH
    requires Scrubbed(before, after, level, fold)
    requires i < |Print(before[k..]) + rest|
    ensures |Print(after[k..]) + rest| == |Print(before[k..]) + rest|
    ensures (Print(after[k..]) + rest)[i]
         == if TargetFrom(before, k, level, fold, i) then 0 else (Print(before[k..]) + rest)[i]
    decreases Rank(level), 0, |before| - k
  {
    hide RoleOf, Region, Outline, Render, Print, OutlineBox;
    assert SameFrames(before[k..], after[k..]) by {
      forall j | 0 <= j < |before| - k ensures SameFrame(before[k..][j], after[k..][j]) {
        assert SameFrame(before[k + j], after[k + j]);
      }
    }
    PrintSameLength(before[k..], after[k..]);
    if k == |before| {
      assert before[k..] == [] && after[k..] == [];
    } else {
      var b, b' := before[k], after[k];
      var h, n := |b.header|, |b.payload|;
      assert SameFrame(b, b');
      assert before[k..] == [b] + before[k + 1..] && after[k..] == [b'] + after[k + 1..];
      PrintCons(b, before[k + 1..]);
      PrintCons(b', after[k + 1..]);
      if i >= h + n {
        ScrubZeroesFrom(before, after, k + 1, level, fold, rest, i - h - n);
      } else if i >= h {
        assert (Print(before[k..]) + rest)[i] == b.payload[i - h];
        assert (Print(after[k..]) + rest)[i] == b'.payload[i - h];
        ScrubZeroesPayload(before, k, level, fold, i - h);
      }
    }
  }

  lemma {:induction false} ScrubZeroesPayload(before: seq<Box>, k: nat, level: Level, fold: Fold, i: nat)
    requires k < |before| && i < |before[k].payload|
    requires level.Container? ==> level.depth < MAX_BOX_DEPTH
    ensures |ScrubPayload(before, k, level, fold)| == |before[k].payload|
    ensures ScrubPayload(before, k, level, fold)[i]
         == if TargetFrom(before, k, level, fold, |before[k].header| + i) then 0 else before[k].payload[i]
    decreases Rank(level), 0, 0
  {
    hide RoleOf, Region, Outline, Render, Print;
    ScrubSameFrame(before, k, level, fold);
    var role, payload := RoleOf(before, k, level, fold), before[k].payload;
    if role.Open? && i >= role.skip {
      ScrubZeroesTargets(payload[role.skip..], role.level, fold, i - role.skip);
    }
  }
}

/**
 The location scrub itself: it walks the caller's buffer and blanks payloads in place.

 Every method here rewrites one range of the buffer to the `Scrub` of what the range held, and
 leaves the rest of the buffer as it was.
 */
module Mp4Strip {
  import opened Bytes
  import opened Mp4Boxes
  import opened Mp4Outline

  /** A box with another payload of the same length. */
  lemma {:induction false} PrintUpdate(boxes: seq<Box>, k: nat, payload: seq<byte>, rest: seq<byte>)
    requires k < |boxes| && |payload| == |boxes[k].payload|
    ensures
      var at := |Print(boxes[..k])| + |boxes[k].header|;
      var s := Print(boxes) + rest;
      && at + |payload| <= |s|
      && s[at..at + |payload|] == boxes[k].payload
      && Print(boxes[k := Box(boxes[k].header, payload)]) + rest == Splice(s, at, at + |payload|, payload)
  {
    var b := Box(boxes[k].header, payload);
    PrintAround(boxes, k);
    PrintAround(boxes[k := b], k);
    assert boxes[k := b][..k] == boxes[..k] && boxes[k := b][k + 1..] == boxes[k + 1..];
    hide Print, Splice;
    CutBox(Print(boxes[..k]), b.header, boxes[k].payload, Print(boxes[k + 1..]), rest, payload);
  }

  lemma {:induction false} PrintAround(boxes: seq<Box>, k: nat)
    requires k < |boxes|
    ensures Print(boxes) == Print(boxes[..k]) + ((boxes[k].header + boxes[k].payload) + Print(boxes[k + 1..]))
  {
    hide Print;
    var tail := [boxes[k]] + boxes[k + 1..];
    BoxesAround(boxes, k);
    PrintAppend(boxes[..k], tail);
    PrintCons(boxes[k], boxes[k + 1..]);
  }

  lemma BoxesAround(boxes: seq<Box>, k: nat)
    requires k < |boxes|
    ensures boxes == boxes[..k] + ([boxes[k]] + boxes[k + 1..])
  {
  }

  lemma CutBox(before: seq<byte>, header: seq<byte>, payload: seq<byte>, after: seq<byte>, rest: seq<byte>,
               new': seq<byte>)
    requires |new'| == |payload|
    ensures
      var s := before + ((header + payload) + after) + rest;
      var at := |before| + |header|;
      && s[at..at + |payload|] == payload
      && before + ((header + new') + after) + rest == Splice(s, at, at + |payload|, new')
  {
    var s := before + ((header + payload) + after) + rest;
    var at := |before| + |header|;
    assert s == (before + header) + (payload + (after + rest));
    assert s[..at] == before + header;
    assert s[at + |payload|..] == after + rest;
  }

  lemma {:induction false} LayoutSame(a: seq<Box>, b: seq<Box>, at: nat)
    requires SameFrames(a, b)
    ensures Layout(a, at) == Layout(b, at)
  {
    if a != [] {
      SameFramesTail(a, b);
      LayoutSame(a[1..], b[1..], EndOf(a[0], at));
    }
  }

  /** The buffer `was`, with the boxes of the range `[lo, hi)` now holding the payloads of `boxes`. */
  ghost predicate Holds(now: seq<byte>, was: seq<byte>, lo: nat, hi: nat, boxes: seq<Box>, rest: seq<byte>) {
    && lo <= hi <= |was|
    && |Print(boxes) + rest| == hi - lo
    && now == Splice(was, lo, hi, Print(boxes) + rest)
  }

  /** What a box reference of the range stands for, and what rewriting its payload does. */
  lemma {:induction false} RewriteBox(now: seq<byte>, was: seq<byte>, lo: nat, hi: nat, boxes: seq<Box>,
      rest: seq<byte>, k: nat, payload: seq<byte>)
    requires Holds(now, was, lo, hi, boxes, rest)
    requires k < |boxes| && |payload| == |boxes[k].payload|
    ensures
      var ref := Layout(boxes, lo)[k];
      && ref.typ == TypeOf(boxes[k].header)
      && lo <= ref.start <= ref.end <= hi <= |now| && ref.end - ref.start == |payload|
      && now[ref.start..ref.end] == boxes[k].payload
      && Holds(Splice(now, ref.start, ref.end, payload), was, lo, hi, boxes[k := Box(boxes[k].header, payload)], rest)
  {
    hide Print, Splice, TypeOf, Layout;
    var at := |Print(boxes[..k])| + |boxes[k].header|;
    LayoutAt(boxes, lo, k);
    PrintUpdate(boxes, k, payload, rest);
    SpliceInside(was, lo, hi, Print(boxes) + rest, at, at + |payload|, payload);
    SpliceLength(Print(boxes) + rest, at, at + |payload|, payload);
  }

  // ---------- the state of a loop over the boxes of a range ----------

  /** The first `k` boxes of the range are scrubbed, the others as they were. */
  ghost predicate Halfway(now: seq<byte>, was: seq<byte>, lo: nat, hi: nat, f: Forest, level: Level, fold: Fold,
                          cur: seq<Box>, k: nat)
    requires f.boxes != [] && level.Container? ==> level.depth < MAX_BOX_DEPTH
  {
    && Holds(now, was, lo, hi, cur, f.rest)
    && SameFrames(f.boxes, cur)
    && k <= |cur|
    && cur[..k] == ScrubBoxes(f.boxes, level, fold)[..k]
    && cur[k..] == f.boxes[k..]
  }

  lemma Start(was: seq<byte>, lo: nat, hi: nat, level: Level, fold: Fold)
    requires lo <= hi <= |was|
    ensures
      var f := Region(was[lo..hi], level);
      Halfway(was, was, lo, hi, f, level, fold, f.boxes, 0)
  {
    hide Region, OutlineBox, ScrubBoxes, Print;
    RegionPrints(was[lo..hi], level);
    SpliceSame(was, lo, hi);
    ScrubSameLength(was[lo..hi], level, fold);
  }

  /** The `k`-th box in the middle of the loop, and what scrubbing it in place does. */
  lemma Step(now: seq<byte>, was: seq<byte>, lo: nat, hi: nat, f: Forest, level: Level, fold: Fold, cur: seq<Box>,
             k: nat)
    returns (next: seq<Box>)
    requires k < |f.boxes|
    requires level.Container? ==> level.depth < MAX_BOX_DEPTH
    requires Halfway(now, was, lo, hi, f, level, fold, cur, k)
    ensures
      var ref := Layout(f.boxes, lo)[k];
      && ref.typ == TypeOf(f.boxes[k].header)
      && ref.start <= ref.end <= |now|
      && now[ref.start..ref.end] == f.boxes[k].payload
      && |ScrubPayload(f.boxes, k, level, fold)| == |f.boxes[k].payload|
      && Halfway(Splice(now, ref.start, ref.end, ScrubPayload(f.boxes, k, level, fold)),
                 was, lo, hi, f, level, fold, next, k + 1)
  {
    hide Region, OutlineBox, ScrubBoxes, Print, Layout, TypeOf, Holds, Splice, RenderPayload, ScrubPayload;
    var payload := ScrubPayload(f.boxes, k, level, fold);
    ScrubSameFrame(f.boxes, k, level, fold);
    LayoutSame(f.boxes, cur, lo);
    assert cur[k] == cur[k..][0] == f.boxes[k];
    RewriteBox(now, was, lo, hi, cur, f.rest, k, payload);
    var b := Box(f.boxes[k].header, payload);
    next := cur[k := b];
    ScrubBoxesAt(f.boxes, level, fold, k);
    var scrubbed := ScrubBoxes(f.boxes, level, fold);
    assert next[..k + 1] == cur[..k] + [b] == scrubbed[..k] + [scrubbed[k]] == scrubbed[..k + 1];
    assert next[k + 1..] == cur[k..][1..] == f.boxes[k..][1..] == f.boxes[k + 1..];
    forall i | 0 <= i < |next| ensures SameFrame(f.boxes[i], next[i]) {
      assert SameFrame(f.boxes[i], cur[i]);
    }
  }

  lemma Finish(now: seq<byte>, was: seq<byte>, lo: nat, hi: nat, level: Level, fold: Fold, cur: seq<Box>)
    requires lo <= hi <= |was|
    requires
      var f := Region(was[lo..hi], level);
      Halfway(now, was, lo, hi, f, level, fold, cur, |f.boxes|)
    ensures now == Splice(was, lo, hi, Scrub(was[lo..hi], level, fold))
  {
    hide Region, OutlineBox, Print, Splice, RenderNodes;
    var f := Region(was[lo..hi], level);
    ScrubSameLength(was[lo..hi], level, fold);
    var scrubbed := ScrubBoxes(f.boxes, level, fold);
    assert cur == cur[..|f.boxes|] == scrubbed[..|f.boxes|] == scrubbed;
  }

  // ---------- what the walk makes of one box ----------

  lemma EntryPayload(boxes: seq<Box>, k: nat, fold: Fold)
    requires k < |boxes|
    ensures
      var payload := boxes[k].payload;
      ScrubPayload(boxes, k, Entry, fold)
      == if TypeOf(boxes[k].header) == DATA && |payload| > 8 then payload[..8] + Zeros(|payload| - 8) else payload
  {
  }

  lemma ItemPayload(boxes: seq<Box>, k: nat, keys: seq<seq<byte>>, fold: Fold)
    requires k < |boxes|
    ensures
      var payload := boxes[k].payload;
      ScrubPayload(boxes, k, ItemList(keys), fold)
      == if PrivateEntry(TypeOf(boxes[k].header), keys, fold) then Scrub(payload, Entry, fold) else payload
  {
    hide PrivateEntry, TypeOf, Outline, Render;
    var payload := boxes[k].payload;
    assert payload[0..] == payload;
    assert payload[..0] + Scrub(payload, Entry, fold) == Scrub(payload, Entry, fold);
  }

  /** A scrubbed meta box. */
  function ScrubMeta(payload: seq<byte>, fold: Fold): seq<byte> {
    match ChildrenOf(payload)
    case NoChildren => payload
    case StartsAt(o) => payload[..o] + Scrub(payload[o..], MetaKids, fold)
  }

  lemma ContainerPayload(boxes: seq<Box>, k: nat, depth: nat, fold: Fold)
    requires k < |boxes| && depth < MAX_BOX_DEPTH
    ensures
      var typ, payload := TypeOf(boxes[k].header), boxes[k].payload;
      ScrubPayload(boxes, k, Container(depth), fold)
      == if IsPrivacyBox(typ) then Zeros(|payload|)
         else if typ == META then ScrubMeta(payload, fold)
         else if IsContainer(typ) then Scrub(payload, Container(depth + 1), fold)
         else payload
  {
    hide IsPrivacyBox, IsContainer, ChildrenOf, TypeOf, Outline, Render;
    var payload := boxes[k].payload;
    assert payload[0..] == payload;
    var inner := Scrub(payload, Container(depth + 1), fold);
    assert payload[..0] + inner == inner;
  }

  lemma SpliceTail(now: seq<byte>, lo: nat, hi: nat, skip: nat, x: seq<byte>)
    requires lo + skip <= hi <= |now|
    ensures Splice(now, lo + skip, hi, x) == Splice(now, lo, hi, now[lo..hi][..skip] + x)
  {
    var payload := now[lo..hi];
    assert now[..lo + skip] == now[..lo] + payload[..skip];
  }

  // ---------- the methods ----------

  /** Blanks the value of one metadata entry, keeping the data box's type and locale. */
  method BlankIlstValue(data: array<byte>, start: nat, end: nat, ghost fold: Fold)
    requires start <= end <= data.Length
    modifies data
    ensures data[..] == old(Splice(data[..], start, end, Scrub(data[start..end], Entry, fold)))
  {
    hide Outline, Render, ScrubPayload, ScrubBoxes, Layout, TypeOf, Halfway, Splice, Split;
    ghost var was := data[..];
    ghost var f := Region(was[start..end], Entry);
    assert was[start..end] == data[start..end];
    Start(was, start, end, Entry, fold);
    ghost var cur := f.boxes;
    var kids, _ := ParseBoxList(data, start, end, true);
    for k := 0 to |kids|
      invariant kids == Layout(f.boxes, start)
      invariant Halfway(data[..], was, start, end, f, Entry, fold, cur, k)
    {
      ghost var now := data[..];
      var b := kids[k];
      cur := Step(now, was, start, end, f, Entry, fold, cur, k);
      EntryPayload(f.boxes, k, fold);
      if b.typ == DATA && b.end - b.start > 8 {
        Clear(data, b.start + 8, b.end);
        SpliceTail(now, b.start, b.end, 8, Zeros(b.end - b.start - 8));
      } else {
        SpliceSame(now, b.start, b.end);
      }
    }
    Finish(data[..], was, start, end, Entry, fold, cur);
  }

  /** `findBox`: the first box of a type, or the number of boxes. */
  method FindRef(refs: seq<BoxRef>, typ: u32, ghost boxes: seq<Box>, ghost lo: nat) returns (k: nat)
    requires refs == Layout(boxes, lo)
    ensures k == FindBox(boxes, typ)
  {
    hide Layout, TypeOf;
    k := 0;
    while k < |refs| && refs[k].typ != typ
      invariant k <= |refs|
      invariant forall j :: 0 <= j < k ==> TypeOf(boxes[j].header) != typ
    {
      LayoutAt(boxes, lo, k);
      k := k + 1;
    }
    if k < |refs| {
      LayoutAt(boxes, lo, k);
    }
  }

  method LooksLikeBoxHeaderAt(data: array<byte>, lo: nat, hi: nat) returns (b: bool)
    requires lo <= hi <= data.Length
    ensures b == LooksLikeBoxHeader(data[lo..hi])
  {
    hide Be32, ValidBoxType;
    if hi - lo < 8 {
      return false;
    }
    SubSlice(data[..], lo, hi, 0, 4);
    SubSlice(data[..], lo, hi, 4, 8);
    var size := Be32(data[lo..lo + 4]);
    if size < 8 || size > hi - lo {
      return false;
    }
    return ValidBoxType(data[lo + 4..lo + 8]);
  }

  method MetaChildren(data: array<byte>, lo: nat, hi: nat) returns (start: MetaStart)
    requires lo <= hi <= data.Length
    ensures start == ChildrenOf(data[lo..hi])
  {
    hide LooksLikeBoxHeader;
    var quickTime := LooksLikeBoxHeaderAt(data, lo, hi);
    if quickTime {
      return StartsAt(0);
    }
    if hi - lo >= 4 {
      assert data[lo..hi][4..] == data[lo + 4..hi];
      var iso := LooksLikeBoxHeaderAt(data, lo + 4, hi);
      if iso {
        return StartsAt(4);
      }
    }
    return NoChildren;
  }

  /** The names in a keys table that begins at `lo`. */
  method ReadKeyNames(data: array<byte>, lo: nat, hi: nat, count: nat) returns (keys: seq<seq<byte>>)
    requires lo <= hi <= data.Length
    ensures keys == KeyNames(data[lo..hi], count)
  {
    hide Be32;
    ghost var s := data[..];
    ghost var all := KeyNames(s[lo..hi], count);
    assert data[lo..hi] == s[lo..hi];
    keys := [];
    var p, i := lo, 0;
    while i < count
      invariant lo <= p <= hi && i <= count
      invariant all == keys + KeyNames(s[p..hi], count - i)
    {
      if p + 8 > hi {
        break;
      }
      SubSlice(s, p, hi, 0, 4);
      assert data[p..p + 4] == s[p..p + 4];
      var size := Be32(data[p..p + 4]);
      if size < 8 || p + size > hi {
        break;
      }
      SubSlice(s, p, hi, 8, size);
      SubSlice(s, p, hi, size, hi - p);
      assert data[p + 8..p + size] == s[p + 8..p + size];
      keys := keys + [data[p + 8..p + size]];
      p := p + size;
      i := i + 1;
    }
  }

  method ReadMetadataKeys(data: array<byte>, kids: seq<BoxRef>, ghost boxes: seq<Box>, ghost lo: nat, ghost hi: nat)
    returns (keys: seq<seq<byte>>)
    requires lo <= hi <= data.Length
    requires exists rest :: data[lo..hi] == Print(boxes) + rest
    requires kids == Layout(boxes, lo)
    ensures keys == MetadataKeys(boxes)
  {
    hide Layout, TypeOf, Print, KeyNames, Be32;
    var k := FindRef(kids, KEYS, boxes, lo);
    if k == |kids| {
      return [];
    }
    ghost var s := data[..];
    PayloadAt(s, lo, hi, boxes, k);
    var start, end := kids[k].start, kids[k].end;
    if end - start < 8 {
      return [];
    }
    SubSlice(s, start, end, 4, 8);
    SubSlice(s, start, end, 8, end - start);
    assert data[start + 4..start + 8] == s[start + 4..start + 8];
    assert data[start + 8..end] == s[start + 8..end];
    var count := Be32(data[start + 4..start + 8]);
    if count > MAX_BOX_SIBLINGS {
      return [];
    }
    keys := ReadKeyNames(data, start + 8, end, count);
  }

  /** A box reference stands for the payload of its box. */
  lemma {:induction false} PayloadAt(s: seq<byte>, lo: nat, hi: nat, boxes: seq<Box>, k: nat)
    requires lo <= hi <= |s| && k < |boxes|
    requires exists rest :: s[lo..hi] == Print(boxes) + rest
    ensures
      var ref := Layout(boxes, lo)[k];
      && ref.typ == TypeOf(boxes[k].header)
      && lo <= ref.start <= ref.end <= hi
      && s[ref.start..ref.end] == boxes[k].payload
  {
    hide Print, Layout, TypeOf, Splice;
    var rest :| s[lo..hi] == Print(boxes) + rest;
    SpliceSame(s, lo, hi);
    RewriteBox(s, s, lo, hi, boxes, rest, k, boxes[k].payload);
  }

  /** Only the first item list of a meta box changes. */
  lemma {:induction false} ScrubMetaKids(was: seq<byte>, lo: nat, hi: nat, fold: Fold)
    requires lo <= hi <= |was|
    ensures
      var f := Split(was[lo..hi], MAX_BOX_SIBLINGS, true);
      var k := FindBox(f.boxes, ILST);
      if k == |f.boxes| then Scrub(was[lo..hi], MetaKids, fold) == was[lo..hi]
      else
        var ref := Layout(f.boxes, lo)[k];
        var items := f.boxes[k].payload;
        && ref.start <= ref.end <= |was| && was[ref.start..ref.end] == items
        && Splice(was, ref.start, ref.end, Scrub(items, ItemList(MetadataKeys(f.boxes)), fold))
        == Splice(was, lo, hi, Scrub(was[lo..hi], MetaKids, fold))
  {
    hide Split, Print, Layout, TypeOf, Splice, ScrubPayload, MetadataKeys, OutlineBox, RenderNodes, OutlineBoxes;
    var f := Split(was[lo..hi], MAX_BOX_SIBLINGS, true);
    var k := FindBox(f.boxes, ILST);
    var scrubbed := ScrubBoxes(f.boxes, MetaKids, fold);
    RegionPrints(was[lo..hi], MetaKids);
    ScrubSameLength(was[lo..hi], MetaKids, fold);
    MetaKidsPayloads(f.boxes, fold);
    if k == |f.boxes| {
      assert scrubbed == f.boxes;
    } else {
      var items := Scrub(f.boxes[k].payload, ItemList(MetadataKeys(f.boxes)), fold);
      assert scrubbed == f.boxes[k := Box(f.boxes[k].header, items)];
      assert SameFrame(f.boxes[k], scrubbed[k]);
      SpliceSame(was, lo, hi);
      RewriteBox(was, was, lo, hi, f.boxes, f.rest, k, items);
    }
  }

  lemma {:induction false} MetaKidsPayloads(boxes: seq<Box>, fold: Fold)
    ensures
      var scrubbed := ScrubBoxes(boxes, MetaKids, fold);
      var k := FindBox(boxes, ILST);
      && |scrubbed| == |boxes|
      && (forall i :: 0 <= i < |boxes| && i != k ==> scrubbed[i] == boxes[i])
      && (k < |boxes| ==>
            scrubbed[k] == Box(boxes[k].header, Scrub(boxes[k].payload, ItemList(MetadataKeys(boxes)), fold)))
  {
    hide MetadataKeys, TypeOf, Outline, Render, ScrubBoxes;
    var k := FindBox(boxes, ILST);
    forall i | 0 <= i < |boxes|
      ensures |ScrubBoxes(boxes, MetaKids, fold)| == |boxes|
      ensures ScrubBoxes(boxes, MetaKids, fold)[i]
           == Box(boxes[i].header,
                  if i == k then Scrub(boxes[k].payload, ItemList(MetadataKeys(boxes)), fold) else boxes[i].payload)
    {
      ScrubBoxesAt(boxes, MetaKids, fold, i);
      if i == k {
        var payload := boxes[k].payload;
        var items := Scrub(payload, ItemList(MetadataKeys(boxes)), fold);
        assert payload[0..] == payload;
        assert payload[..0] + items == items;
      }
    }
    if boxes == [] {
      assert |ScrubBoxes(boxes, MetaKids, fold)| == 0 by {
        EmptyScrub(MetaKids, fold);
      }
    }
  }

  lemma EmptyScrub(level: Level, fold: Fold)
    ensures ScrubBoxes([], level, fold) == []
  {
  }

  /** Blanks the private entries of a meta box. */
  method StripMetaBox(data: array<byte>, lo: nat, hi: nat, fold: Fold)
    requires lo <= hi <= data.Length
    modifies data
    ensures data[..] == old(Splice(data[..], lo, hi, ScrubMeta(data[lo..hi], fold)))
  {
    hide Outline, Render, ScrubPayload, ScrubBoxes, Layout, TypeOf, Halfway, Splice, Split, ChildrenOf, PrivateEntry,
         Print;
    ghost var was := data[..];
    assert was[lo..hi] == data[lo..hi];
    var children := MetaChildren(data, lo, hi);
    if children == NoChildren {
      SpliceSame(was, lo, hi);
      return;
    }
    var first := lo + children.offset;
    SpliceTail(was, lo, hi, children.offset, Scrub(was[first..hi], MetaKids, fold));
    SubSlice(was, lo, hi, children.offset, hi - lo);
    ScrubMetaKids(was, first, hi, fold);
    assert data[first..hi] == was[first..hi];
    ghost var f := Split(was[first..hi], MAX_BOX_SIBLINGS, true);
    SplitPrints(was[first..hi], MAX_BOX_SIBLINGS, true);
    var kids, _ := ParseBoxList(data, first, hi, true);
    var keys := ReadMetadataKeys(data, kids, f.boxes, first, hi);
    var k := FindRef(kids, ILST, f.boxes, first);
    if k == |kids| {
      SpliceSame(was, first, hi);
      return;
    }
    StripItems(data, kids[k].start, kids[k].end, keys, fold);
  }

  /** The loop of `stripMetaBox` over the entries of an item list. */
  method StripItems(data: array<byte>, start: nat, end: nat, keys: seq<seq<byte>>, fold: Fold)
    requires start <= end <= data.Length
    modifies data
    ensures data[..] == old(Splice(data[..], start, end, Scrub(data[start..end], ItemList(keys), fold)))
  {
    hide Outline, Render, ScrubPayload, ScrubBoxes, Layout, TypeOf, Halfway, Splice, Split, PrivateEntry;
    ghost var was := data[..];
    ghost var level := ItemList(keys);
    ghost var f := Region(was[start..end], level);
    assert was[start..end] == data[start..end];
    Start(was, start, end, level, fold);
    ghost var cur := f.boxes;
    var entries, _ := ParseBoxList(data, start, end, false);
    for k := 0 to |entries|
      invariant entries == Layout(f.boxes, start)
      invariant Halfway(data[..], was, start, end, f, level, fold, cur, k)
    {
      ghost var now := data[..];
      var e := entries[k];
      cur := Step(now, was, start, end, f, level, fold, cur, k);
      ItemPayload(f.boxes, k, keys, fold);
      assert now[e.start..e.end] == data[e.start..e.end];
      if PrivateEntry(e.typ, keys, fold) {
        BlankIlstValue(data, e.start, e.end, fold);
      } else {
        SpliceSame(now, e.start, e.end);
      }
    }
    Finish(data[..], was, start, end, level, fold, cur);
  }

  /** Blanks the private boxes among the boxes of the range `[lo, hi)`. */
  method StripBoxes(data: array<byte>, boxes: seq<BoxRef>, depth: nat, fold: Fold, ghost lo: nat, ghost hi: nat)
    requires lo <= hi <= data.Length
    requires boxes == Layout(Split(data[lo..hi], MAX_BOX_SIBLINGS, true).boxes, lo)
    modifies data
    ensures data[..] == old(Splice(data[..], lo, hi, Scrub(data[lo..hi], Container(depth), fold)))
    decreases Rank(Container(depth))
  {
    hide Outline, Render, ScrubPayload, ScrubBoxes, Layout, TypeOf, Halfway, Splice, Split, IsPrivacyBox, IsContainer,
         ScrubMeta;
    ghost var was := data[..];
    assert was[lo..hi] == data[lo..hi];
    if depth >= MAX_BOX_DEPTH {
      DepthCap(was[lo..hi], depth, fold);
      SpliceSame(was, lo, hi);
      return;
    }
    ghost var level := Container(depth);
    ghost var f := Region(was[lo..hi], level);
    Start(was, lo, hi, level, fold);
    ghost var cur := f.boxes;
    for k := 0 to |boxes|
      invariant Halfway(data[..], was, lo, hi, f, level, fold, cur, k)
    {
      ghost var now := data[..];
      var b := boxes[k];
      cur := Step(now, was, lo, hi, f, level, fold, cur, k);
      ContainerPayload(f.boxes, k, depth, fold);
      assert now[b.start..b.end] == data[b.start..b.end];
      if IsPrivacyBox(b.typ) {
        Clear(data, b.start, b.end);
      } else if b.typ == META {
        StripMetaBox(data, b.start, b.end, fold);
      } else if IsContainer(b.typ) {
        var kids, _ := ParseBoxList(data, b.start, b.end, true);
        StripBoxes(data, kids, depth + 1, fold, b.start, b.end);
      } else {
        SpliceSame(now, b.start, b.end);
      }
    }
    Finish(data[..], was, lo, hi, level, fold, cur);
  }

  lemma DepthCap(data: seq<byte>, depth: nat, fold: Fold)
    requires depth >= MAX_BOX_DEPTH
    ensures Scrub(data, Container(depth), fold) == data
  {
    PrintNone();
    assert Outline(data, Container(depth), fold).nodes == [];
  }

  /** The sanitized file. */
  function Strip(data: seq<byte>, fold: Fold): seq<byte> {
    Scrub(data, Container(0), fold)
  }

  /** Scrubs the file in the buffer. */
  method StripLocationMetadata(data: array<byte>, fold: Fold)
    modifies data
    ensures data[..] == Strip(old(data[..]), fold)
  {
    hide Scrub, Layout, Split;
    ghost var was := data[..];
    assert data[0..data.Length] == was;
    var boxes, _ := ParseBoxList(data, 0, data.Length, true);
    StripBoxes(data, boxes, 0, fold, 0, data.Length);
  }
}

/**
 Validation of an uploaded clip from its box structure, and the proof that the location scrub does
 not change its outcome.
 */
module Mp4Probe {
  import opened Wrappers
  import opened Bytes
  import opened Mp4Boxes
  import opened Mp4Outline
  import opened Mp4Strip

  const MAX_VIDEO_DURATION_MS: int := 12_000

  const FTYP: u32 := 0x6674_7970
  const MVHD: u32 := 0x6D76_6864
  const TKHD: u32 := 0x746B_6864
  const MDHD: u32 := 0x6D64_6864
  const STTS: u32 := 0x7374_7473

  const VIDEO_BRANDS: set<u32> :=
    {0x6973_6F6D /* isom */, 0x6973_6F32 /* iso2 */, 0x6973_6F34 /* iso4 */, 0x6973_6F35 /* iso5 */,
     0x6973_6F36 /* iso6 */, 0x6D70_3431 /* mp41 */, 0x6D70_3432 /* mp42 */, 0x6176_6331 /* avc1 */,
     0x4D34_5620 /* M4V */, 0x3367_7034 /* 3gp4 */, 0x3367_7035 /* 3gp5 */, 0x3367_7036 /* 3gp6 */,
     0x7174_2020 /* qt */}

  datatype Timing = Timing(duration: u64, timescale: u32)

  /** A track header: fixed-point size, and the entries of the display matrix that tell a quarter turn. */
  datatype TrackHeader = TrackHeader(width: u32, height: u32, m0: int, m1: int, m3: int, m4: int)

  /** The decoders of the leaf boxes, which belong to a library; `None` is a failed decode. */
  datatype Decoders = Decoders(
    mvhd: seq<byte> -> Option<Timing>,
    tkhd: seq<byte> -> Option<TrackHeader>,
    mdhd: seq<byte> -> Option<Timing>,
    stts: seq<byte> -> Option<seq<(u32, u32)>>)

  datatype VideoInfo = VideoInfo(durationMs: int, width: int, height: int)

  datatype ProbeError = NotMp4 | NoFtyp | UnsupportedFormat | NoMoov | NoDuration | TooLong | NoTrack

  // ---------- durations ----------

  /** `scaleToMs`, in 64-bit unsigned arithmetic. */
  function ScaleToMs(duration: u64, timescale: u64): u64 {
    if timescale == 0 then 0
    else
      ((duration / timescale) * 1000 % TWO64 + (duration % timescale) * 1000 % TWO64 / timescale) % TWO64
  }

  /** The duration in milliseconds, rounded down. */
  function Milliseconds(duration: nat, timescale: nat): nat
    requires timescale > 0
  {
    duration * 1000 / timescale
  }

  /** The milliseconds of the whole units, and of what is left over. */
  function WholeMs(duration: nat, timescale: nat): nat
    requires timescale > 0
  {
    (duration / timescale) * 1000
  }

  function RestMs(duration: nat, timescale: nat): nat
    requires timescale > 0
  {
    (duration % timescale) * 1000 / timescale
  }

  lemma MillisecondsSplit(duration: nat, timescale: nat)
    requires timescale > 0
    ensures Milliseconds(duration, timescale) == WholeMs(duration, timescale) + RestMs(duration, timescale)
  {
    var q, r := duration / timescale, duration % timescale;
    assert duration == q * timescale + r;
    assert duration * 1000 == (q * 1000) * timescale + r * 1000;
    DivAdd(q * 1000, r * 1000, timescale);
  }

  lemma DivAdd(a: nat, b: nat, d: nat)
    requires d > 0
    ensures (a * d + b) / d == a + b / d
  {
    var c := b / d;
    assert b == c * d + b % d;
    assert a * d + b == (a + c) * d + b % d;
    DivUnique(a * d + b, d, a + c, b % d);
  }

  lemma DivUnique(n: nat, d: nat, q: nat, r: nat)
    requires d > 0 && n == q * d + r && r < d
    ensures n / d == q
  {
    var e := n / d;
    assert e * d <= n < (e + 1) * d && q * d <= n < (q + 1) * d;
    MulCancel(e, q, d);
    MulCancel(q, e, d);
  }

  lemma MulCancel(a: nat, b: nat, d: nat)
    requires d > 0 && a * d < (b + 1) * d
    ensures a <= b
  {
    if b + 1 <= a {
      MulMonotone(b + 1, a, d);
    }
  }

  lemma MulMonotone(a: nat, b: nat, d: nat)
    requires a <= b
    ensures a * d <= b * d
  {
  }

  /** The result is right when the true number of milliseconds fits in 64 bits. */
  lemma ScaleToMsFits(duration: u64, timescale: u32)
    requires timescale > 0
    ensures ScaleToMs(duration, timescale) == Milliseconds(duration, timescale)
       <==> WholeMs(duration, timescale) + RestMs(duration, timescale) < TWO64
  {
    hide ScaleToMs, Milliseconds, WholeMs, RestMs;
    MillisecondsSplit(duration, timescale);
    ScaleToMsInParts(duration, timescale);
    SumFits(WholeMs(duration, timescale), RestMs(duration, timescale));
  }

  lemma ScaleToMsInParts(duration: u64, timescale: u32)
    requires timescale > 0
    ensures ScaleToMs(duration, timescale)
         == (WholeMs(duration, timescale) % TWO64 + RestMs(duration, timescale)) % TWO64
  {
    var r := duration % timescale;
    assert r < timescale;
    SmallMod(r * 1000);
  }

  lemma SmallMod(n: nat)
    requires n < TWO64
    ensures n % TWO64 == n
  {
  }

  lemma SumFits(a: nat, b: nat)
    ensures (a % TWO64 + b) % TWO64 == a + b <==> a + b < TWO64
  {
  }

  /** From a thousand units a second on, there are no more milliseconds than units. */
  lemma FineFits(duration: u64, timescale: u32)
    requires timescale >= 1000
    ensures Milliseconds(duration, timescale) <= duration
  {
    MulMonotone(1000, timescale, duration + 1);
    QuotientBelow(duration * 1000, timescale, duration + 1);
  }

  lemma QuotientBelow(n: nat, d: nat, k: nat)
    requires d > 0
    ensures n / d < k <==> n < k * d
  {
    assert (n / d) * d <= n < (n / d + 1) * d;
    if n / d < k {
      MulMonotone(n / d + 1, k, d);
    } else {
      MulMonotone(k, n / d, d);
    }
  }

  /** Below it, the longest duration has more milliseconds than fit. */
  lemma CoarseOverflows(timescale: u32)
    requires 0 < timescale < 1000
    ensures Milliseconds(TWO64 - 1, timescale) >= TWO64
  {
    MulMonotone(timescale, 999, TWO64);
    QuotientBelow((TWO64 - 1) * 1000, timescale, TWO64);
  }

  /**
   Dividing first keeps every duration from overflowing if and only if the timescale is fine: a thousand
   units a second or more.
   */
  lemma ScaleToMsExact(timescale: u32)
    requires timescale > 0
    ensures (forall duration: u64 :: ScaleToMs(duration, timescale) == Milliseconds(duration, timescale))
       <==> timescale >= 1000
  {
    hide ScaleToMs, Milliseconds, WholeMs, RestMs;
    if timescale >= 1000 {
      forall duration: u64 ensures ScaleToMs(duration, timescale) == Milliseconds(duration, timescale) {
        ScaleToMsFits(duration, timescale);
        MillisecondsSplit(duration, timescale);
        FineFits(duration, timescale);
      }
    } else {
      CoarseOverflows(timescale);
      assert ScaleToMs(TWO64 - 1, timescale) != Milliseconds(TWO64 - 1, timescale);
    }
  }

  // The whole units whose milliseconds still fit, and what is left of 64 bits after them.
  const MAX_UNITS: nat := 18_446_744_073_709_551
  const LAST_MS: nat := 616

  /**
   In a coarse timescale, a duration is exact while its whole units stay below the limit, and at it for the
   first 616 ms.
   */
  lemma ScaleToMsLimit(duration: u64, timescale: u32)
    requires timescale > 0
    ensures ScaleToMs(duration, timescale) == Milliseconds(duration, timescale)
       <==> duration / timescale < MAX_UNITS
            || (duration / timescale == MAX_UNITS && (duration % timescale) * 1000 < LAST_MS * timescale)
  {
    hide ScaleToMs, Milliseconds;
    ScaleToMsFits(duration, timescale);
    var rest := duration % timescale;
    QuotientBelow(rest * 1000, timescale, 1000);
    QuotientBelow(rest * 1000, timescale, LAST_MS);
  }

  /** One more whole second than the limit, in a timescale of seconds, wraps around. */
  lemma ScaleToMsWraps()
    ensures ScaleToMs(18_446_744_073_709_552, 1) == 384
  {
  }

  // ---------- the probe, as a function of the bytes ----------

  /** The payload of the first child of a type. */
  function Child(region: seq<byte>, typ: u32): Option<seq<byte>> {
    var boxes := Split(region, MAX_BOX_SIBLINGS, true).boxes;
    var k := FindBox(boxes, typ);
    if k == |boxes| then None else Some(boxes[k].payload)
  }

  /** Major brand, then the compatible brands after the 4-byte minor version. */
  function HasVideoBrand(payload: seq<byte>, p: nat): bool
    decreases |payload| - p
  {
    p + 4 <= |payload| &&
    ((p != 4 && Be32(payload[p..p + 4]) in VIDEO_BRANDS) || HasVideoBrand(payload, p + 4))
  }

  function TrackDimensions(payload: seq<byte>, dec: Decoders): (int, int) {
    match dec.tkhd(payload)
    case None => (0, 0)
    case Some(b) =>
      var w, h := b.width / 0x1_0000, b.height / 0x1_0000;
      if b.m0 == 0 && b.m4 == 0 && (b.m1 != 0 || b.m3 != 0) then (h, w) else (w, h)
  }

  /** The sum of the per-sample deltas, in 64-bit unsigned arithmetic. */
  function SumSamples(entries: seq<(u32, u32)>, total: u64): u64 {
    if entries == [] then total
    else SumSamples(entries[1..], (total + (entries[0].0 as int) * (entries[0].1 as int)) % TWO64)
  }

  function SampleTableDuration(mdia: seq<byte>, dec: Decoders): u64 {
    match Child(mdia, MINF)
    case None => 0
    case Some(minf) =>
      match Child(minf, STBL)
      case None => 0
      case Some(stbl) =>
        match Child(stbl, STTS)
        case None => 0
        case Some(stts) =>
          match dec.stts(stts)
          case None => 0
          case Some(entries) => SumSamples(entries, 0)
  }

  function TrackDurationMs(trak: seq<byte>, dec: Decoders): int {
    match Child(trak, MDIA)
    case None => 0
    case Some(mdia) =>
      match Child(mdia, MDHD)
      case None => 0
      case Some(mdhd) =>
        match dec.mdhd(mdhd)
        case None => 0
        case Some(t) =>
          var ms := ScaleToMs(t.duration, t.timescale);
          if ms > 0 then ToInt64(ms)
          else ToInt64(ScaleToMs(SampleTableDuration(mdia, dec), t.timescale))
  }

  /** What one track adds: a larger display size, and a duration while none is known. */
  function ProbeTrack(trak: seq<byte>, info: VideoInfo, dec: Decoders): VideoInfo {
    var sized :=
      match Child(trak, TKHD)
      case None => info
      case Some(tkhd) =>
        var (w, h) := TrackDimensions(tkhd, dec);
        if w * h > info.width * info.height then info.(width := w, height := h) else info;
    if sized.durationMs <= 0 then
      var ms := TrackDurationMs(trak, dec);
      if ms > sized.durationMs then sized.(durationMs := ms) else sized
    else sized
  }

  /** The tracks among `boxes`, in order. */
  function ProbeTracks(boxes: seq<Box>, info: VideoInfo, dec: Decoders): VideoInfo {
    if boxes == [] then info
    else
      var next := if TypeOf(boxes[0].header) == TRAK then ProbeTrack(boxes[0].payload, info, dec) else info;
      ProbeTracks(boxes[1..], next, dec)
  }

  function MovieDuration(moov: seq<byte>, dec: Decoders): int {
    match Child(moov, MVHD)
    case None => 0
    case Some(mvhd) =>
      match dec.mvhd(mvhd)
      case None => 0
      case Some(t) => ToInt64(ScaleToMs(t.duration, t.timescale))
  }

  function ProbeMovie(moov: seq<byte>, dec: Decoders): VideoInfo {
    ProbeTracks(Split(moov, MAX_BOX_SIBLINGS, true).boxes, VideoInfo(MovieDuration(moov, dec), 0, 0), dec)
  }

  function Verdict(info: VideoInfo): Result<VideoInfo, ProbeError> {
    if info.durationMs <= 0 then Err(NoDuration)
    else if info.durationMs > MAX_VIDEO_DURATION_MS then Err(TooLong)
    else if info.width <= 0 || info.height <= 0 then Err(NoTrack)
    else Ok(info)
  }

  function Probe(data: seq<byte>, dec: Decoders): Result<VideoInfo, ProbeError> {
    var root := Split(data, MAX_BOX_SIBLINGS, true);
    if !root.ok || root.boxes == [] then Err(NotMp4)
    else if TypeOf(root.boxes[0].header) != FTYP || |root.boxes[0].payload| < 4 then Err(NoFtyp)
    else if !HasVideoBrand(root.boxes[0].payload, 0) then Err(UnsupportedFormat)
    else
      match Child(data, MOOV)
      case None => Err(NoMoov)
      case Some(moov) => Verdict(ProbeMovie(moov, dec))
  }

  // ---------- the scrub does not change the outcome ----------

  /** A type the walk of the scrub passes over. */
  predicate IsLeaf(typ: u32) {
    typ != META && !IsContainer(typ) && !IsPrivacyBox(typ)
  }

  lemma ScrubbedKid(boxes: seq<Box>, k: nat, depth: nat, fold: Fold)
    requires k < |boxes| && depth < MAX_BOX_DEPTH
    ensures
      var scrubbed := ScrubBoxes(boxes, Container(depth), fold);
      var typ := TypeOf(boxes[k].header);
      && |scrubbed| == |boxes| && scrubbed[k].header == boxes[k].header
      && (IsLeaf(typ) ==> scrubbed[k] == boxes[k])
      && (typ != META && IsContainer(typ) && !IsPrivacyBox(typ) ==>
            scrubbed[k].payload == Scrub(boxes[k].payload, Container(depth + 1), fold))
  {
    hide IsPrivacyBox, IsContainer, ScrubMeta, Scrub, ScrubBoxes, ScrubPayload, TypeOf;
    ScrubBoxesAt(boxes, Container(depth), fold, k);
    ContainerPayload(boxes, k, depth, fold);
  }

  lemma {:induction false} ScrubbedRegion(data: seq<byte>, depth: nat, fold: Fold)
    requires depth < MAX_BOX_DEPTH
    ensures
      var f := Split(data, MAX_BOX_SIBLINGS, true);
      var scrubbed := ScrubBoxes(f.boxes, Container(depth), fold);
      && SameFrames(f.boxes, scrubbed)
      && Split(Scrub(data, Container(depth), fold), MAX_BOX_SIBLINGS, true) == Forest(scrubbed, f.rest, f.ok)
  {
    hide Split, Scrub, ScrubBoxes;
    ScrubSameLength(data, Container(depth), fold);
    OutlineOfScrub(data, Container(depth), fold);
  }

  lemma ScrubbedChild(data: seq<byte>, depth: nat, typ: u32, fold: Fold)
    requires depth < MAX_BOX_DEPTH
    ensures
      var was, now := Child(data, typ), Child(Scrub(data, Container(depth), fold), typ);
      && (IsLeaf(typ) ==> now == was)
      && (typ != META && IsContainer(typ) && !IsPrivacyBox(typ) ==>
            now == if was.None? then None else Some(Scrub(was.value, Container(depth + 1), fold)))
  {
    hide Split, Scrub, ScrubBoxes, IsPrivacyBox, IsContainer, TypeOf;
    var f := Split(data, MAX_BOX_SIBLINGS, true);
    var scrubbed := ScrubBoxes(f.boxes, Container(depth), fold);
    ScrubbedRegion(data, depth, fold);
    FindSameFrames(f.boxes, scrubbed, typ);
    var k := FindBox(f.boxes, typ);
    if k < |f.boxes| {
      ScrubbedKid(f.boxes, k, depth, fold);
    }
  }

  lemma ScrubbedTrack(trak: seq<byte>, info: VideoInfo, dec: Decoders, fold: Fold)
    ensures ProbeTrack(Scrub(trak, Container(2), fold), info, dec) == ProbeTrack(trak, info, dec)
  {
    hide Child, Scrub, ScaleToMs, SumSamples, TrackDimensions;
    ScrubbedChild(trak, 2, TKHD, fold);
    ScrubbedChild(trak, 2, MDIA, fold);
    var mdia := Child(trak, MDIA);
    if mdia.Some? {
      ScrubbedChild(mdia.value, 3, MDHD, fold);
      ScrubbedSamples(mdia.value, dec, fold);
    }
  }

  lemma ScrubbedSamples(mdia: seq<byte>, dec: Decoders, fold: Fold)
    ensures SampleTableDuration(Scrub(mdia, Container(3), fold), dec) == SampleTableDuration(mdia, dec)
  {
    hide Child, Scrub, SumSamples;
    ScrubbedChild(mdia, 3, MINF, fold);
    var minf := Child(mdia, MINF);
    if minf.Some? {
      ScrubbedChild(minf.value, 4, STBL, fold);
      var stbl := Child(minf.value, STBL);
      if stbl.Some? {
        ScrubbedChild(stbl.value, 5, STTS, fold);
      }
    }
  }

  lemma {:induction false} ScrubbedTracks(boxes: seq<Box>, scrubbed: seq<Box>, info: VideoInfo, dec: Decoders,
      fold: Fold)
    requires SameFrames(boxes, scrubbed)
    requires forall k :: 0 <= k < |boxes| && TypeOf(boxes[k].header) == TRAK ==>
               scrubbed[k].payload == Scrub(boxes[k].payload, Container(2), fold)
    ensures ProbeTracks(scrubbed, info, dec) == ProbeTracks(boxes, info, dec)
  {
    hide ProbeTrack, TypeOf, Scrub;
    if boxes != [] {
      var next := if TypeOf(boxes[0].header) == TRAK then ProbeTrack(boxes[0].payload, info, dec) else info;
      ScrubbedTrack(boxes[0].payload, info, dec, fold);
      SameFramesTail(boxes, scrubbed);
      ScrubbedTracks(boxes[1..], scrubbed[1..], next, dec, fold);
    }
  }

  lemma ScrubbedMovie(moov: seq<byte>, dec: Decoders, fold: Fold)
    ensures ProbeMovie(Scrub(moov, Container(1), fold), dec) == ProbeMovie(moov, dec)
  {
    hide Child, Scrub, ScrubBoxes, ScaleToMs, Split, ProbeTracks;
    ScrubbedChild(moov, 1, MVHD, fold);
    ScrubbedRegion(moov, 1, fold);
    var f := Split(moov, MAX_BOX_SIBLINGS, true);
    var scrubbed := ScrubBoxes(f.boxes, Container(1), fold);
    forall k | 0 <= k < |f.boxes| && TypeOf(f.boxes[k].header) == TRAK
      ensures scrubbed[k].payload == Scrub(f.boxes[k].payload, Container(2), fold)
    {
      ScrubbedKid(f.boxes, k, 1, fold);
    }
    ScrubbedTracks(f.boxes, scrubbed, VideoInfo(MovieDuration(moov, dec), 0, 0), dec, fold);
  }

  /** Probing a scrubbed file gives exactly the result, or the error, of probing the file. */
  lemma ProbeOfStrip(data: seq<byte>, dec: Decoders, fold: Fold)
    ensures Probe(Strip(data, fold), dec) == Probe(data, dec)
  {
    hide Child, Scrub, ScrubBoxes, Split, ProbeMovie, HasVideoBrand, TypeOf, Verdict;
    var f := Split(data, MAX_BOX_SIBLINGS, true);
    ScrubbedRegion(data, 0, fold);
    ScrubbedChild(data, 0, MOOV, fold);
    if f.boxes != [] {
      ScrubbedKid(f.boxes, 0, 0, fold);
    }
    var moov := Child(data, MOOV);
    if moov.Some? {
      ScrubbedMovie(moov.value, dec, fold);
    }
  }

  // ---------- the probe of the caller's buffer ----------

  /** The first box of a type among the children of the range `[lo, hi)`. */
  method FindChild(data: array<byte>, lo: nat, hi: nat, typ: u32) returns (found: bool, start: nat, end: nat)
    requires lo <= hi <= data.Length
    ensures found == Child(data[lo..hi], typ).Some?
    ensures found ==> start <= end <= data.Length && data[start..end] == Child(data[lo..hi], typ).value
  {
    hide Split, Layout, Print, TypeOf;
    ghost var f := Split(data[lo..hi], MAX_BOX_SIBLINGS, true);
    ghost var s := data[..];
    assert s[lo..hi] == data[lo..hi];
    SplitPrints(data[lo..hi], MAX_BOX_SIBLINGS, true);
    var kids, _ := ParseBoxList(data, lo, hi, true);
    var k := FindRef(kids, typ, f.boxes, lo);
    if k == |kids| {
      return false, 0, 0;
    }
    PayloadAt(s, lo, hi, f.boxes, k);
    start, end := kids[k].start, kids[k].end;
    assert data[start..end] == s[start..end];
    return true, start, end;
  }

  method FindVideoBrand(payload: seq<byte>) returns (found: bool)
    ensures found == HasVideoBrand(payload, 0)
  {
    var p := 0;
    while p + 4 <= |payload|
      invariant HasVideoBrand(payload, 0) == HasVideoBrand(payload, p)
      decreases |payload| - p
    {
      if p != 4 && Be32(payload[p..p + 4]) in VIDEO_BRANDS {
        return true;
      }
      p := p + 4;
    }
    return false;
  }

  method SumSampleTable(entries: seq<(u32, u32)>) returns (total: u64)
    ensures total == SumSamples(entries, 0)
  {
    total := 0;
    for i := 0 to |entries|
      invariant SumSamples(entries, 0) == SumSamples(entries[i..], total)
    {
      var e := entries[i];
      total := (total + (e.0 as int) * (e.1 as int)) % TWO64;
      assert entries[i..][1..] == entries[i + 1..];
    }
  }

  method ReadSampleTable(data: array<byte>, lo: nat, hi: nat, dec: Decoders) returns (total: u64)
    requires lo <= hi <= data.Length
    ensures total == SampleTableDuration(data[lo..hi], dec)
  {
    hide Child, SumSamples;
    var found, start, end := FindChild(data, lo, hi, MINF);
    if !found {
      return 0;
    }
    found, start, end := FindChild(data, start, end, STBL);
    if !found {
      return 0;
    }
    found, start, end := FindChild(data, start, end, STTS);
    if !found {
      return 0;
    }
    var entries := dec.stts(data[start..end]);
    if entries == None {
      return 0;
    }
    total := SumSampleTable(entries.value);
  }

  method ReadTrackDuration(data: array<byte>, lo: nat, hi: nat, dec: Decoders) returns (ms: int)
    requires lo <= hi <= data.Length
    ensures ms == TrackDurationMs(data[lo..hi], dec)
  {
    hide Child, SampleTableDuration, ScaleToMs;
    var found, mdia, mdiaEnd := FindChild(data, lo, hi, MDIA);
    if !found {
      return 0;
    }
    var foundHeader, mdhd, mdhdEnd := FindChild(data, mdia, mdiaEnd, MDHD);
    if !foundHeader {
      return 0;
    }
    var timing := dec.mdhd(data[mdhd..mdhdEnd]);
    if timing == None {
      return 0;
    }
    var scaled := ScaleToMs(timing.value.duration, timing.value.timescale);
    if scaled > 0 {
      return ToInt64(scaled);
    }
    var total := ReadSampleTable(data, mdia, mdiaEnd, dec);
    return ToInt64(ScaleToMs(total, timing.value.timescale));
  }

  method ReadTrack(data: array<byte>, lo: nat, hi: nat, info: VideoInfo, dec: Decoders) returns (next: VideoInfo)
    requires lo <= hi <= data.Length
    ensures next == ProbeTrack(data[lo..hi], info, dec)
  {
    hide Child, TrackDurationMs, TrackDimensions;
    next := info;
    var found, tkhd, tkhdEnd := FindChild(data, lo, hi, TKHD);
    if found {
      var size := TrackDimensions(data[tkhd..tkhdEnd], dec);
      if size.0 * size.1 > next.width * next.height {
        next := next.(width := size.0, height := size.1);
      }
    }
    if next.durationMs <= 0 {
      var ms := ReadTrackDuration(data, lo, hi, dec);
      if ms > next.durationMs {
        next := next.(durationMs := ms);
      }
    }
  }

  method ReadMovie(data: array<byte>, lo: nat, hi: nat, dec: Decoders) returns (info: VideoInfo)
    requires lo <= hi <= data.Length
    ensures info == ProbeMovie(data[lo..hi], dec)
  {
    hide Child, ScaleToMs, Split, Layout, Print, TypeOf, ProbeTrack;
    ghost var s := data[..];
    ghost var boxes := Split(data[lo..hi], MAX_BOX_SIBLINGS, true).boxes;
    assert s[lo..hi] == data[lo..hi];
    SplitPrints(data[lo..hi], MAX_BOX_SIBLINGS, true);
    info := VideoInfo(0, 0, 0);
    var found, mvhd, mvhdEnd := FindChild(data, lo, hi, MVHD);
    if found {
      var timing := dec.mvhd(data[mvhd..mvhdEnd]);
      if timing.Some? {
        info := info.(durationMs := ToInt64(ScaleToMs(timing.value.duration, timing.value.timescale)));
      }
    }
    var kids, _ := ParseBoxList(data, lo, hi, true);
    assert boxes[0..] == boxes;
    for k := 0 to |kids|
      invariant ProbeMovie(data[lo..hi], dec) == ProbeTracks(boxes[k..], info, dec)
    {
      PayloadAt(s, lo, hi, boxes, k);
      assert boxes[k..][1..] == boxes[k + 1..];
      if kids[k].typ == TRAK {
        assert data[kids[k].start..kids[k].end] == s[kids[k].start..kids[k].end];
        info := ReadTrack(data, kids[k].start, kids[k].end, info, dec);
      }
    }
  }

  /** Validates the clip in the buffer. */
  method ProbeMP4(data: array<byte>, dec: Decoders) returns (r: Result<VideoInfo, ProbeError>)
    ensures r == Probe(data[..], dec)
  {
    hide Child, Split, Layout, Print, TypeOf, ProbeMovie, HasVideoBrand, Verdict;
    ghost var s := data[..];
    ghost var boxes := Split(s, MAX_BOX_SIBLINGS, true).boxes;
    assert data[0..data.Length] == s[0..data.Length] == s;
    SplitPrints(s, MAX_BOX_SIBLINGS, true);
    var root, ok := ParseBoxList(data, 0, data.Length, true);
    if !ok || |root| == 0 {
      return Err(NotMp4);
    }
    PayloadAt(s, 0, data.Length, boxes, 0);
    var ftyp := root[0];
    assert data[ftyp.start..ftyp.end] == s[ftyp.start..ftyp.end];
    if ftyp.typ != FTYP || ftyp.end - ftyp.start < 4 {
      return Err(NoFtyp);
    }
    var brand := FindVideoBrand(data[ftyp.start..ftyp.end]);
    if !brand {
      return Err(UnsupportedFormat);
    }
    var found, moov, moovEnd := FindChild(data, 0, data.Length, MOOV);
    if !found {
      return Err(NoMoov);
    }
    var info := ReadMovie(data, moov, moovEnd, dec);
    return Verdict(info);
  }
}
