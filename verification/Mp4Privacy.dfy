/** What the location scrub means for a file: which boxes and values are blank afterwards, by their names. */
module Mp4Privacy {
  import opened Wrappers
  import opened Bytes
  import opened Mp4Boxes
  import opened Mp4Outline
  import opened Mp4Strip

  // ---------- names ----------

  /** A four-character code. */
  function FourCC(name: string): u32
    requires |name| == 4 && forall i :: 0 <= i < 4 ==> name[i] < 256 as char
  {
    Be32([name[0] as int, name[1] as int, name[2] as int, name[3] as int])
  }

  /** Apple's coordinates, make, model, software, tool and day, and the two other places of coordinates. */
  lemma PrivacyNames(typ: u32)
    ensures IsPrivacyBox(typ) <==>
              || typ == FourCC("\U{A9}xyz") || typ == FourCC("loci") || typ == FourCC("gps ")
              || typ == FourCC("\U{A9}mak") || typ == FourCC("\U{A9}mod") || typ == FourCC("\U{A9}swr")
              || typ == FourCC("\U{A9}too") || typ == FourCC("\U{A9}day")
  {
  }

  lemma ContainerNames(typ: u32)
    ensures IsContainer(typ) <==>
              || typ == FourCC("moov") || typ == FourCC("trak") || typ == FourCC("mdia") || typ == FourCC("minf")
              || typ == FourCC("stbl") || typ == FourCC("udta") || typ == FourCC("edts") || typ == FourCC("moof")
              || typ == FourCC("traf")
  {
  }

  lemma WalkNames()
    ensures META == FourCC("meta") && KEYS == FourCC("keys") && ILST == FourCC("ilst") && DATA == FourCC("data")
  {
  }

  /** The name of a key holds one of the tokens, whatever its case. */
  ghost predicate Named(key: seq<byte>, fold: Fold) {
    key != [] && exists before: seq<byte>, token, after: seq<byte> ::
      token in PRIVACY_TOKENS && fold(key) == before + token + after
  }

  lemma {:induction false} ContainsIff(s: seq<byte>, token: seq<byte>)
    ensures Contains(s, token) <==> exists before: seq<byte>, after: seq<byte> :: s == before + token + after
  {
    if token <= s {
      assert s == [] + token + s[|token|..];
    } else if s != [] {
      ContainsIff(s[1..], token);
      if before: seq<byte>, after: seq<byte> :| s[1..] == before + token + after {
        assert s == ([s[0]] + before) + token + after;
      }
      if before: seq<byte>, after: seq<byte> :| s == before + token + after {
        assert before == [] ==> s == token + after;
        assert s[1..] == before[1..] + token + after;
      }
    }
  }

  lemma NamedIff(key: seq<byte>, fold: Fold)
    ensures PrivacyKey(key, fold) <==> Named(key, fold)
  {
    forall token ensures Contains(fold(key), token)
      <==> exists before: seq<byte>, after: seq<byte> :: fold(key) == before + token + after
    {
      ContainsIff(fold(key), token);
    }
  }

  // ---------- the names of a keys table ----------

  /** One entry: its size, a name space of four bytes, and the name. */
  predicate KeyEntry(e: seq<byte>) {
    |e| >= 8 && Be32(e[..4]) == |e|
  }

  function Table(entries: seq<seq<byte>>): seq<byte> {
    if entries == [] then [] else entries[0] + Table(entries[1..])
  }

  /** A table of entries reads as their names, in order. */
  lemma {:induction false} KeysRead(entries: seq<seq<byte>>, rest: seq<byte>)
    requires forall i :: 0 <= i < |entries| ==> KeyEntry(entries[i])
    ensures
      var keys := KeyNames(Table(entries) + rest, |entries|);
      |keys| == |entries| && forall i :: 0 <= i < |entries| ==> KeyEntry(entries[i]) && keys[i] == entries[i][8..]
  {
    hide Be32;
    if entries != [] {
      var e, tail := entries[0], Table(entries[1..]) + rest;
      var data := Table(entries) + rest;
      assert data == e + tail;
      KeysRead(entries[1..], rest);
      assert KeyEntry(e) && data[..4] == e[..4] && data[8..|e|] == e[8..] && data[|e|..] == tail;
    }
  }

  /** The names of a meta box: those of its first keys box, whose entries follow their number. */
  lemma {:induction false} MetadataKeysRead(kids: seq<Box>, k: nat, head: seq<byte>, entries: seq<seq<byte>>,
      rest: seq<byte>)
    requires k < |kids| && TypeOf(kids[k].header) == KEYS
    requires forall j :: 0 <= j < k ==> TypeOf(kids[j].header) != KEYS
    requires |head| == 8 && Be32(head[4..8]) == |entries| <= MAX_BOX_SIBLINGS
    requires forall i :: 0 <= i < |entries| ==> KeyEntry(entries[i])
    requires kids[k].payload == head + (Table(entries) + rest)
    ensures
      var keys := MetadataKeys(kids);
      |keys| == |entries| && forall i :: 0 <= i < |entries| ==> KeyEntry(entries[i]) && keys[i] == entries[i][8..]
  {
    hide Be32, KeyNames, Table, TypeOf;
    KeysRead(entries, rest);
    FindFirst(kids, KEYS, k);
    var payload := kids[k].payload;
    assert payload[4..8] == head[4..8] && payload[8..] == Table(entries) + rest;
  }

  // ---------- ranges of the file ----------

  /** The range `[lo, hi)` of the file, after the scrub, is the scrub of what it was. */
  ghost predicate ScrubbedRange(now: seq<byte>, was: seq<byte>, lo: nat, hi: nat, level: Level, fold: Fold) {
    lo <= hi <= |was| && |now| == |was| && now[lo..hi] == Scrub(was[lo..hi], level, fold)
  }

  ghost function BoxesIn(s: seq<byte>, lo: nat, hi: nat, printable: bool): seq<Box>
    requires lo <= hi <= |s|
  {
    Split(s[lo..hi], MAX_BOX_SIBLINGS, printable).boxes
  }

  /** Where the payload of the `k`-th box of a range stands, and what type the box has. */
  ghost predicate BoxAt(s: seq<byte>, lo: nat, hi: nat, printable: bool, k: nat, ref: BoxRef) {
    && lo <= hi <= |s| && k < |BoxesIn(s, lo, hi, printable)|
    && ref == Layout(BoxesIn(s, lo, hi, printable), lo)[k]
  }

  lemma BoxBounds(s: seq<byte>, lo: nat, hi: nat, printable: bool, k: nat, ref: BoxRef)
    requires BoxAt(s, lo, hi, printable, k, ref)
    ensures
      var b := BoxesIn(s, lo, hi, printable)[k];
      && lo <= ref.start <= ref.end <= hi && s[ref.start..ref.end] == b.payload && ref.typ == TypeOf(b.header)
  {
    hide Print, Layout, TypeOf, Split;
    SplitPrints(s[lo..hi], MAX_BOX_SIBLINGS, printable);
    PayloadAt(s, lo, hi, BoxesIn(s, lo, hi, printable), k);
  }

  /** A box of a scrubbed range holds the scrub of its payload. */
  lemma ScrubbedBox(now: seq<byte>, was: seq<byte>, lo: nat, hi: nat, level: Level, fold: Fold, k: nat, ref: BoxRef)
    requires ScrubbedRange(now, was, lo, hi, level, fold)
    requires level.Container? ==> level.depth < MAX_BOX_DEPTH
    requires BoxAt(was, lo, hi, !level.ItemList?, k, ref)
    ensures lo <= ref.start <= ref.end <= hi
    ensures now[ref.start..ref.end] == ScrubPayload(BoxesIn(was, lo, hi, !level.ItemList?), k, level, fold)
  {
    hide Print, Layout, TypeOf, Split, Outline, Render, ScrubPayload, ScrubBoxes;
    var f := Region(was[lo..hi], level);
    var scrubbed := ScrubBoxes(f.boxes, level, fold);
    BoxBounds(was, lo, hi, !level.ItemList?, k, ref);
    OutlineOfScrub(was[lo..hi], level, fold);
    RegionPrints(now[lo..hi], level);
    ScrubSameLength(was[lo..hi], level, fold);
    ScrubBoxesAt(f.boxes, level, fold, k);
    PayloadAt(now, lo, hi, scrubbed, k);
    LayoutSame(f.boxes, scrubbed, lo);
  }

  /** A box the walk goes into is a scrubbed range again. */
  lemma ScrubbedInner(now: seq<byte>, was: seq<byte>, lo: nat, hi: nat, level: Level, fold: Fold, k: nat, ref: BoxRef)
    requires ScrubbedRange(now, was, lo, hi, level, fold)
    requires level.Container? ==> level.depth < MAX_BOX_DEPTH
    requires BoxAt(was, lo, hi, !level.ItemList?, k, ref)
    requires RoleOf(BoxesIn(was, lo, hi, !level.ItemList?), k, level, fold).Open?
    ensures
      var role := RoleOf(BoxesIn(was, lo, hi, !level.ItemList?), k, level, fold);
      ScrubbedRange(now, was, ref.start + role.skip, ref.end, role.level, fold)
  {
    hide Layout, TypeOf, Split, Outline, Render, RoleOf;
    var boxes := BoxesIn(was, lo, hi, !level.ItemList?);
    var role := RoleOf(boxes, k, level, fold);
    ScrubbedBox(now, was, lo, hi, level, fold, k, ref);
    BoxBounds(was, lo, hi, !level.ItemList?, k, ref);
    var payload, payload' := boxes[k].payload, now[ref.start..ref.end];
    assert payload' == payload[..role.skip] + Scrub(payload[role.skip..], role.level, fold);
    assert payload'[role.skip..] == Scrub(payload[role.skip..], role.level, fold);
    SubSlice(was, ref.start, ref.end, role.skip, |payload|);
    SubSlice(now, ref.start, ref.end, role.skip, |payload|);
  }

  // ---------- containers ----------

  /** The container reached from the top of the file through the `path[0]`-th box, its `path[1]`-th, and so on. */
  ghost predicate ContainerAt(s: seq<byte>, path: seq<nat>, lo: nat, hi: nat) {
    if path == [] then lo == 0 && hi == |s|
    else
      var up, k := path[..|path| - 1], path[|path| - 1];
      |up| < MAX_BOX_DEPTH
      && exists lo', hi', ref :: ContainerAt(s, up, lo', hi') && BoxAt(s, lo', hi', true, k, ref)
                                 && IsContainer(ref.typ) && lo == ref.start && hi == ref.end
  }

  /** No type is a container and a privacy box, and a meta box is neither. */
  lemma NamesApart(typ: u32)
    ensures !(IsContainer(typ) && IsPrivacyBox(typ)) && !IsContainer(META) && !IsPrivacyBox(META)
  {
  }

  lemma {:induction false} ContainerScrubbed(was: seq<byte>, path: seq<nat>, lo: nat, hi: nat, fold: Fold)
    requires ContainerAt(was, path, lo, hi)
    ensures ScrubbedRange(Strip(was, fold), was, lo, hi, Container(|path|), fold)
  {
    hide Layout, TypeOf, Split, Outline, Render, IsContainer, IsPrivacyBox, BoxAt, Scrub;
    var now := Strip(was, fold);
    if path == [] {
      ScrubSameLength(was, Container(0), fold);
      assert was[0..|was|] == was && now[0..|now|] == now;
    } else {
      var up, k := path[..|path| - 1], path[|path| - 1];
      var lo', hi', ref :| ContainerAt(was, up, lo', hi') && BoxAt(was, lo', hi', true, k, ref)
        && IsContainer(ref.typ) && lo == ref.start && hi == ref.end;
      ContainerScrubbed(was, up, lo', hi', fold);
      ContainerStep(now, was, lo', hi', |up|, fold, k, ref);
    }
  }

  lemma ContainerStep(now: seq<byte>, was: seq<byte>, lo: nat, hi: nat, depth: nat, fold: Fold, k: nat, ref: BoxRef)
    requires ScrubbedRange(now, was, lo, hi, Container(depth), fold) && depth < MAX_BOX_DEPTH
    requires BoxAt(was, lo, hi, true, k, ref) && IsContainer(ref.typ)
    ensures ScrubbedRange(now, was, ref.start, ref.end, Container(depth + 1), fold)
  {
    hide Layout, TypeOf, Split, IsContainer, IsPrivacyBox, BoxAt, Scrub, ChildrenOf, ScrubbedRange;
    BoxBounds(was, lo, hi, true, k, ref);
    NamesApart(ref.typ);
    ScrubbedInner(now, was, lo, hi, Container(depth), fold, k, ref);
  }

  /** In every container above the depth cap, a privacy box is blank in the scrubbed file. */
  lemma {:induction false} PrivacyBoxBlank(was: seq<byte>, path: seq<nat>, lo: nat, hi: nat, k: nat, ref: BoxRef,
      fold: Fold)
    requires ContainerAt(was, path, lo, hi) && |path| < MAX_BOX_DEPTH
    requires BoxAt(was, lo, hi, true, k, ref) && IsPrivacyBox(ref.typ)
    ensures ref.start <= ref.end <= |Strip(was, fold)| && AllZero(Strip(was, fold)[ref.start..ref.end])
  {
    hide Layout, TypeOf, Split, IsPrivacyBox, Scrub, Strip, ContainerAt;
    BoxBounds(was, lo, hi, true, k, ref);
    ContainerScrubbed(was, path, lo, hi, fold);
    ScrubbedBox(Strip(was, fold), was, lo, hi, Container(|path|), fold, k, ref);
  }

  /** A box that is neither a container, nor a meta box, nor a privacy box stays as it was. */
  lemma {:induction false} OtherBoxKept(was: seq<byte>, path: seq<nat>, lo: nat, hi: nat, k: nat, ref: BoxRef,
      fold: Fold)
    requires ContainerAt(was, path, lo, hi) && |path| < MAX_BOX_DEPTH
    requires BoxAt(was, lo, hi, true, k, ref) && !IsPrivacyBox(ref.typ) && !IsContainer(ref.typ) && ref.typ != META
    ensures ref.start <= ref.end <= |Strip(was, fold)| == |was|
    ensures Strip(was, fold)[ref.start..ref.end] == was[ref.start..ref.end]
  {
    hide Layout, TypeOf, Split, IsPrivacyBox, IsContainer, Scrub, Strip, ContainerAt;
    BoxBounds(was, lo, hi, true, k, ref);
    ContainerScrubbed(was, path, lo, hi, fold);
    ScrubbedBox(Strip(was, fold), was, lo, hi, Container(|path|), fold, k, ref);
  }

  // ---------- the items of a meta box ----------

  /**
   The `m`-th box of the container is a meta box, and `[lo, hi)` the payload of the first item list among
   its children, whose names are `keys`.
   */
  ghost predicate ItemsAt(s: seq<byte>, path: seq<nat>, m: nat, lo: nat, hi: nat, keys: seq<seq<byte>>) {
    exists lo', hi', meta: BoxRef, skip: nat, list: BoxRef ::
      && ContainerAt(s, path, lo', hi') && |path| < MAX_BOX_DEPTH
      && BoxAt(s, lo', hi', true, m, meta) && meta.typ == META
      && ChildrenStart(s, meta, skip)
      && FirstItemList(s, meta.start + skip, meta.end, list, keys) && lo == list.start && hi == list.end
  }

  /** Children stand at once, or after a version and flags, wherever a box is first announced. */
  ghost predicate ChildrenStart(s: seq<byte>, meta: BoxRef, skip: nat) {
    && meta.start + skip <= meta.end <= |s| && (skip == 0 || skip == 4)
    && LooksLikeBoxHeader(s[meta.start + skip..meta.end])
    && (skip == 4 ==> !LooksLikeBoxHeader(s[meta.start..meta.end]))
  }

  ghost predicate FirstItemList(s: seq<byte>, lo: nat, hi: nat, list: BoxRef, keys: seq<seq<byte>>) {
    exists k: nat ::
      && BoxAt(s, lo, hi, true, k, list) && list.typ == ILST
      && (forall j :: 0 <= j < k ==> TypeOf(BoxesIn(s, lo, hi, true)[j].header) != ILST)
      && keys == MetadataKeys(BoxesIn(s, lo, hi, true))
  }

  /**
   An entry is private if its number names a key that holds a token, counting from 1, or its type is a
   privacy box.
   */
  ghost predicate IsPrivate(typ: u32, keys: seq<seq<byte>>, fold: Fold) {
    (1 <= typ <= |keys| && Named(keys[typ - 1], fold)) || IsPrivacyBox(typ)
  }

  lemma ItemsScrubbed(was: seq<byte>, path: seq<nat>, m: nat, lo: nat, hi: nat, keys: seq<seq<byte>>, fold: Fold)
    requires ItemsAt(was, path, m, lo, hi, keys)
    ensures ScrubbedRange(Strip(was, fold), was, lo, hi, ItemList(keys), fold)
  {
    hide Layout, TypeOf, Split, Scrub, Strip, ContainerAt, BoxAt, ChildrenStart, FirstItemList, ScrubbedRange;
    var now := Strip(was, fold);
    var lo', hi', meta: BoxRef, skip: nat, list: BoxRef :|
      && ContainerAt(was, path, lo', hi') && |path| < MAX_BOX_DEPTH
      && BoxAt(was, lo', hi', true, m, meta) && meta.typ == META
      && ChildrenStart(was, meta, skip)
      && FirstItemList(was, meta.start + skip, meta.end, list, keys) && lo == list.start && hi == list.end;
    ContainerScrubbed(was, path, lo', hi', fold);
    MetaStep(now, was, lo', hi', |path|, fold, m, meta, skip);
    ListStep(now, was, meta.start + skip, meta.end, fold, list, keys);
  }

  lemma MetaStep(now: seq<byte>, was: seq<byte>, lo: nat, hi: nat, depth: nat, fold: Fold, k: nat, meta: BoxRef,
                 skip: nat)
    requires ScrubbedRange(now, was, lo, hi, Container(depth), fold) && depth < MAX_BOX_DEPTH
    requires BoxAt(was, lo, hi, true, k, meta) && meta.typ == META && ChildrenStart(was, meta, skip)
    ensures ScrubbedRange(now, was, meta.start + skip, meta.end, MetaKids, fold)
  {
    hide Layout, TypeOf, Split, IsContainer, IsPrivacyBox, BoxAt, Scrub, ScrubbedRange, LooksLikeBoxHeader;
    BoxBounds(was, lo, hi, true, k, meta);
    NamesApart(META);
    var payload := was[meta.start..meta.end];
    SubSlice(was, meta.start, meta.end, skip, |payload|);
    assert payload[0..] == payload;
    ScrubbedInner(now, was, lo, hi, Container(depth), fold, k, meta);
  }

  lemma ListStep(now: seq<byte>, was: seq<byte>, lo: nat, hi: nat, fold: Fold, list: BoxRef, keys: seq<seq<byte>>)
    requires ScrubbedRange(now, was, lo, hi, MetaKids, fold) && FirstItemList(was, lo, hi, list, keys)
    ensures ScrubbedRange(now, was, list.start, list.end, ItemList(keys), fold)
  {
    hide Layout, TypeOf, Split, Scrub, ScrubbedRange, MetadataKeys;
    var k: nat :| BoxAt(was, lo, hi, true, k, list) && list.typ == ILST
      && (forall j :: 0 <= j < k ==> TypeOf(BoxesIn(was, lo, hi, true)[j].header) != ILST)
      && keys == MetadataKeys(BoxesIn(was, lo, hi, true));
    BoxBounds(was, lo, hi, true, k, list);
    FindFirst(BoxesIn(was, lo, hi, true), ILST, k);
    ScrubbedInner(now, was, lo, hi, MetaKids, fold, k, list);
  }

  lemma AtBox(s: seq<byte>, lo: nat, hi: nat, printable: bool, k: nat, ref: BoxRef)
    requires BoxAt(s, lo, hi, printable, k, ref)
    ensures lo <= hi <= |s| && k < |BoxesIn(s, lo, hi, printable)|
  {
  }

  lemma {:induction false} FindFirst(boxes: seq<Box>, typ: u32, k: nat)
    requires k < |boxes| && TypeOf(boxes[k].header) == typ
    requires forall j :: 0 <= j < k ==> TypeOf(boxes[j].header) != typ
    ensures FindBox(boxes, typ) == k
  {
  }

  /** Past its type and locale, every data value of a private entry is zero in the scrubbed file. */
  lemma PrivateValueBlank(was: seq<byte>, path: seq<nat>, m: nat, lo: nat, hi: nat, keys: seq<seq<byte>>,
                          j: nat, item: BoxRef, v: nat, value: BoxRef, fold: Fold)
    requires ItemsAt(was, path, m, lo, hi, keys)
    requires BoxAt(was, lo, hi, false, j, item) && IsPrivate(item.typ, keys, fold)
    requires BoxAt(was, item.start, item.end, true, v, value) && value.typ == DATA
    ensures |Strip(was, fold)| == |was| && value.end <= |was|
    ensures forall i :: value.start + 8 <= i < value.end ==> Strip(was, fold)[i] == 0
  {
    hide Layout, TypeOf, Split, Scrub, Strip, ItemsAt, BoxAt, IsPrivacyBox, ScrubbedRange, Named, PrivacyKey;
    var now := Strip(was, fold);
    ItemsScrubbed(was, path, m, lo, hi, keys, fold);
    BoxBounds(was, lo, hi, false, j, item);
    BoxBounds(was, item.start, item.end, true, v, value);
    if 1 <= item.typ <= |keys| {
      NamedIff(keys[item.typ - 1], fold);
    }
    ItemStep(now, was, lo, hi, keys, fold, j, item);
    ValueStep(now, was, item.start, item.end, fold, v, value);
  }

  lemma ItemStep(now: seq<byte>, was: seq<byte>, lo: nat, hi: nat, keys: seq<seq<byte>>, fold: Fold, j: nat,
                 item: BoxRef)
    requires ScrubbedRange(now, was, lo, hi, ItemList(keys), fold) && BoxAt(was, lo, hi, false, j, item)
    requires (1 <= item.typ <= |keys| && PrivacyKey(keys[item.typ - 1], fold)) || IsPrivacyBox(item.typ)
    ensures ScrubbedRange(now, was, item.start, item.end, Entry, fold)
  {
    hide Layout, TypeOf, Split, Scrub, BoxAt, IsPrivacyBox, ScrubbedRange, PrivacyKey;
    BoxBounds(was, lo, hi, false, j, item);
    AtBox(was, lo, hi, false, j, item);
    ScrubbedInner(now, was, lo, hi, ItemList(keys), fold, j, item);
  }

  lemma ValueStep(now: seq<byte>, was: seq<byte>, lo: nat, hi: nat, fold: Fold, v: nat, value: BoxRef)
    requires ScrubbedRange(now, was, lo, hi, Entry, fold)
    requires BoxAt(was, lo, hi, true, v, value) && value.typ == DATA
    ensures |now| == |was| && value.end <= |was|
    ensures forall i :: value.start + 8 <= i < value.end ==> now[i] == 0
  {
    hide Layout, TypeOf, Split, Scrub;
    BoxBounds(was, lo, hi, true, v, value);
    ScrubbedBox(now, was, lo, hi, Entry, fold, v, value);
    var payload' := now[value.start..value.end];
    forall i | value.start + 8 <= i < value.end ensures now[i] == 0 {
      assert now[i] == payload'[i - value.start];
    }
  }

  /** An entry whose number names no such key, and whose type is no privacy box, stays as it was. */
  lemma OtherEntryKept(was: seq<byte>, path: seq<nat>, m: nat, lo: nat, hi: nat, keys: seq<seq<byte>>,
                       j: nat, item: BoxRef, fold: Fold)
    requires ItemsAt(was, path, m, lo, hi, keys)
    requires BoxAt(was, lo, hi, false, j, item) && !IsPrivate(item.typ, keys, fold)
    ensures item.start <= item.end <= |was| == |Strip(was, fold)|
    ensures Strip(was, fold)[item.start..item.end] == was[item.start..item.end]
  {
    hide Layout, TypeOf, Split, Scrub, Strip, ItemsAt, IsPrivacyBox, Named, PrivacyKey;
    ItemsScrubbed(was, path, m, lo, hi, keys, fold);
    BoxBounds(was, lo, hi, false, j, item);
    if 1 <= item.typ <= |keys| {
      NamedIff(keys[item.typ - 1], fold);
    }
    ScrubbedBox(Strip(was, fold), was, lo, hi, ItemList(keys), fold, j, item);
  }
}
