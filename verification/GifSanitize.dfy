/** The in-place GIF sanitizer, and what it leaves in the buffer. */
module GifSanitize {
  import opened Wrappers
  import opened Bytes
  import opened GifFormat

  /** Netscape's and Animexts' loop control: one identifier, one 3-byte sub-block, nothing else. */
  predicate IsLoop(subs: seq<SubBlock>) {
    |subs| == 2 && (subs[0] == NETSCAPE || subs[0] == ANIMEXTS) && |subs[1]| == 3
  }

  function BlankSubs(subs: seq<SubBlock>): (blank: seq<SubBlock>)
    ensures |blank| == |subs|
    ensures forall i :: 0 <= i < |subs| ==> blank[i] == Zeros(|subs[i]|)
  {
    if subs == [] then [] else [Zeros(|subs[0]|)] + BlankSubs(subs[1..])
  }

  /** Comments, and application extensions other than loop control, can carry metadata. */
  predicate Revealing(b: ValidBlock) {
    b.Extension? && (b.tag == COMMENT_LABEL || (b.tag == APPLICATION_LABEL && !IsLoop(b.data)))
  }

  function ScrubBlock(b: ValidBlock): (s: ValidBlock)
    ensures s.Image? == b.Image?
  {
    if Revealing(b) then Extension(b.tag, BlankSubs(b.data)) else b
  }

  function ScrubBlocks(blocks: seq<ValidBlock>): (s: seq<ValidBlock>)
    ensures |s| == |blocks|
    ensures forall i :: 0 <= i < |s| ==> s[i] == ScrubBlock(blocks[i])
  {
    if blocks == [] then [] else [ScrubBlock(blocks[0])] + ScrubBlocks(blocks[1..])
  }

  function ScrubGif(g: ValidGif): ValidGif {
    Gif(g.screen, g.table, ScrubBlocks(g.blocks))
  }

  // ---------- the scrub keeps the shape ----------

  lemma {:induction false} BlankSameLength(subs: seq<SubBlock>)
    ensures |PrintSubs(BlankSubs(subs))| == |PrintSubs(subs)|
  {
    if subs != [] {
      BlankSameLength(subs[1..]);
      assert BlankSubs(subs)[1..] == BlankSubs(subs[1..]);
    }
  }

  lemma {:induction false} ScrubSameFrames(blocks: seq<ValidBlock>)
    ensures Frames(ScrubBlocks(blocks)) == Frames(blocks)
    ensures |PrintBlocks(ScrubBlocks(blocks))| == |PrintBlocks(blocks)|
  {
    if blocks != [] {
      ScrubSameFrames(blocks[1..]);
      assert ScrubBlocks(blocks)[1..] == ScrubBlocks(blocks[1..]);
      BlankSameLength(blocks[0].data);
    }
  }

  lemma ScrubGifTwice(g: ValidGif)
    ensures ScrubGif(ScrubGif(g)) == ScrubGif(g)
  {
    var s := ScrubBlocks(g.blocks);
    forall i | 0 <= i < |s| ensures ScrubBlocks(s)[i] == s[i] {
    }
    assert ScrubBlocks(s) == s;
  }

  /** What the sanitizer makes of a file it accepts. */
  function Sanitized(data: seq<byte>): seq<byte>
    requires ReadGif(data).Gave?
  {
    Print(ScrubGif(ReadGif(data).gif)) + ReadGif(data).rest
  }

  /** A second run accepts the sanitized file, counts the same frames, and changes nothing. */
  lemma SanitizeTwice(data: seq<byte>)
    requires ReadGif(data).Gave?
    ensures |Sanitized(data)| == |data|
    ensures ReadGif(Sanitized(data)).Gave?
    ensures Frames(ReadGif(Sanitized(data)).gif.blocks) == Frames(ReadGif(data).gif.blocks)
    ensures Sanitized(Sanitized(data)) == Sanitized(data)
  {
    hide ReadGif, Print, Frames;
    var r := ReadGif(data);
    var s := ScrubGif(r.gif);
    ReadGifIff(data, r.gif);
    SanitizedIsRead(r.gif, r.rest);
    ReadGifIff(Sanitized(data), s);
    assert Sanitized(data)[|Print(s)|..] == r.rest;
    ScrubGifTwice(r.gif);
    ScrubSameFrames(r.gif.blocks);
    PrintSameLength(r.gif);
    assert data == Print(r.gif) + data[|Print(r.gif)|..];
  }

  /** The lengths of sub-blocks. */
  ghost predicate SameLengths(a: seq<SubBlock>, b: seq<SubBlock>) {
    |a| == |b| && forall k :: 0 <= k < |a| ==> |a[k]| == |b[k]|
  }

  ghost predicate AllBlank(subs: seq<SubBlock>) {
    forall k :: 0 <= k < |subs| ==> AllZero(subs[k])
  }

  /**
   A reader of the sanitized file finds the blocks of the original: comments and application extensions
   with the same sub-blocks, all zero, every other block as it was, and the same bytes after the trailer.
   */
  lemma NothingRevealed(data: seq<byte>, i: nat)
    requires ReadGif(data).Gave? && i < |ReadGif(data).gif.blocks|
    ensures ReadGif(Sanitized(data)).Gave? && ReadGif(Sanitized(data)).rest == ReadGif(data).rest
    ensures
      var g, s := ReadGif(data).gif, ReadGif(Sanitized(data)).gif;
      && s.screen == g.screen && s.table == g.table && |s.blocks| == |g.blocks|
      && (if Revealing(g.blocks[i]) then
            s.blocks[i].Extension? && s.blocks[i].tag == g.blocks[i].tag
            && SameLengths(s.blocks[i].data, g.blocks[i].data) && AllBlank(s.blocks[i].data)
          else s.blocks[i] == g.blocks[i])
  {
    hide ReadGif, Print, Frames;
    var r := ReadGif(data);
    var s := ScrubGif(r.gif);
    ReadGifIff(data, r.gif);
    SanitizedIsRead(r.gif, r.rest);
    ReadGifIff(Sanitized(data), s);
    assert Sanitized(data)[|Print(s)|..] == r.rest;
  }

  /** The bytes of a string of ASCII characters. */
  function Ascii(s: string): seq<byte>
    requires forall i :: 0 <= i < |s| ==> s[i] < 128 as char
  {
    seq(|s|, i requires 0 <= i < |s| => s[i] as int)
  }

  /** One of the two names of loop control, and its three bytes. */
  predicate LoopControl(subs: seq<SubBlock>) {
    |subs| == 2 && |subs[1]| == 3 && (subs[0] == Ascii("NETSCAPE2.0") || subs[0] == Ascii("ANIMEXTS1.0"))
  }

  lemma LoopNames()
    ensures NETSCAPE == Ascii("NETSCAPE2.0") && ANIMEXTS == Ascii("ANIMEXTS1.0")
  {
  }

  /**
   What a reader of the sanitized file still finds in an extension labelled 0xFE, a comment, is all zero; in
   one labelled 0xFF, an application's, it is that or loop control, and loop control stays as it was.
   */
  lemma OnlyLoopsLeft(data: seq<byte>, i: nat)
    requires ReadGif(data).Gave? && i < |ReadGif(data).gif.blocks|
    requires ReadGif(data).gif.blocks[i].Extension?
    ensures ReadGif(Sanitized(data)).Gave? && i < |ReadGif(Sanitized(data)).gif.blocks|
    ensures
      var was, now := ReadGif(data).gif.blocks[i], ReadGif(Sanitized(data)).gif.blocks[i];
      && now.Extension? && now.tag == was.tag
      && (was.tag == 0xFE ==> AllBlank(now.data))
      && (was.tag == 0xFF ==> if LoopControl(was.data) then now.data == was.data else AllBlank(now.data))
      && (was.tag != 0xFE && was.tag != 0xFF ==> now.data == was.data)
  {
    hide ReadGif, Sanitized, Ascii;
    NothingRevealed(data, i);
    LoopNames();
  }

  lemma SanitizedIsRead(g: ValidGif, rest: seq<byte>)
    requires 1 <= Frames(g.blocks) <= MAX_GIF_FRAMES
    ensures Matches(Print(ScrubGif(g)) + rest, ScrubGif(g))
  {
    ScrubSameFrames(g.blocks);
  }

  lemma PrintSameLength(g: ValidGif)
    ensures |Print(ScrubGif(g))| == |Print(g)|
  {
    ScrubSameFrames(g.blocks);
  }

  // ---------- the loop-control test reads raw bytes ----------

  predicate IsAnimationExtension(data: seq<byte>) {
    && |data| >= 12 && data[0] == 11
    && (data[1..12] == NETSCAPE || data[1..12] == ANIMEXTS)
    && |data| >= 16 && data[12] == 3
    && |data| > 16 && data[16] == 0
  }

  /** On a complete chain, the raw test finds exactly the loop-control extensions. */
  lemma {:induction false} AnimationIff(data: seq<byte>)
    requires ReadSubs(data).Some?
    ensures IsAnimationExtension(data) <==> IsLoop(ReadSubs(data).value.subs)
  {
    var subs := ReadSubs(data).value.subs;
    if IsAnimationExtension(data) {
      var d1 := data[12..];
      assert data[1 + 11..] == d1 && data[1..1 + 11] == data[1..12];
      var d2 := d1[4..];
      assert d1[0] == 3 && d2[0] == 0;
      assert ReadSubs(d2).value.subs == [];
      assert ReadSubs(d1).value.subs == [d1[1..4]] + [];
    }
    if IsLoop(subs) {
      PrintReadSubs(data);
      var a, b := subs[0], subs[1];
      assert subs == [a, b] && subs[1..] == [b] && [b][1..] == [];
      assert PrintSubs([b]) == ([3] + b) + [0];
      assert PrintSubs(subs) == ([11] + a) + PrintSubs([b]);
      var rest := ReadSubs(data).value.rest;
      assert data == ([11] + a) + (([3] + b) + ([0] + rest));
      assert data[1..12] == a;
    }
  }

  // ---------- the buffer ----------

  /** Every byte is as it was, or zero. */
  ghost predicate Dimmed(now: seq<byte>, was: seq<byte>) {
    |now| == |was| && forall i :: 0 <= i < |now| ==> now[i] == was[i] || now[i] == 0
  }

  /** The sub-blocks as the walk writes them back. */
  function Written(subs: seq<SubBlock>, blank: bool): seq<SubBlock> {
    if blank then BlankSubs(subs) else subs
  }

  /** `out` is written, `here` is left to read, and together they will be the chain that began as `all`. */
  ghost predicate Skipped(all: Option<Chain>, before: seq<byte>, out: seq<byte>, here: seq<byte>, blank: bool) {
    var r := ReadSubs(here);
    && all.Some? == r.Some?
    && (r.Some? ==>
          && all.value.rest == r.value.rest
          && before + PrintSubs(Written(all.value.subs, blank)) == out + PrintSubs(Written(r.value.subs, blank)))
  }

  lemma SkipOne(all: Option<Chain>, before: seq<byte>, out: seq<byte>, here: seq<byte>, blank: bool)
    requires Skipped(all, before, out, here, blank)
    requires here != [] && 0 < here[0] && 1 + here[0] <= |here|
    ensures
      var n := here[0];
      var payload := if blank then Zeros(n) else here[1..1 + n];
      Skipped(all, before, out + ([n] + payload), here[1 + n..], blank)
  {
    var n := here[0];
    var r := ReadSubs(here[1 + n..]);
    if r.Some? {
      var subs := [here[1..1 + n]] + r.value.subs;
      assert subs[1..] == r.value.subs;
      assert Written(subs, blank)[1..] == Written(r.value.subs, blank) by {
        if blank {
          assert BlankSubs(subs)[1..] == BlankSubs(subs[1..]);
        }
      }
      var payload := if blank then Zeros(n) else here[1..1 + n];
      Associate(out, [n] + payload, PrintSubs(Written(r.value.subs, blank)));
    }
  }

  lemma SkipTurn(all: Option<Chain>, before: seq<byte>, out: seq<byte>, was: seq<byte>, p: nat, n: nat, blank: bool,
                 payload: seq<byte>)
    requires 1 <= p && p + n <= |was| && n == was[p - 1] > 0
    requires Skipped(all, before, out, was[p - 1..], blank)
    requires payload == if blank then Zeros(n) else was[p..p + n]
    ensures Skipped(all, before, out + ([n] + payload), was[p + n..], blank)
  {
    hide Skipped;
    var here := was[p - 1..];
    assert here[1..1 + n] == was[p..p + n];
    assert here[1 + n..] == was[p + n..];
    SkipOne(all, before, out, here, blank);
  }

  /**
   Advances past a chain of sub-blocks, blanking their payloads if asked to. On failure the buffer
   may hold the blanked part of an unfinished chain.
   */
  method SkipSubBlocks(data: array<byte>, start: nat, blank: bool) returns (p: nat, ok: bool)
    modifies data
    ensures
      var r := if start < data.Length then ReadSubs(old(data[..])[start..]) else None;
      && ok == r.Some?
      && (ok ==>
            && start < p <= data.Length
            && r.value.rest == old(data[..])[p..]
            && data[..] == (old(data[..])[..start] + PrintSubs(Written(r.value.subs, blank))) + r.value.rest)
    ensures Dimmed(data[..], old(data[..]))
  {
    hide ReadSubs, PrintSubs, Written, Skipped, Dimmed, Splice;
    SelfDimmed(data[..]);
    p := start;
    if p >= data.Length {
      return 0, false;
    }
    ghost var was := data[..];
    ghost var all := ReadSubs(was[start..]);
    ghost var out: seq<byte> := was[..start];
    SkipStarts(was, start, blank);
    while true
      invariant start <= p <= data.Length
      invariant Dimmed(data[..], was)
      invariant |out| == p && data[..] == out + was[p..]
      invariant Skipped(all, was[..start], out, was[p..], blank)
      decreases data.Length - p
    {
      ghost var here := was[p..];
      if p >= data.Length {
        SkipFails(all, was[..start], out, here, blank);
        return 0, false;
      }
      var n: int := data[p];
      assert here[0] == n;
      p := p + 1;
      if n == 0 {
        SkipEnds(all, was[..start], out, here, blank);
        assert here[1..] == was[p..];
        return p, true;
      }
      if p + n > data.Length {
        SkipFails(all, was[..start], out, here, blank);
        return 0, false;
      }
      ghost var payload := if blank then Zeros(n) else was[p..p + n];
      SkipTurn(all, was[..start], out, was, p, n, blank, payload);
      PassSub(data, p, n, blank, was, out, payload);
      out := out + ([n] + payload);
      p := p + n;
    }
  }

  /** Goes over the `n` bytes of one sub-block, whose length byte is at `p - 1`. */
  method PassSub(data: array<byte>, p: nat, n: nat, blank: bool, ghost was: seq<byte>, ghost out: seq<byte>,
                 ghost payload: seq<byte>)
    requires 1 <= p && p + n <= data.Length == |was| && |out| == p - 1 && data[..] == out + was[p - 1..]
    requires n == was[p - 1] && payload == (if blank then Zeros(n) else was[p..p + n])
    requires Dimmed(data[..], was)
    modifies data
    ensures data[..] == (out + ([n] + payload)) + was[p + n..]
    ensures Dimmed(data[..], was)
  {
    hide Dimmed, Splice;
    ghost var now := data[..];
    WriteSub(now, was, out, p, n, payload);
    if blank {
      Clear(data, p, p + n);
    } else {
      SpliceSame(now, p, p + n);
    }
  }

  lemma SelfDimmed(s: seq<byte>)
    ensures Dimmed(s, s)
  {
  }

  lemma SkipStarts(was: seq<byte>, start: nat, blank: bool)
    requires start <= |was|
    ensures Skipped(ReadSubs(was[start..]), was[..start], was[..start], was[start..], blank)
    ensures was == was[..start] + was[start..]
  {
  }

  lemma SkipFails(all: Option<Chain>, before: seq<byte>, out: seq<byte>, here: seq<byte>, blank: bool)
    requires Skipped(all, before, out, here, blank)
    requires here == [] || (here[0] != 0 && 1 + here[0] > |here|)
    ensures all == None
  {
  }

  lemma SkipEnds(all: Option<Chain>, before: seq<byte>, out: seq<byte>, here: seq<byte>, blank: bool)
    requires Skipped(all, before, out, here, blank)
    requires here != [] && here[0] == 0
    ensures all.Some? && all.value.rest == here[1..]
    ensures (before + PrintSubs(Written(all.value.subs, blank))) + all.value.rest == out + here
  {
    assert here == [0] + here[1..];
    assert Written([], blank) == [];
    Associate(out, [0], here[1..]);
  }

  /** One sub-block written at `p`, after its length byte. */
  lemma WriteSub(now: seq<byte>, was: seq<byte>, out: seq<byte>, p: nat, n: nat, payload: seq<byte>)
    requires 1 <= p && p + n <= |was| && |out| == p - 1 && now == out + was[p - 1..]
    requires n == was[p - 1] && |payload| == n && (payload == Zeros(n) || payload == was[p..p + n])
    requires Dimmed(now, was)
    ensures now[p..p + n] == was[p..p + n]
    ensures Splice(now, p, p + n, payload) == (out + ([n] + payload)) + was[p + n..]
    ensures Dimmed(Splice(now, p, p + n, payload), was)
  {
    WriteSubParts(now, was, out, p, n);
    assert Splice(now, p, p + n, payload) == (out + ([n] + payload)) + was[p + n..];
    DimmedSplice(now, was, p, n, payload);
  }

  lemma WriteSubParts(now: seq<byte>, was: seq<byte>, out: seq<byte>, p: nat, n: nat)
    requires 1 <= p && p + n <= |was| && |out| == p - 1 && now == out + was[p - 1..] && n == was[p - 1]
    ensures |now| == |was| && now[..p] == out + [n] && now[p + n..] == was[p + n..]
    ensures now[p..p + n] == was[p..p + n]
  {
    forall i | p <= i < p + n ensures now[i] == was[i] {
    }
  }

  lemma DimmedSplice(now: seq<byte>, was: seq<byte>, p: nat, n: nat, payload: seq<byte>)
    requires p + n <= |was| == |now| && |payload| == n && (payload == Zeros(n) || payload == was[p..p + n])
    requires Dimmed(now, was)
    ensures Dimmed(Splice(now, p, p + n, payload), was)
  {
    var next := Splice(now, p, p + n, payload);
    forall i | 0 <= i < |next| ensures next[i] == was[i] || next[i] == 0 {
      if p <= i < p + n {
        assert next[i] == payload[i - p];
      }
    }
  }

  // ---------- the whole file ----------

  /**
   `out` is written with `frames` images so far, `here` is left to read, and together they will be
   the scrubbed file whose blocks began as `all`.
   */
  ghost predicate Scanned(all: Scan, front: seq<byte>, out: seq<byte>, frames: nat, here: seq<byte>) {
    && frames <= MAX_GIF_FRAMES
    && var r := ReadBlocks(here, MAX_GIF_FRAMES - frames);
       match r
       case Malformed => all == Malformed
       case TooMany => all == TooMany
       case Finished(blocks, rest) =>
         && all.Finished? && all.rest == rest && Frames(all.blocks) == frames + Frames(blocks)
         && front + PrintBlocks(ScrubBlocks(all.blocks)) == out + PrintBlocks(ScrubBlocks(blocks))
  }

  lemma ScanOne(all: Scan, front: seq<byte>, out: seq<byte>, frames: nat, here: seq<byte>)
    requires Scanned(all, front, out, frames, here)
    requires here != [] && here[0] != TRAILER && (here[0] == IMAGE_DESCRIPTOR ==> frames < MAX_GIF_FRAMES)
    requires ReadBlock(here).Read?
    ensures
      var r := ReadBlock(here);
      Scanned(all, front, out + PrintBlock(ScrubBlock(r.block)), if r.block.Image? then frames + 1 else frames, r.rest)
  {
    hide ReadBlock, PrintBlock, ScrubBlock;
    var r := ReadBlock(here);
    var frames' := if r.block.Image? then frames + 1 else frames;
    var tail := ReadBlocks(r.rest, MAX_GIF_FRAMES - frames');
    if tail.Finished? {
      var blocks := [r.block] + tail.blocks;
      assert blocks[1..] == tail.blocks;
      assert ScrubBlocks(blocks) == [ScrubBlock(r.block)] + ScrubBlocks(tail.blocks);
      assert ScrubBlocks(blocks)[1..] == ScrubBlocks(tail.blocks);
      Associate(out, PrintBlock(ScrubBlock(r.block)), PrintBlocks(ScrubBlocks(tail.blocks)));
    }
  }

  lemma ScanStops(all: Scan, front: seq<byte>, out: seq<byte>, frames: nat, here: seq<byte>)
    requires Scanned(all, front, out, frames, here)
    ensures frames <= MAX_GIF_FRAMES
    ensures here == [] ==> all == Malformed
    ensures here != [] && here[0] == IMAGE_DESCRIPTOR && frames == MAX_GIF_FRAMES ==> all == TooMany
    ensures
      && here != [] && here[0] != TRAILER && (here[0] == IMAGE_DESCRIPTOR ==> frames < MAX_GIF_FRAMES)
      && ReadBlock(here).BadBlock?
      ==> all == Malformed
    ensures here != [] && here[0] == TRAILER ==>
              && all.Finished? && all.rest == here[1..] && Frames(all.blocks) == frames
              && (front + (PrintBlocks(ScrubBlocks(all.blocks)) + [TRAILER])) + all.rest == out + here
  {
    hide ReadBlock;
    if here != [] && here[0] == TRAILER {
      assert PrintBlocks(ScrubBlocks([])) == [];
      assert here == [TRAILER] + here[1..];
      var blocks := PrintBlocks(ScrubBlocks(all.blocks));
      assert front + (blocks + [TRAILER]) == (front + blocks) + [TRAILER];
    }
  }

  datatype GifError = MalformedGif | TooManyGifFrames

  /** The block at the front of `here` ends in a chain of sub-blocks at offset `n`, blanked or not by the scrub. */
  ghost predicate ChainAt(here: seq<byte>, n: nat, blank: bool)
    requires here != []
  {
    var c := if n < |here| then ReadSubs(here[n..]) else None;
    && (ReadBlock(here).Read? <==> c.Some?)
    && (c.Some? ==>
          && ReadBlock(here).rest == c.value.rest
          && PrintBlock(ScrubBlock(ReadBlock(here).block)) == here[..n] + PrintSubs(Written(c.value.subs, blank)))
  }

  /** A complete image block, as the walk passes over it: only its sub-blocks are read further. */
  lemma ImageBlock(here: seq<byte>)
    requires here != [] && here[0] == IMAGE_DESCRIPTOR
    ensures |here| < 10 ==> ReadBlock(here).BadBlock?
    ensures |here| >= 10 ==> ChainAt(here, 10 + TableSize(here[9]) + 1, false)
  {
    hide TableSize, PrintSubs;
    if |here| >= 10 {
      var t := 10 + TableSize(here[9]);
      if |here| == t + 1 {
        assert here[t + 1..] == [];
      } else if |here| > t + 1 {
        assert here[..10] + (here[10..t] + [here[t]]) == here[..t + 1];
      }
    }
  }

  predicate BlanksExtension(tag: byte, chain: seq<byte>) {
    tag == COMMENT_LABEL || (tag == APPLICATION_LABEL && !IsAnimationExtension(chain))
  }

  lemma ExtensionBlock(here: seq<byte>)
    requires here != [] && here[0] == EXTENSION_INTRODUCER
    ensures |here| < 2 ==> ReadBlock(here).BadBlock?
    ensures |here| >= 2 ==> ChainAt(here, 2, BlanksExtension(here[1], here[2..]))
  {
    hide PrintSubs, IsAnimationExtension, IsLoop;
    if |here| >= 2 {
      if |here| == 2 {
        assert here[2..] == [];
      }
      var c := ReadSubs(here[2..]);
      if c.Some? {
        AnimationIff(here[2..]);
        assert here[..2] == [here[0], here[1]];
      }
    }
  }

  /** The part of the buffer the walk has not reached is as it was. */
  lemma Unread(was: seq<byte>, out: seq<byte>, p: nat, before: seq<byte>, mid: nat)
    requires |out| == p <= |was| && before == out + was[p..]
    ensures |before| == |was|
    ensures p + mid <= |was| ==>
              before[p + mid..] == was[p..][mid..] == was[p + mid..] && before[..p + mid] == out + was[p..][..mid]
  {
    if p + mid <= |was| {
      assert was[p..][mid..] == was[p + mid..];
      assert before[p + mid..] == was[p + mid..];
      assert before[..p + mid] == out + was[p..][..mid];
    }
  }

  /** One block passed over in the buffer: `mid` bytes of it kept, its chain of sub-blocks written back. */
  lemma PassBlock(all: Scan, front: seq<byte>, out: seq<byte>, frames: nat, was: seq<byte>, p: nat, mid: nat,
                  blank: bool, before: seq<byte>, now: seq<byte>, q: nat)
    returns (out': seq<byte>)
    requires |out| == p && p + mid < q <= |was| && before == out + was[p..] && mid >= 1
    requires var here := was[p..];
             && Scanned(all, front, out, frames, here)
             && here[0] != TRAILER && (here[0] == IMAGE_DESCRIPTOR ==> frames < MAX_GIF_FRAMES)
             && ReadBlock(here).Read? && ReadSubs(here[mid..]).Some?
    requires var c := ReadSubs(before[p + mid..]);
             && c.Some? && c.value.rest == before[q..]
             && now == (before[..p + mid] + PrintSubs(Written(c.value.subs, blank))) + c.value.rest
             && ReadBlock(was[p..]).rest == c.value.rest
             && PrintBlock(ScrubBlock(ReadBlock(was[p..]).block))
             == was[p..][..mid] + PrintSubs(Written(c.value.subs, blank))
    requires |now| == |was|
    ensures |out'| == q && now == out' + was[q..]
    ensures Scanned(all, front, out', if was[p] == IMAGE_DESCRIPTOR then frames + 1 else frames, was[q..])
  {
    hide ReadBlock, ReadSubs, PrintSubs, PrintBlock, ScrubBlock, Written, Scanned;
    var here := was[p..];
    Unread(was, out, p, before, mid);
    Unread(was, out, p, before, q - p);
    var c := ReadSubs(before[p + mid..]).value;
    var block := PrintBlock(ScrubBlock(ReadBlock(here).block));
    ScanOne(all, front, out, frames, here);
    out' := out + block;
    Associate(out, here[..mid], PrintSubs(Written(c.subs, blank)));
    assert c.rest == was[q..];
    assert |now| == |out'| + |was[q..]|;
  }

  lemma DimmedTwice(a: seq<byte>, b: seq<byte>, c: seq<byte>)
    requires Dimmed(a, b) && Dimmed(b, c)
    ensures Dimmed(a, c)
  {
  }

  lemma ScanStarts(was: seq<byte>)
    requires HasFront(was)
    ensures
      var t := 13 + TableSize(was[10]);
      && Scanned(ReadBlocks(was[t..], MAX_GIF_FRAMES), was[..t], was[..t], 0, was[t..])
      && was == was[..t] + was[t..]
  {
    hide ReadBlocks, PrintBlocks;
  }

  /** The finished scan gives the outcome for the file. */
  lemma ScanDecides(was: seq<byte>)
    requires HasFront(was)
    ensures
      var t := 13 + TableSize(was[10]);
      var all := ReadBlocks(was[t..], MAX_GIF_FRAMES);
      && (all == Malformed ==> ReadGif(was) == BadGif)
      && (all == TooMany ==> ReadGif(was) == TooManyFrames)
      && (all.Finished? && Frames(all.blocks) == 0 ==> ReadGif(was) == BadGif)
      && (all.Finished? && Frames(all.blocks) != 0 ==>
            && ReadGif(was).Gave? && Frames(ReadGif(was).gif.blocks) == Frames(all.blocks)
            && Sanitized(was) == (was[..t] + (PrintBlocks(ScrubBlocks(all.blocks)) + [TRAILER])) + all.rest)
  {
    hide ReadBlocks, PrintBlocks, TableSize, ScrubBlocks;
    var t := 13 + TableSize(was[10]);
    assert was[..13] + was[13..t] == was[..t];
  }

  /** Goes over the chain of sub-blocks of the block that began at `start`. */
  method PassChain(data: array<byte>, p: nat, blank: bool, ghost was: seq<byte>, ghost all: Scan,
                   ghost front: seq<byte>, ghost out: seq<byte>, ghost frames: nat, ghost start: nat)
    returns (q: nat, ok: bool, ghost out': seq<byte>)
    requires start < p && start < |was| == data.Length && |out| == start && data[..] == out + was[start..]
    requires Dimmed(data[..], was)
    requires Scanned(all, front, out, frames, was[start..])
    requires was[start] != TRAILER && (was[start] == IMAGE_DESCRIPTOR ==> frames < MAX_GIF_FRAMES)
    requires ChainAt(was[start..], p - start, blank)
    modifies data
    ensures ok == ReadBlock(was[start..]).Read?
    ensures Dimmed(data[..], was)
    ensures ok ==> start < q <= data.Length && |out'| == q && data[..] == out' + was[q..]
    ensures ok ==> Scanned(all, front, out', if was[start] == IMAGE_DESCRIPTOR then frames + 1 else frames, was[q..])
  {
    hide ReadBlock, ReadSubs, PrintSubs, PrintBlock, ScrubBlock, Written, Scanned, Dimmed;
    ghost var before := data[..];
    Unread(was, out, start, before, p - start);
    q, ok := SkipSubBlocks(data, p, blank);
    DimmedTwice(data[..], before, was);
    out' := out;
    if ok {
      out' := PassBlock(all, front, out, frames, was, start, p - start, blank, before, data[..], q);
    }
  }

  /**
   The sanitizer. It accepts exactly the files that begin with a GIF of the grammar with 1 to 256
   frames, returns the number of frames, and leaves the scrubbed GIF and the bytes after its trailer.
   */
  method SanitizeGIF(data: array<byte>) returns (r: Result<nat, GifError>)
    modifies data
    ensures
      match ReadGif(old(data[..]))
      case Gave(g, _) => r == Ok(Frames(g.blocks)) && data[..] == Sanitized(old(data[..]))
      case TooManyFrames => r == Err(TooManyGifFrames)
      case BadGif => r == Err(MalformedGif)
    ensures Dimmed(data[..], old(data[..]))
  {
    hide ReadBlocks, ReadBlock, ReadSubs, PrintSubs, PrintBlock, ScrubBlock, Written, Scanned, Dimmed, BlanksExtension,
         TableSize, PrintBlocks, ScrubBlocks, ReadGif, Frames, Sanitized, ChainAt;
    ghost var was := data[..];
    SelfDimmed(was);
    if data.Length < 13 || (data[0..6] != GIF87A && data[0..6] != GIF89A) {
      BadFront(was);
      return Err(MalformedGif);
    }
    assert data[0..6] == was[..6];
    var p := 13 + TableSize(data[10]);
    if p > data.Length {
      BadFront(was);
      return Err(MalformedGif);
    }
    ghost var front := was[..p];
    ghost var all := ReadBlocks(was[p..], MAX_GIF_FRAMES);
    ghost var out: seq<byte> := front;
    ScanStarts(was);
    ScanDecides(was);
    var frames := 0;
    while true
      invariant p <= data.Length && |out| == p
      invariant data[..] == out + was[p..]
      invariant Dimmed(data[..], was)
      invariant Scanned(all, front, out, frames, was[p..])
      decreases data.Length - p
    {
      ghost var here, start := was[p..], p;
      ScanStops(all, front, out, frames, here);
      if p >= data.Length {
        return Err(MalformedGif);
      }
      assert data[p] == here[0];
      if data[p] == TRAILER {
        if frames == 0 {
          return Err(MalformedGif);
        }
        return Ok(frames);
      } else if data[p] == IMAGE_DESCRIPTOR {
        if frames + 1 > MAX_GIF_FRAMES {
          return Err(TooManyGifFrames);
        }
        ImageBlock(here);
        if p + 10 > data.Length {
          return Err(MalformedGif);
        }
        var packed := data[p + 9];
        assert packed == here[9];
        p := p + 10 + TableSize(packed) + 1;
        var q, ok, next := PassChain(data, p, false, was, all, front, out, frames, start);
        if !ok {
          return Err(MalformedGif);
        }
        out, frames, p := next, frames + 1, q;
      } else if data[p] == EXTENSION_INTRODUCER {
        ExtensionBlock(here);
        if p + 2 > data.Length {
          return Err(MalformedGif);
        }
        var tag := data[p + 1];
        assert tag == here[1];
        p := p + 2;
        Unread(was, out, start, data[..], 2);
        var blank := BlanksExtension(tag, data[p..]);
        var q, ok, next := PassChain(data, p, blank, was, all, front, out, frames, start);
        if !ok {
          return Err(MalformedGif);
        }
        out, p := next, q;
      } else {
        UnknownBlock(here);
        return Err(MalformedGif);
      }
    }
  }

  lemma BadFront(was: seq<byte>)
    requires !HasFront(was)
    ensures ReadGif(was) == BadGif
  {
  }

  lemma UnknownBlock(here: seq<byte>)
    requires here != [] && here[0] != IMAGE_DESCRIPTOR && here[0] != EXTENSION_INTRODUCER
    ensures ReadBlock(here).BadBlock?
  {
  }

}
