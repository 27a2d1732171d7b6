/**
 The block grammar of the GIF89a specification, sections 15 to 27, as the upload sanitizer reads it:
 a syntax tree, its printer, and its reader.
 */
module GifFormat {
  import opened Wrappers
  import opened Bytes

  const MAX_GIF_FRAMES: nat := 256

  const EXTENSION_INTRODUCER: byte := 0x21
  const IMAGE_DESCRIPTOR: byte := 0x2C
  const TRAILER: byte := 0x3B
  const COMMENT_LABEL: byte := 0xFE
  const APPLICATION_LABEL: byte := 0xFF

  const GIF87A: seq<byte> := [0x47, 0x49, 0x46, 0x38, 0x37, 0x61]
  const GIF89A: seq<byte> := [0x47, 0x49, 0x46, 0x38, 0x39, 0x61]
  const NETSCAPE: seq<byte> := [0x4E, 0x45, 0x54, 0x53, 0x43, 0x41, 0x50, 0x45, 0x32, 0x2E, 0x30]
  const ANIMEXTS: seq<byte> := [0x41, 0x4E, 0x49, 0x4D, 0x45, 0x58, 0x54, 0x53, 0x31, 0x2E, 0x30]

  /** The payload of one sub-block; its length byte is never zero. */
  type SubBlock = s: seq<byte> | 1 <= |s| <= 255 witness [0]

  /** The number of bytes of the colour table a packed field describes; none without its high bit. */
  function ColorTableSize(packed: byte): nat {
    3 * [2, 4, 8, 16, 32, 64, 128, 256][packed % 8]
  }

  function TableSize(packed: byte): nat {
    if packed >= 0x80 then ColorTableSize(packed) else 0
  }

  function Pow2(n: nat): nat {
    if n == 0 then 1 else 2 * Pow2(n - 1)
  }

  /** A table has two to the power of one more than the low three bits of colours, of three bytes each. */
  lemma {:induction false} TableColours(packed: byte)
    ensures TableSize(packed) == if packed < 128 then 0 else 3 * Pow2(packed % 8 + 1)
  {
    var n := packed % 8;
    assert Pow2(1) == 2 && Pow2(2) == 4 && Pow2(3) == 8 && Pow2(4) == 16;
    assert Pow2(5) == 32 && Pow2(6) == 64 && Pow2(7) == 128 && Pow2(8) == 256;
  }

  type Descriptor = d: seq<byte> | |d| == 10 && d[0] == IMAGE_DESCRIPTOR
    witness [0x2C, 0, 0, 0, 0, 0, 0, 0, 0, 0]

  datatype Block =
    | Image(descriptor: Descriptor, table: seq<byte>, codeSize: byte, data: seq<SubBlock>)
    | Extension(tag: byte, data: seq<SubBlock>)
  {
    predicate Valid() {
      Image? ==> |table| == TableSize(descriptor[9])
    }
  }

  type ValidBlock = b: Block | b.Valid() witness Extension(0, [])

  /** Signature, version and logical screen descriptor. */
  type Screen = h: seq<byte> | |h| == 13 && (h[..6] == GIF87A || h[..6] == GIF89A)
    witness GIF87A + [0, 0, 0, 0, 0, 0, 0]

  datatype Gif = Gif(screen: Screen, table: seq<byte>, blocks: seq<ValidBlock>)
  {
    predicate Valid() {
      |table| == TableSize(screen[10])
    }
  }

  type ValidGif = g: Gif | g.Valid()
    witness Gif(GIF87A + [0, 0, 0, 0, 0, 0, 0], [], [])

  // ---------- printer ----------

  function PrintSubs(subs: seq<SubBlock>): seq<byte> {
    if subs == [] then [0] else ([|subs[0]|] + subs[0]) + PrintSubs(subs[1..])
  }

  function PrintHead(b: ValidBlock): seq<byte> {
    match b
    case Image(descriptor, table, codeSize, _) => descriptor + (table + [codeSize])
    case Extension(tag, _) => [EXTENSION_INTRODUCER, tag]
  }

  function PrintBlock(b: ValidBlock): seq<byte> {
    PrintHead(b) + PrintSubs(b.data)
  }

  function PrintBlocks(blocks: seq<ValidBlock>): seq<byte> {
    if blocks == [] then [] else PrintBlock(blocks[0]) + PrintBlocks(blocks[1..])
  }

  function PrintFront(screen: Screen, table: seq<byte>): seq<byte> {
    screen + table
  }

  function Print(g: ValidGif): seq<byte> {
    PrintFront(g.screen, g.table) + (PrintBlocks(g.blocks) + [TRAILER])
  }

  function Frames(blocks: seq<ValidBlock>): nat {
    if blocks == [] then 0 else (if blocks[0].Image? then 1 else 0) + Frames(blocks[1..])
  }

  // ---------- reader ----------

  datatype Chain = Chain(subs: seq<SubBlock>, rest: seq<byte>)

  /** A chain of sub-blocks up to its terminator, and what follows. */
  function ReadSubs(data: seq<byte>): (r: Option<Chain>)
    ensures r.Some? ==> |r.value.rest| < |data|
  {
    if data == [] then None
    else
      var n := data[0];
      if n == 0 then Some(Chain([], data[1..]))
      else if 1 + n > |data| then None
      else
        match ReadSubs(data[1 + n..])
        case None => None
        case Some(c) => Some(Chain([data[1..1 + n]] + c.subs, c.rest))
  }

  datatype BlockRead = BadBlock | Read(block: ValidBlock, rest: seq<byte>)

  /** An image or an extension at the front of `data`. */
  function ReadBlock(data: seq<byte>): (r: BlockRead)
    requires data != []
    ensures r.Read? ==> |r.rest| < |data| && r.block.Image? == (data[0] == IMAGE_DESCRIPTOR)
  {
    if data[0] == IMAGE_DESCRIPTOR then
      if |data| < 10 then BadBlock
      else
        var t := 10 + TableSize(data[9]);
        if |data| <= t then BadBlock
        else
          match ReadSubs(data[t + 1..])
          case None => BadBlock
          case Some(c) => Read(Image(data[..10], data[10..t], data[t], c.subs), c.rest)
    else if data[0] == EXTENSION_INTRODUCER then
      if |data| < 2 then BadBlock
      else
        match ReadSubs(data[2..])
        case None => BadBlock
        case Some(c) => Read(Extension(data[1], c.subs), c.rest)
    else BadBlock
  }

  datatype Scan = Malformed | TooMany | Finished(blocks: seq<ValidBlock>, rest: seq<byte>)

  function Prepend(b: ValidBlock, s: Scan): Scan {
    if s.Finished? then s.(blocks := [b] + s.blocks) else s
  }

  /** Blocks up to the trailer, with at most `room` images among them. */
  function ReadBlocks(data: seq<byte>, room: nat): Scan
    decreases |data|
  {
    if data == [] then Malformed
    else if data[0] == TRAILER then Finished([], data[1..])
    else if data[0] == IMAGE_DESCRIPTOR && room == 0 then TooMany
    else
      var r := ReadBlock(data);
      if r.BadBlock? then Malformed
      else Prepend(r.block, ReadBlocks(r.rest, if r.block.Image? then room - 1 else room))
  }

  datatype GifRead = BadGif | TooManyFrames | Gave(gif: ValidGif, rest: seq<byte>)

  predicate HasFront(data: seq<byte>) {
    |data| >= 13 && (data[..6] == GIF87A || data[..6] == GIF89A) && |data| >= 13 + TableSize(data[10])
  }

  function ReadGif(data: seq<byte>): GifRead {
    if !HasFront(data) then BadGif
    else
      var t := 13 + TableSize(data[10]);
      assert data[..13][..6] == data[..6];
      match ReadBlocks(data[t..], MAX_GIF_FRAMES)
      case Malformed => BadGif
      case TooMany => TooManyFrames
      case Finished(blocks, rest) =>
        if Frames(blocks) == 0 then BadGif else Gave(Gif(data[..13], data[13..t], blocks), rest)
  }

  // ---------- the reader inverts the printer ----------

  lemma {:induction false} ReadPrintedSubs(subs: seq<SubBlock>, tail: seq<byte>)
    ensures ReadSubs(PrintSubs(subs) + tail) == Some(Chain(subs, tail))
  {
    if subs == [] {
      assert ([0] + tail)[1..] == tail;
    } else {
      ReadPrintedSubs(subs[1..], tail);
      Associate([|subs[0]|] + subs[0], PrintSubs(subs[1..]), tail);
      assert [subs[0]] + subs[1..] == subs;
    }
  }

  lemma {:induction false} PrintReadSubs(data: seq<byte>)
    ensures
      var r := ReadSubs(data);
      r.Some? ==> data == PrintSubs(r.value.subs) + r.value.rest
  {
    var r := ReadSubs(data);
    if r.Some? {
      var n := data[0];
      if n == 0 {
        assert data == [0] + data[1..];
      } else {
        PrintReadSubs(data[1 + n..]);
        var c := ReadSubs(data[1 + n..]).value;
        var s: SubBlock := data[1..1 + n];
        assert data == ([n] + s) + data[1 + n..];
        assert r.value.subs[1..] == c.subs;
        Associate([n] + s, PrintSubs(c.subs), c.rest);
      }
    }
  }

  lemma ReadPrintedBlock(b: ValidBlock, tail: seq<byte>)
    ensures PrintBlock(b) + tail != []
    ensures (PrintBlock(b) + tail)[0] == if b.Image? then IMAGE_DESCRIPTOR else EXTENSION_INTRODUCER
    ensures ReadBlock(PrintBlock(b) + tail) == Read(b, tail)
  {
    hide PrintSubs, ReadSubs, TableSize;
    var after := PrintSubs(b.data) + tail;
    var data := PrintBlock(b) + tail;
    Associate(PrintHead(b), PrintSubs(b.data), tail);
    ReadPrintedSubs(b.data, tail);
    match b
    case Image(descriptor, table, codeSize, _) =>
      var t := 10 + |table|;
      assert data == descriptor + (table + ([codeSize] + after));
      assert data[..10] == descriptor && data[9] == descriptor[9];
      assert data[10..t] == table;
      assert data[t] == codeSize;
      assert data[t + 1..] == after;
    case Extension(tag, _) =>
      assert data[1] == tag;
      assert data[2..] == after;
  }

  lemma PrintReadBlock(data: seq<byte>)
    requires data != []
    ensures
      var r := ReadBlock(data);
      r.Read? ==> data == PrintBlock(r.block) + r.rest
  {
    hide PrintSubs, ReadSubs, TableSize;
    var r := ReadBlock(data);
    if r.Read? {
      if data[0] == IMAGE_DESCRIPTOR {
        var t := 10 + TableSize(data[9]);
        PrintReadSubs(data[t + 1..]);
        assert data == (data[..10] + (data[10..t] + [data[t]])) + data[t + 1..];
        Associate(PrintHead(r.block), PrintSubs(r.block.data), r.rest);
      } else {
        PrintReadSubs(data[2..]);
        assert data == [data[0], data[1]] + data[2..];
        Associate(PrintHead(r.block), PrintSubs(r.block.data), r.rest);
      }
    }
  }

  /** Printed blocks are read back, up to the trailer or up to one image too many. */
  lemma {:induction false} ReadPrintedBlocks(blocks: seq<ValidBlock>, tail: seq<byte>, room: nat)
    requires Frames(blocks) <= room
    requires tail != [] && (tail[0] == TRAILER || (tail[0] == IMAGE_DESCRIPTOR && Frames(blocks) == room))
    ensures
      ReadBlocks(PrintBlocks(blocks) + tail, room)
      == if tail[0] == TRAILER then Finished(blocks, tail[1..]) else TooMany
  {
    hide PrintBlock, ReadBlock;
    if blocks == [] {
      assert PrintBlocks(blocks) + tail == tail;
    } else {
      var b := blocks[0];
      Associate(PrintBlock(b), PrintBlocks(blocks[1..]), tail);
      ReadPrintedBlock(b, PrintBlocks(blocks[1..]) + tail);
      ReadPrintedBlocks(blocks[1..], tail, if b.Image? then room - 1 else room);
      assert [b] + blocks[1..] == blocks;
    }
  }

  lemma {:induction false} PrintReadBlocks(data: seq<byte>, room: nat)
    ensures
      var r := ReadBlocks(data, room);
      r.Finished? ==> Frames(r.blocks) <= room && data == (PrintBlocks(r.blocks) + [TRAILER]) + r.rest
    decreases |data|
  {
    hide PrintBlock, ReadBlock;
    var r := ReadBlocks(data, room);
    if r.Finished? {
      if data[0] == TRAILER {
        assert data == ([] + [TRAILER]) + data[1..];
      } else {
        var first := ReadBlock(data);
        var room' := if first.block.Image? then room - 1 else room;
        PrintReadBlock(data);
        PrintReadBlocks(first.rest, room');
        var tail := ReadBlocks(first.rest, room');
        assert r.blocks[0] == first.block && r.blocks[1..] == tail.blocks;
        Associate4(PrintBlock(first.block), PrintBlocks(tail.blocks), [TRAILER], r.rest);
      }
    }
  }

  /** What the reader saw before it met one image too many. */
  lemma {:induction false} PrintTooMany(data: seq<byte>, room: nat) returns (blocks: seq<ValidBlock>)
    requires ReadBlocks(data, room) == TooMany
    ensures Frames(blocks) == room && PrintBlocks(blocks) + [IMAGE_DESCRIPTOR] <= data
    decreases |data|
  {
    hide PrintBlock, ReadBlock;
    if data[0] == IMAGE_DESCRIPTOR && room == 0 {
      blocks := [];
      assert PrintBlocks(blocks) + [IMAGE_DESCRIPTOR] == [data[0]];
    } else {
      var first := ReadBlock(data);
      PrintReadBlock(data);
      var tail := PrintTooMany(first.rest, if first.block.Image? then room - 1 else room);
      blocks := [first.block] + tail;
      assert blocks[1..] == tail;
    }
  }

  // ---------- acceptance ----------

  /** The file begins with a complete GIF of 1 to 256 frames. */
  ghost predicate Matches(data: seq<byte>, g: ValidGif) {
    1 <= Frames(g.blocks) <= MAX_GIF_FRAMES && Print(g) <= data
  }

  /** The file begins with a screen, 256 frames, and the introducer of one more. */
  ghost predicate Overflows(data: seq<byte>, g: ValidGif) {
    && Frames(g.blocks) == MAX_GIF_FRAMES
    && PrintFront(g.screen, g.table) + (PrintBlocks(g.blocks) + [IMAGE_DESCRIPTOR]) <= data
  }

  lemma ReadFront(screen: Screen, table: seq<byte>, body: seq<byte>)
    requires |table| == TableSize(screen[10])
    ensures
      var data := PrintFront(screen, table) + body;
      && HasFront(data) && data[..13] == screen && 13 + TableSize(data[10]) == 13 + |table|
      && data[13..13 + |table|] == table && data[13 + |table|..] == body
  {
    hide TableSize;
    var data := PrintFront(screen, table) + body;
    assert data[..13] == screen;
    assert data[..6] == data[..13][..6];
  }

  lemma PrintReadFront(data: seq<byte>)
    requires HasFront(data)
    ensures
      var t := 13 + TableSize(data[10]);
      && (data[..13][..6] == GIF87A || data[..13][..6] == GIF89A)
      && data == PrintFront(data[..13], data[13..t]) + data[t..]
  {
    hide TableSize;
    assert data[..13][..6] == data[..6];
  }

  /** A file is read as `g` exactly when it begins with the print of `g`: the grammar is unambiguous. */
  lemma ReadGifIff(data: seq<byte>, g: ValidGif)
    ensures Matches(data, g) <==> ReadGif(data).Gave? && ReadGif(data).gif == g
    ensures Matches(data, g) ==> ReadGif(data).rest == data[|Print(g)|..]
  {
    hide TableSize, PrintBlocks, ReadBlocks, PrintFront;
    if Matches(data, g) {
      var rest := data[|Print(g)|..];
      var body := PrintBlocks(g.blocks) + [TRAILER];
      assert data == Print(g) + rest;
      Associate(PrintFront(g.screen, g.table), body, rest);
      ReadFront(g.screen, g.table, body + rest);
      Associate(PrintBlocks(g.blocks), [TRAILER], rest);
      var tail := [TRAILER] + rest;
      assert tail[1..] == rest;
      ReadPrintedBlocks(g.blocks, tail, MAX_GIF_FRAMES);
    }
    var r := ReadGif(data);
    if r.Gave? {
      PrintReadFront(data);
      var t := 13 + TableSize(data[10]);
      PrintReadBlocks(data[t..], MAX_GIF_FRAMES);
      Associate(PrintFront(data[..13], data[13..t]), PrintBlocks(r.gif.blocks) + [TRAILER], r.rest);
    }
  }

  /** A file has too many frames exactly when it goes on after 256 of them with an image. */
  lemma TooManyIff(data: seq<byte>)
    ensures ReadGif(data) == TooManyFrames <==> exists g :: Overflows(data, g)
  {
    hide TableSize, PrintBlocks, ReadBlocks, PrintFront;
    if g :| Overflows(data, g) {
      var open := PrintBlocks(g.blocks) + [IMAGE_DESCRIPTOR];
      var front := PrintFront(g.screen, g.table);
      var rest := data[|front + open|..];
      assert data == (front + open) + rest;
      Associate(front, open, rest);
      ReadFront(g.screen, g.table, open + rest);
      Associate(PrintBlocks(g.blocks), [IMAGE_DESCRIPTOR], rest);
      ReadPrintedBlocks(g.blocks, [IMAGE_DESCRIPTOR] + rest, MAX_GIF_FRAMES);
    }
    if ReadGif(data) == TooManyFrames {
      PrintReadFront(data);
      var t := 13 + TableSize(data[10]);
      var blocks := PrintTooMany(data[t..], MAX_GIF_FRAMES);
      var open := PrintBlocks(blocks) + [IMAGE_DESCRIPTOR];
      var front := PrintFront(data[..13], data[13..t]);
      assert front + open <= front + data[t..];
      assert Overflows(data, Gif(data[..13], data[13..t], blocks));
    }
  }

}
