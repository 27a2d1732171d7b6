/**
 The outline encoding of the world map: rings of points as zigzag, base-128, delta-coded integers.

 The decoder is written here as the inverse of the encoder; the one the app ships is not part of this
 model.
 */
module OutlineCodec {
  import opened Wrappers
  import opened Bytes

  datatype Point = Point(x: int, y: int)

  type Ring = seq<Point>

  /** A ring as the geometry library hands it over, in degrees. */
  type RawRing = seq<(real, real)>

  /** Rounding of scaled degrees to the grid, which is not part of this model. */
  type Quantize = real -> int

  function Grid(ring: RawRing, round: Quantize): (r: Ring)
    ensures |r| == |ring|
    ensures forall i :: 0 <= i < |r| ==> r[i] == Point(round(ring[i].0 * 1000.0), round(ring[i].1 * 1000.0))
  {
    seq(|ring|, i requires 0 <= i < |ring| => Point(round(ring[i].0 * 1000.0), round(ring[i].1 * 1000.0)))
  }

  function Grids(rings: seq<RawRing>, round: Quantize): (r: seq<Ring>)
    ensures |r| == |rings|
    ensures forall i :: 0 <= i < |r| ==> r[i] == Grid(rings[i], round)
  {
    seq(|rings|, i requires 0 <= i < |rings| => Grid(rings[i], round))
  }

  // ---------- encoding ----------

  function ZigzagEncode(n: int): nat {
    if n >= 0 then 2 * n else 2 * -n - 1
  }

  /** Seven bits to a byte, least significant first, the high bit set on all but the last. */
  function Varint(value: nat): seq<byte> {
    if value < 128 then [value] else [value % 128 + 128] + Varint(value / 128)
  }

  function Deltas(points: Ring, prev: Point): seq<byte> {
    if points == [] then []
    else
      var p := points[0];
      (Varint(ZigzagEncode(p.x - prev.x)) + Varint(ZigzagEncode(p.y - prev.y))) + Deltas(points[1..], p)
  }

  lemma {:induction false} DeltasStep(out: seq<byte>, ring: Ring, i: nat, prev: Point)
    requires i < |ring|
    ensures
      var p := ring[i];
      out + Deltas(ring[i..], prev)
        == (out + Varint(ZigzagEncode(p.x - prev.x)) + Varint(ZigzagEncode(p.y - prev.y))) + Deltas(ring[i + 1..], p)
  {
    hide Varint, ZigzagEncode;
    var p := ring[i];
    assert ring[i..][1..] == ring[i + 1..];
    Associate4(out, Varint(ZigzagEncode(p.x - prev.x)), Varint(ZigzagEncode(p.y - prev.y)), Deltas(ring[i + 1..], p));
  }

  function RingBytes(ring: Ring): seq<byte> {
    Varint(|ring|) + Deltas(ring, Point(0, 0))
  }

  function RingsBytes(rings: seq<Ring>): seq<byte> {
    if rings == [] then [] else RingBytes(rings[0]) + RingsBytes(rings[1..])
  }

  function GroupBytes(rings: seq<Ring>): seq<byte> {
    Varint(|rings|) + RingsBytes(rings)
  }

  /** Even numbers are not negative, odd ones are; and the closer to zero, the smaller. */
  lemma ZigzagIff(n: int)
    ensures ZigzagEncode(n) % 2 == 0 <==> n >= 0
    ensures 0 <= n ==> ZigzagEncode(n) == n + n
    ensures n < 0 ==> ZigzagEncode(n) + 1 == -n - n
  {
  }

  /** The number that groups of seven bits make, the least significant first. */
  function Grouped(bytes: seq<byte>): nat {
    if bytes == [] then 0 else bytes[0] % 128 + 128 * Grouped(bytes[1..])
  }

  /** All bytes but the last say that more follow, and their low bits make the number. */
  lemma {:induction false} VarintBytes(value: nat)
    ensures
      var bytes := Varint(value);
      && bytes != [] && Grouped(bytes) == value
      && forall i :: 0 <= i < |bytes| ==> (bytes[i] >= 128 <==> i < |bytes| - 1)
  {
    if value >= 128 {
      VarintBytes(value / 128);
      assert Varint(value)[1..] == Varint(value / 128);
    } else {
      assert Grouped([value][1..]) == 0;
    }
  }

  // ---------- the packer ----------

  class Buffer {
    var bytes: seq<byte>

    constructor ()
      ensures bytes == []
    {
      bytes := [];
    }

    method WriteVarint(value: nat)
      modifies this
      ensures bytes == old(bytes) + Varint(value)
    {
      var v := value;
      while true
        invariant old(bytes) + Varint(value) == bytes + Varint(v)
        decreases v
      {
        var b := v % 128;
        ghost var was := v;
        v := v / 128;
        if v != 0 {
          assert Varint(was) == [b + 128] + Varint(v);
          assert bytes + ([b + 128] + Varint(v)) == (bytes + [b + 128]) + Varint(v);
          bytes := bytes + [b + 128];
        } else {
          assert Varint(was) == [b];
          bytes := bytes + [b];
          return;
        }
      }
    }

    /** Appends one ring: its number of points, then their differences. */
    method WriteRing(points: RawRing, round: Quantize)
      modifies this
      ensures bytes == old(bytes) + RingBytes(Grid(points, round))
    {
      hide Varint, ZigzagEncode;
      ghost var ring := Grid(points, round);
      WriteVarint(|points|);
      ghost var head := bytes;
      var prevX, prevY := 0, 0;
      assert ring[0..] == ring;
      for i := 0 to |points|
        invariant head + Deltas(ring, Point(0, 0)) == bytes + Deltas(ring[i..], Point(prevX, prevY))
      {
        var x, y := round(points[i].0 * 1000.0), round(points[i].1 * 1000.0);
        DeltasStep(bytes, ring, i, Point(prevX, prevY));
        WriteVarint(ZigzagEncode(x - prevX));
        WriteVarint(ZigzagEncode(y - prevY));
        prevX, prevY := x, y;
      }
      Associate(old(bytes), Varint(|ring|), Deltas(ring, Point(0, 0)));
    }

    /** `pack_group`: the number of rings, then each ring. */
    method PackGroup(rings: seq<RawRing>, round: Quantize)
      modifies this
      ensures bytes == old(bytes) + GroupBytes(Grids(rings, round))
    {
      hide Varint, RingBytes;
      ghost var all := Grids(rings, round);
      WriteVarint(|rings|);
      ghost var head := bytes;
      assert all[0..] == all;
      for i := 0 to |rings|
        invariant head + RingsBytes(all) == bytes + RingsBytes(all[i..])
      {
        assert all[i..][1..] == all[i + 1..];
        Associate(bytes, RingBytes(all[i]), RingsBytes(all[i + 1..]));
        WriteRing(rings[i], round);
      }
      Associate(old(bytes), Varint(|all|), RingsBytes(all));
    }
  }

  // ---------- decoding ----------

  function ZigzagDecode(n: nat): int {
    if n % 2 == 0 then n / 2 else -(n / 2) - 1
  }

  datatype Parsed<+T> = Parsed(value: T, rest: seq<byte>)

  function ReadVarint(data: seq<byte>): (r: Option<Parsed<nat>>)
    ensures r.Some? ==> |r.value.rest| < |data|
  {
    if data == [] then None
    else if data[0] < 128 then Some(Parsed(data[0], data[1..]))
    else
      match ReadVarint(data[1..])
      case None => None
      case Some(p) => Some(Parsed(data[0] - 128 + 128 * p.value, p.rest))
  }

  function ReadDelta(data: seq<byte>): (r: Option<Parsed<int>>)
    ensures r.Some? ==> |r.value.rest| < |data|
  {
    match ReadVarint(data)
    case None => None
    case Some(p) => Some(Parsed(ZigzagDecode(p.value), p.rest))
  }

  function ReadPoints(data: seq<byte>, n: nat, prev: Point): Option<Parsed<Ring>>
    decreases n
  {
    if n == 0 then Some(Parsed([], data))
    else
      match ReadDelta(data)
      case None => None
      case Some(dx) =>
        match ReadDelta(dx.rest)
        case None => None
        case Some(dy) =>
          var p := Point(prev.x + dx.value, prev.y + dy.value);
          match ReadPoints(dy.rest, n - 1, p)
          case None => None
          case Some(tail) => Some(Parsed([p] + tail.value, tail.rest))
  }

  function ReadRing(data: seq<byte>): Option<Parsed<Ring>> {
    match ReadVarint(data)
    case None => None
    case Some(n) => ReadPoints(n.rest, n.value, Point(0, 0))
  }

  function ReadRings(data: seq<byte>, n: nat): Option<Parsed<seq<Ring>>>
    decreases n
  {
    if n == 0 then Some(Parsed([], data))
    else
      match ReadRing(data)
      case None => None
      case Some(r) =>
        match ReadRings(r.rest, n - 1)
        case None => None
        case Some(tail) => Some(Parsed([r.value] + tail.value, tail.rest))
  }

  function ReadGroup(data: seq<byte>): Option<Parsed<seq<Ring>>> {
    match ReadVarint(data)
    case None => None
    case Some(n) => ReadRings(n.rest, n.value)
  }

  // ---------- decoding inverts encoding ----------

  lemma ZigzagRoundTrip(n: int)
    ensures ZigzagDecode(ZigzagEncode(n)) == n
  {
  }

  lemma {:induction false} VarintRoundTrip(value: nat, tail: seq<byte>)
    ensures ReadVarint(Varint(value) + tail) == Some(Parsed(value, tail))
  {
    if value < 128 {
      assert ([value] + tail)[1..] == tail;
    } else {
      VarintRoundTrip(value / 128, tail);
      var b: byte := value % 128 + 128;
      Associate([b], Varint(value / 128), tail);
      assert ([b] + (Varint(value / 128) + tail))[1..] == Varint(value / 128) + tail;
    }
  }

  lemma DeltaRoundTrip(n: int, tail: seq<byte>)
    ensures ReadDelta(Varint(ZigzagEncode(n)) + tail) == Some(Parsed(n, tail))
  {
    VarintRoundTrip(ZigzagEncode(n), tail);
    ZigzagRoundTrip(n);
  }

  lemma {:induction false} PointsRoundTrip(points: Ring, prev: Point, tail: seq<byte>)
    ensures ReadPoints(Deltas(points, prev) + tail, |points|, prev) == Some(Parsed(points, tail))
  {
    hide Varint, ZigzagEncode, ReadDelta;
    if points == [] {
      assert Deltas(points, prev) + tail == tail;
    } else {
      var p := points[0];
      var dx, dy := Varint(ZigzagEncode(p.x - prev.x)), Varint(ZigzagEncode(p.y - prev.y));
      var after := Deltas(points[1..], p) + tail;
      assert ((dx + dy) + Deltas(points[1..], p)) + tail == dx + (dy + after);
      DeltaRoundTrip(p.x - prev.x, dy + after);
      DeltaRoundTrip(p.y - prev.y, after);
      PointsRoundTrip(points[1..], p, tail);
      assert [p] + points[1..] == points;
    }
  }

  lemma RingRoundTrip(ring: Ring, tail: seq<byte>)
    ensures ReadRing(RingBytes(ring) + tail) == Some(Parsed(ring, tail))
  {
    hide Varint, Deltas, ReadVarint, ReadPoints;
    Associate(Varint(|ring|), Deltas(ring, Point(0, 0)), tail);
    VarintRoundTrip(|ring|, Deltas(ring, Point(0, 0)) + tail);
    PointsRoundTrip(ring, Point(0, 0), tail);
  }

  lemma {:induction false} RingsRoundTrip(rings: seq<Ring>, tail: seq<byte>)
    ensures ReadRings(RingsBytes(rings) + tail, |rings|) == Some(Parsed(rings, tail))
  {
    hide RingBytes, ReadRing;
    if rings == [] {
      assert RingsBytes(rings) + tail == tail;
    } else {
      Associate(RingBytes(rings[0]), RingsBytes(rings[1..]), tail);
      RingRoundTrip(rings[0], RingsBytes(rings[1..]) + tail);
      RingsRoundTrip(rings[1..], tail);
      assert [rings[0]] + rings[1..] == rings;
    }
  }

  /** A packed group, whatever follows it, is read back ring by ring, and no byte further. */
  lemma GroupRoundTrip(rings: seq<Ring>, tail: seq<byte>)
    ensures ReadGroup(GroupBytes(rings) + tail) == Some(Parsed(rings, tail))
  {
    hide Varint, RingsBytes, ReadVarint, ReadRings;
    Associate(Varint(|rings|), RingsBytes(rings), tail);
    VarintRoundTrip(|rings|, RingsBytes(rings) + tail);
    RingsRoundTrip(rings, tail);
  }

  /** Two groups never share a file: equal bytes mean equal rings and equal remainders. */
  lemma GroupUnique(a: seq<Ring>, s: seq<byte>, b: seq<Ring>, t: seq<byte>)
    requires GroupBytes(a) + s == GroupBytes(b) + t
    ensures a == b && s == t
  {
    GroupRoundTrip(a, s);
    GroupRoundTrip(b, t);
  }
}
