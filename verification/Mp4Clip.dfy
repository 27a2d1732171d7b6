/** What the probe says of a clip: how long it is, how large, and why it is refused. */
module Mp4Clip {
  import opened Wrappers
  import opened Bytes
  import opened Mp4Boxes
  import opened Mp4Outline
  import opened Mp4Probe
  import opened Mp4Privacy

  // ---------- tracks ----------

  /** The payloads of the track boxes, in order. */
  function Tracks(boxes: seq<Box>): seq<seq<byte>> {
    if boxes == [] then []
    else if TypeOf(boxes[0].header) == TRAK then [boxes[0].payload] + Tracks(boxes[1..])
    else Tracks(boxes[1..])
  }

  datatype Size = Size(width: int, height: int)

  function Area(s: Size): int {
    s.width * s.height
  }

  /** Whole pixels of the fixed-point size, its sides swapped by a quarter turn of the display matrix. */
  ghost predicate ShownAs(t: TrackHeader, s: Size) {
    if t.m0 == 0 && t.m4 == 0 && (t.m1 != 0 || t.m3 != 0) then Whole(t.width, s.height) && Whole(t.height, s.width)
    else Whole(t.width, s.width) && Whole(t.height, s.height)
  }

  /** `pixels` is the whole part of a number with 16 bits after the point. */
  predicate Whole(fixed: u32, pixels: int) {
    pixels * 0x1_0000 <= fixed < (pixels + 1) * 0x1_0000
  }

  /** The size a track shows: none without a track header that decodes. */
  function SizeOf(trak: seq<byte>, dec: Decoders): (s: Size)
    ensures s.width >= 0 && s.height >= 0
  {
    match Child(trak, TKHD)
    case None => Size(0, 0)
    case Some(tkhd) => var (w, h) := TrackDimensions(tkhd, dec); Size(w, h)
  }

  lemma SizeShown(trak: seq<byte>, dec: Decoders)
    ensures
      var tkhd := Child(trak, TKHD);
      if tkhd.Some? && dec.tkhd(tkhd.value).Some? then ShownAs(dec.tkhd(tkhd.value).value, SizeOf(trak, dec))
      else SizeOf(trak, dec) == Size(0, 0)
  {
    hide Child;
  }

  lemma AreaNonnegative(s: Size)
    requires s.width >= 0 && s.height >= 0
    ensures Area(s) >= 0
  {
  }

  /** A size larger than `from`, of the first track that has as large a one. */
  ghost predicate Attained(from: Size, tracks: seq<seq<byte>>, dec: Decoders, s: Size) {
    && Area(from) < Area(s)
    && exists i :: 0 <= i < |tracks| && s == SizeOf(tracks[i], dec)
                   && forall j :: 0 <= j < i ==> Area(SizeOf(tracks[j], dec)) < Area(s)
  }

  /** The size of the first of the largest tracks, or none. */
  ghost predicate IsLargest(tracks: seq<seq<byte>>, dec: Decoders, s: Size) {
    && (forall i :: 0 <= i < |tracks| ==> Area(SizeOf(tracks[i], dec)) <= Area(s))
    && (s == Size(0, 0) || Attained(Size(0, 0), tracks, dec, s))
  }

  /** The duration of a clip whose movie header gives `movie`: that, or else the first track's that has one. */
  ghost predicate IsDuration(movie: int, tracks: seq<seq<byte>>, dec: Decoders, ms: int) {
    && (movie > 0 ==> ms == movie)
    && (movie <= 0 && ms > 0 ==>
          exists i :: 0 <= i < |tracks| && ms == TrackDurationMs(tracks[i], dec)
                      && forall j :: 0 <= j < i ==> TrackDurationMs(tracks[j], dec) <= 0)
    && (movie <= 0 && ms <= 0 ==> forall i :: 0 <= i < |tracks| ==> TrackDurationMs(tracks[i], dec) <= 0)
  }

  /** One more track. */
  lemma TrackStep(trak: seq<byte>, info: VideoInfo, dec: Decoders)
    requires info.width >= 0 && info.height >= 0
    ensures
      var next, s := ProbeTrack(trak, info, dec), SizeOf(trak, dec);
      && Size(next.width, next.height)
         == (if Area(s) > Area(Size(info.width, info.height)) then s else Size(info.width, info.height))
      && (info.durationMs > 0 ==> next.durationMs == info.durationMs)
      && (info.durationMs <= 0 ==>
            if TrackDurationMs(trak, dec) > 0 then next.durationMs == TrackDurationMs(trak, dec)
            else next.durationMs <= 0)
  {
    hide Child, TrackDimensions, TrackDurationMs;
    AreaNonnegative(Size(info.width, info.height));
  }

  /** Reading tracks from `info` on: a larger one wins, and a duration already known stays. */
  lemma {:induction false} TracksFrom(boxes: seq<Box>, info: VideoInfo, dec: Decoders)
    requires info.width >= 0 && info.height >= 0
    ensures
      var r := ProbeTracks(boxes, info, dec);
      && r.width >= 0 && r.height >= 0 && IsDuration(info.durationMs, Tracks(boxes), dec, r.durationMs)
      && LargestFrom(Size(info.width, info.height), Tracks(boxes), dec, Size(r.width, r.height))
  {
    hide SizeOf, TrackDurationMs, ProbeTrack, TypeOf, Area;
    if boxes != [] {
      var tracks := Tracks(boxes);
      if TypeOf(boxes[0].header) == TRAK {
        var next := ProbeTrack(boxes[0].payload, info, dec);
        TrackStep(boxes[0].payload, info, dec);
        TracksFrom(boxes[1..], next, dec);
        var r := ProbeTracks(boxes[1..], next, dec);
        assert tracks == [boxes[0].payload] + Tracks(boxes[1..]);
        DurationCons(boxes[0].payload, Tracks(boxes[1..]), dec, info.durationMs, next.durationMs, r.durationMs);
        LargestCons(boxes[0].payload, Tracks(boxes[1..]), dec, Size(info.width, info.height),
                    Size(next.width, next.height), Size(r.width, r.height));
      } else {
        TracksFrom(boxes[1..], info, dec);
      }
    }
  }

  lemma DurationCons(t: seq<byte>, tracks: seq<seq<byte>>, dec: Decoders, from: int, next: int, ms: int)
    requires IsDuration(next, tracks, dec, ms)
    requires from > 0 ==> next == from
    requires from <= 0 ==> if TrackDurationMs(t, dec) > 0 then next == TrackDurationMs(t, dec) else next <= 0
    ensures IsDuration(from, [t] + tracks, dec, ms)
  {
    hide TrackDurationMs;
    var all := [t] + tracks;
    if from <= 0 && ms > 0 {
      if TrackDurationMs(t, dec) > 0 {
        assert all[0] == t;
      } else {
        var i :| 0 <= i < |tracks| && ms == TrackDurationMs(tracks[i], dec)
          && forall j :: 0 <= j < i ==> TrackDurationMs(tracks[j], dec) <= 0;
        assert all[i + 1] == tracks[i];
        forall j | 0 <= j < i + 1 ensures TrackDurationMs(all[j], dec) <= 0 {
          assert j > 0 ==> all[j] == tracks[j - 1];
        }
      }
    }
  }

  /** The largest of `from` and the tracks, the first of them. */
  ghost predicate LargestFrom(from: Size, tracks: seq<seq<byte>>, dec: Decoders, s: Size) {
    && Area(from) <= Area(s)
    && (forall i :: 0 <= i < |tracks| ==> Area(SizeOf(tracks[i], dec)) <= Area(s))
    && (s == from || Attained(from, tracks, dec, s))
  }

  lemma LargestCons(t: seq<byte>, tracks: seq<seq<byte>>, dec: Decoders, from: Size, next: Size, s: Size)
    requires next == if Area(SizeOf(t, dec)) > Area(from) then SizeOf(t, dec) else from
    requires LargestFrom(next, tracks, dec, s)
    ensures LargestFrom(from, [t] + tracks, dec, s)
  {
    hide SizeOf, Area;
    var all := [t] + tracks;
    assert all[0] == t;
    forall i | 0 <= i < |all| ensures Area(SizeOf(all[i], dec)) <= Area(s) {
      assert i > 0 ==> all[i] == tracks[i - 1];
    }
    if s == next {
      assert s == from || Attained(from, all, dec, s);
    } else {
      var i :| 0 <= i < |tracks| && s == SizeOf(tracks[i], dec)
        && forall j :: 0 <= j < i ==> Area(SizeOf(tracks[j], dec)) < Area(s);
      assert all[i + 1] == tracks[i];
      forall j | 0 <= j < i + 1 ensures Area(SizeOf(all[j], dec)) < Area(s) {
        assert j > 0 ==> all[j] == tracks[j - 1];
      }
      assert Attained(from, all, dec, s);
    }
  }

  /** The tracks of a movie box, and the clip they make. */
  ghost predicate IsClip(moov: seq<byte>, dec: Decoders, info: VideoInfo) {
    var tracks := Tracks(Split(moov, MAX_BOX_SIBLINGS, true).boxes);
    && IsDuration(MovieDuration(moov, dec), tracks, dec, info.durationMs)
    && IsLargest(tracks, dec, Size(info.width, info.height))
  }

  lemma ClipOf(moov: seq<byte>, dec: Decoders)
    ensures IsClip(moov, dec, ProbeMovie(moov, dec))
  {
    hide Split, SizeOf, MovieDuration, IsDuration;
    TracksFrom(Split(moov, MAX_BOX_SIBLINGS, true).boxes, VideoInfo(MovieDuration(moov, dec), 0, 0), dec);
  }

  lemma LargestUnique(tracks: seq<seq<byte>>, dec: Decoders, s: Size, t: Size)
    requires IsLargest(tracks, dec, s) && IsLargest(tracks, dec, t)
    ensures s == t
  {
    hide SizeOf;
    if Attained(Size(0, 0), tracks, dec, s) && Attained(Size(0, 0), tracks, dec, t) {
      var i :| 0 <= i < |tracks| && s == SizeOf(tracks[i], dec)
        && forall j :: 0 <= j < i ==> Area(SizeOf(tracks[j], dec)) < Area(s);
      var k :| 0 <= k < |tracks| && t == SizeOf(tracks[k], dec)
        && forall j :: 0 <= j < k ==> Area(SizeOf(tracks[j], dec)) < Area(t);
      assert Area(s) == Area(t);
    }
  }

  /** A movie makes one clip, if any with a duration. */
  lemma ClipUnique(moov: seq<byte>, dec: Decoders, a: VideoInfo, b: VideoInfo)
    requires IsClip(moov, dec, a) && IsClip(moov, dec, b) && a.durationMs > 0
    ensures a == b
  {
    hide Split, TrackDurationMs, IsLargest, MovieDuration, Tracks;
    LargestUnique(Tracks(Split(moov, MAX_BOX_SIBLINGS, true).boxes), dec, Size(a.width, a.height),
        Size(b.width, b.height));
  }

  // ---------- durations ----------

  /** A movie header that decodes gives the movie's milliseconds, rounded down, if they fit in 63 bits. */
  lemma MovieMilliseconds(moov: seq<byte>, mvhd: seq<byte>, dec: Decoders, t: Timing)
    requires Child(moov, MVHD) == Some(mvhd) && dec.mvhd(mvhd) == Some(t)
    requires t.timescale > 0 && Milliseconds(t.duration, t.timescale) < TWO63
    ensures MovieDuration(moov, dec) == Milliseconds(t.duration, t.timescale)
  {
    hide Child, ScaleToMs, Milliseconds;
    ScaleToMsFits(t.duration, t.timescale);
    MillisecondsSplit(t.duration, t.timescale);
  }

  const TWO63: int := 0x8000_0000_0000_0000

  /** Without one there is none. */
  lemma NoMovieHeader(moov: seq<byte>, dec: Decoders)
    requires Child(moov, MVHD).None? || dec.mvhd(Child(moov, MVHD).value).None?
    ensures MovieDuration(moov, dec) == 0
  {
    hide Child;
  }

  /** A track's media header gives its milliseconds, or the sample table does where the header gives none. */
  lemma TrackMilliseconds(trak: seq<byte>, mdia: seq<byte>, mdhd: seq<byte>, dec: Decoders, t: Timing)
    requires Child(trak, MDIA) == Some(mdia) && Child(mdia, MDHD) == Some(mdhd)
    requires dec.mdhd(mdhd) == Some(t) && t.timescale > 0
    ensures
      var header, samples := Milliseconds(t.duration, t.timescale),
                             Milliseconds(SampleTableDuration(mdia, dec), t.timescale);
      && (0 < header < TWO63 ==> TrackDurationMs(trak, dec) == header)
      && (header == 0 && samples < TWO63 ==> TrackDurationMs(trak, dec) == samples)
  {
    hide Child, ScaleToMs, Milliseconds, SampleTableDuration;
    ScaleToMsFits(t.duration, t.timescale);
    MillisecondsSplit(t.duration, t.timescale);
    ScaleToMsFits(SampleTableDuration(mdia, dec), t.timescale);
    MillisecondsSplit(SampleTableDuration(mdia, dec), t.timescale);
  }

  /** Number of samples times their delta, over all entries. */
  function SampleTime(entries: seq<(u32, u32)>): nat {
    if entries == [] then 0
    else SampleTime(entries[..|entries| - 1]) + EntryTime(entries[|entries| - 1])
  }

  function EntryTime(e: (u32, u32)): nat {
    e.0 as int * e.1 as int
  }

  function InWord(n: int): u64 {
    n % TWO64
  }

  /** The sum of a sample table is the time of its samples, in 64 bits. */
  lemma {:induction false} SamplesTotal(entries: seq<(u32, u32)>, total: u64)
    ensures SumSamples(entries, total) == InWord(total + SampleTime(entries))
  {
    hide EntryTime, InWord, SumSamples;
    if entries == [] {
      SumOfNone(total);
    } else {
      var first, rest := EntryTime(entries[0]), entries[1..];
      SamplesTotal(rest, InWord(total + first));
      SampleTimeFront(entries);
      SumStep(entries, total);
      AddInWord(total + first, SampleTime(rest));
    }
  }

  lemma {:induction false} SumOfNone(total: u64)
    ensures SumSamples([], total) == InWord(total)
  {
  }

  lemma SumStep(entries: seq<(u32, u32)>, total: u64)
    requires entries != []
    ensures SumSamples(entries, total) == SumSamples(entries[1..], InWord(total + EntryTime(entries[0])))
  {
  }

  lemma {:induction false} SampleTimeFront(entries: seq<(u32, u32)>)
    requires entries != []
    ensures SampleTime(entries) == EntryTime(entries[0]) + SampleTime(entries[1..])
  {
    hide EntryTime;
    if |entries| > 1 {
      var init := entries[..|entries| - 1];
      SampleTimeFront(init);
      assert init[1..] == entries[1..][..|entries| - 2];
    }
  }

  lemma AddInWord(a: nat, b: nat)
    ensures InWord(InWord(a) + b) == InWord(a + b)
  {
  }

  // ---------- brands ----------

  lemma BrandNames(b: u32)
    ensures b in VIDEO_BRANDS <==>
              || b == FourCC("isom") || b == FourCC("iso2") || b == FourCC("iso4") || b == FourCC("iso5")
              || b == FourCC("iso6") || b == FourCC("mp41") || b == FourCC("mp42") || b == FourCC("avc1")
              || b == FourCC("M4V ") || b == FourCC("3gp4") || b == FourCC("3gp5") || b == FourCC("3gp6")
              || b == FourCC("qt  ")
  {
  }

  /** Some brand, major or compatible, is a video brand; the second four bytes are the minor version. */
  ghost predicate SomeVideoBrand(payload: seq<byte>, from: nat) {
    exists i: nat :: BrandAt(payload, i) && from <= i
  }

  ghost predicate BrandAt(payload: seq<byte>, i: nat) {
    i != 1 && 4 * i + 4 <= |payload| && Be32(payload[4 * i..4 * i + 4]) in VIDEO_BRANDS
  }

  lemma {:induction false} VideoBrandIff(payload: seq<byte>, k: nat)
    ensures HasVideoBrand(payload, 4 * k) <==> SomeVideoBrand(payload, k)
    decreases |payload| - 4 * k
  {
    hide Be32;
    if 4 * k + 4 <= |payload| {
      VideoBrandIff(payload, k + 1);
      if BrandAt(payload, k) {
        assert SomeVideoBrand(payload, k);
      }
      if SomeVideoBrand(payload, k) {
        var i: nat :| BrandAt(payload, i) && k <= i;
        assert i == k || SomeVideoBrand(payload, k + 1);
      }
    }
  }

  // ---------- the verdict ----------

  /** The first box is a file type box with a video brand. */
  ghost predicate OfVideo(first: Box) {
    TypeOf(first.header) == FTYP && |first.payload| >= 4 && SomeVideoBrand(first.payload, 0)
  }

  /**
   A clip is accepted exactly when all of the file parses, it begins with a video file type, and its movie
   has a duration of at most twelve seconds and a size; and then with that duration and size.
   */
  lemma {:induction false} AcceptedIff(data: seq<byte>, dec: Decoders)
    ensures
      var root := Split(data, MAX_BOX_SIBLINGS, true);
      Probe(data, dec).Ok? <==>
        && root.ok && root.boxes != [] && OfVideo(root.boxes[0]) && Child(data, MOOV).Some?
        && exists info :: IsClip(Child(data, MOOV).value, dec, info)
                          && 0 < info.durationMs <= 12_000 && info.width > 0 && info.height > 0
    ensures Probe(data, dec).Ok? ==>
              Child(data, MOOV).Some? && IsClip(Child(data, MOOV).value, dec, Probe(data, dec).value)
  {
    hide Split, ProbeMovie, IsClip, Child, TypeOf, HasVideoBrand, SomeVideoBrand;
    var root := Split(data, MAX_BOX_SIBLINGS, true);
    if root.boxes != [] {
      VideoBrandIff(root.boxes[0].payload, 0);
    }
    if Child(data, MOOV).Some? {
      var moov := Child(data, MOOV).value;
      ClipOf(moov, dec);
      forall info | IsClip(moov, dec, info) && info.durationMs > 0 ensures info == ProbeMovie(moov, dec) {
        ClipUnique(moov, dec, info, ProbeMovie(moov, dec));
      }
    }
  }

  /** The boxes the probe looks for, by name. */
  lemma ProbeNames()
    ensures FTYP == FourCC("ftyp") && MOOV == FourCC("moov") && TRAK == FourCC("trak") && MDIA == FourCC("mdia")
    ensures MVHD == FourCC("mvhd") && TKHD == FourCC("tkhd") && MDHD == FourCC("mdhd") && STTS == FourCC("stts")
    ensures MINF == FourCC("minf") && STBL == FourCC("stbl")
  {
  }

  /**
   Each refusal says what is wrong first: the file, its type, its brand, its movie, then the duration and the
   size.
   */
  lemma {:induction false} RefusedIff(data: seq<byte>, dec: Decoders)
    ensures
      var root := Split(data, MAX_BOX_SIBLINGS, true);
      var parses := root.ok && root.boxes != [];
      var typed := parses && TypeOf(root.boxes[0].header) == FTYP && |root.boxes[0].payload| >= 4;
      var video := typed && SomeVideoBrand(root.boxes[0].payload, 0);
      var moov := Child(data, MOOV);
      var info := if moov.Some? then ProbeMovie(moov.value, dec) else VideoInfo(0, 0, 0);
      && (Probe(data, dec) == Err(NotMp4) <==> !parses)
      && (Probe(data, dec) == Err(NoFtyp) <==> parses && !typed)
      && (Probe(data, dec) == Err(UnsupportedFormat) <==> typed && !video)
      && (Probe(data, dec) == Err(NoMoov) <==> video && moov.None?)
      && (Probe(data, dec) == Err(NoDuration) <==> video && moov.Some? && info.durationMs <= 0)
      && (Probe(data, dec) == Err(TooLong) <==> video && moov.Some? && info.durationMs > 12_000)
      && (Probe(data, dec) == Err(NoTrack) <==>
            video && moov.Some? && 0 < info.durationMs <= 12_000 && (info.width <= 0 || info.height <= 0))
  {
    hide Split, ProbeMovie, Child, TypeOf, HasVideoBrand, SomeVideoBrand;
    var root := Split(data, MAX_BOX_SIBLINGS, true);
    if root.boxes != [] {
      VideoBrandIff(root.boxes[0].payload, 0);
    }
  }
}
