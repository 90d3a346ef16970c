/**
 * utils/stream-viewer/stream-viewer.js: the transform that re-finds JPEG frames in a byte stream
 * by their start and end markers (SOI and EOI, section B.1.1.3 of ITU-T T.81).
 */
module StreamViewer {
  import opened Types

  const MARKER: byte := 0xFF
  const SOI: byte := 0xD8
  const EOI: byte := 0xD9

  // ---------- markers ----------

  /** The two bytes FF `code` stand at index i. */
  predicate MarkerAt(b: seq<byte>, i: int, code: byte) {
    0 <= i && i + 1 < |b| && b[i] == MARKER && b[i + 1] == code
  }

  predicate NoMarker(b: seq<byte>, code: byte, lo: int, hi: int) {
    forall i :: lo <= i < hi ==> !MarkerAt(b, i, code)
  }

  /** Buffer.indexOf of a two-byte marker, -1 when there is none at or after `from`. */
  function IndexOf(b: seq<byte>, code: byte, from: nat): (r: int)
    ensures r == -1 || (from <= r && MarkerAt(b, r, code))
    ensures NoMarker(b, code, from, if r == -1 then |b| else r)
    decreases |b| - from
  {
    if from + 1 >= |b| then -1
    else if b[from] == MARKER && b[from + 1] == code then from
    else IndexOf(b, code, from + 1)
  }

  lemma IndexOfUnique(b: seq<byte>, code: byte, from: nat, r: nat)
    requires from <= r && MarkerAt(b, r, code) && NoMarker(b, code, from, r)
    ensures IndexOf(b, code, from) == r
  {
    var r' := IndexOf(b, code, from);
    assert MarkerAt(b, r, code);
  }

  // ---------- one pass over a buffer ----------

  datatype Parsed = Parsed(frames: seq<seq<byte>>, rest: seq<byte>)

  /** The whole loop of _transform over one buffer: the frames it pushes and the bytes it keeps. */
  function Parse(b: seq<byte>): Parsed
    decreases |b|
  {
    var s := IndexOf(b, SOI, 0);
    if s == -1 then Parsed([], b)
    else
      var e := IndexOf(b, EOI, s);
      if e == -1 then Parsed([], b)
      else
        var later := Parse(b[e + 2..]);
        Parsed([b[s..e + 2]] + later.frames, later.rest)
  }

  // ---------- what the pass means, said without it ----------

  /** A frame runs from an SOI to the first EOI after it. */
  predicate IsFrame(f: seq<byte>) {
    |f| >= 4 && MarkerAt(f, 0, SOI) && MarkerAt(f, |f| - 2, EOI) && NoMarker(f, EOI, 0, |f| - 2)
  }

  /** No SOI in b is followed by an EOI. */
  ghost predicate Incomplete(b: seq<byte>) {
    forall i, j :: MarkerAt(b, i, SOI) && MarkerAt(b, j, EOI) ==> j < i
  }

  datatype Segment = Segment(gap: seq<byte>, frame: seq<byte>)

  predicate SegmentOk(g: Segment) {
    NoMarker(g.gap, SOI, 0, |g.gap|) && IsFrame(g.frame)
  }

  function Join(segs: seq<Segment>): seq<byte> {
    if segs == [] then [] else segs[0].gap + segs[0].frame + Join(segs[1..])
  }

  function Frames(segs: seq<Segment>): (r: seq<seq<byte>>)
    ensures |r| == |segs| && forall i :: 0 <= i < |r| ==> r[i] == segs[i].frame
  {
    seq(|segs|, i requires 0 <= i < |segs| => segs[i].frame)
  }

  /** The input is gap frame gap frame ... rest, no gap holds an SOI, the rest holds no whole frame. */
  ghost predicate IsSplit(b: seq<byte>, segs: seq<Segment>, rest: seq<byte>) {
    && b == Join(segs) + rest
    && (forall i :: 0 <= i < |segs| ==> SegmentOk(segs[i]))
    && Incomplete(rest)
  }

  // ---------- markers in parts of a buffer ----------

  lemma MarkerInSlice(b: seq<byte>, lo: nat, hi: nat, i: int, code: byte)
    requires lo <= i && i + 1 < hi <= |b|
    ensures MarkerAt(b[lo..hi], i - lo, code) <==> MarkerAt(b, i, code)
  {
  }

  lemma NoMarkerInSlice(b: seq<byte>, code: byte, lo: nat, hi: nat, from: nat, to: nat)
    requires lo <= from && to <= hi <= |b| && lo <= hi && NoMarker(b, code, from, to)
    ensures NoMarker(b[lo..hi], code, from - lo, to - lo)
  {
    forall i | from - lo <= i < to - lo ensures !MarkerAt(b[lo..hi], i, code) {
      if i + lo + 1 < hi {
        MarkerInSlice(b, lo, hi, i + lo, code);
      }
    }
  }

  /** A part of b starting at `at`: what it does not hold, b does not hold there. */
  lemma NoMarkerFromPart(b: seq<byte>, at: nat, part: seq<byte>, code: byte, from: nat, to: nat)
    requires at + |part| <= |b| && b[at..at + |part|] == part
    requires NoMarker(part, code, from, to) && to < |part|
    ensures NoMarker(b, code, at + from, at + to)
  {
    forall i | at + from <= i < at + to ensures !MarkerAt(b, i, code) {
      MarkerInSlice(b, at, at + |part|, i, code);
    }
  }

  lemma MarkerFromPart(b: seq<byte>, at: nat, part: seq<byte>, i: nat, code: byte)
    requires at + |part| <= |b| && b[at..at + |part|] == part && MarkerAt(part, i, code)
    ensures MarkerAt(b, at + i, code)
  {
    MarkerInSlice(b, at, at + |part|, at + i, code);
  }

  lemma ParseStep(b: seq<byte>, s: nat, e: nat)
    requires MarkerAt(b, s, SOI) && NoMarker(b, SOI, 0, s)
    requires s <= e && MarkerAt(b, e, EOI) && NoMarker(b, EOI, s, e)
    ensures s + 2 <= e
    ensures var later := Parse(b[e + 2..]); Parse(b) == Parsed([b[s..e + 2]] + later.frames, later.rest)
  {
    assert b[e] == MARKER && b[s + 1] == SOI;
    IndexOfUnique(b, SOI, 0, s);
    IndexOfUnique(b, EOI, s, e);
  }

  /** A gap, a frame and anything else: the loop takes exactly that frame first. */
  lemma ParseFirstFrame(gap: seq<byte>, frame: seq<byte>, tail: seq<byte>)
    requires SegmentOk(Segment(gap, frame))
    ensures Parse(gap + frame + tail) == Parsed([frame] + Parse(tail).frames, Parse(tail).rest)
  {
    var b := gap + frame + tail;
    var s, e := |gap|, |gap| + |frame| - 2;
    assert b[s..s + |frame|] == frame && b[e + 2..] == tail;
    MarkerFromPart(b, s, frame, 0, SOI);
    MarkerFromPart(b, s, frame, |frame| - 2, EOI);
    NoMarkerFromPart(b, s, frame, EOI, 0, |frame| - 2);
    NoSoiInGap(gap, b);
    ParseStep(b, s, e);
  }

  lemma NoSoiInGap(gap: seq<byte>, b: seq<byte>)
    requires NoMarker(gap, SOI, 0, |gap|)
    requires |gap| < |b| && b[..|gap|] == gap && b[|gap|] == MARKER
    ensures NoMarker(b, SOI, 0, |gap|)
  {
    forall i | 0 <= i < |gap| ensures !MarkerAt(b, i, SOI) {
      if i + 1 < |gap| {
        MarkerInSlice(b, 0, |gap|, i, SOI);
      }
    }
  }

  /** The markers the loop finds cut the buffer into a segment and what follows it. */
  lemma FoundSegment(b: seq<byte>, s: nat, e: nat)
    requires MarkerAt(b, s, SOI) && NoMarker(b, SOI, 0, s)
    requires s <= e && MarkerAt(b, e, EOI) && NoMarker(b, EOI, s, e)
    ensures SegmentOk(Segment(b[..s], b[s..e + 2]))
    ensures b == b[..s] + b[s..e + 2] + b[e + 2..]
  {
    assert b[e] == MARKER && b[s + 1] == SOI && s + 1 < e;
    NoMarkerInSlice(b, SOI, 0, s, 0, s);
    NoMarkerInSlice(b, EOI, s, e + 2, s, e);
    MarkerInSlice(b, s, e + 2, s, SOI);
    MarkerInSlice(b, s, e + 2, e, EOI);
  }

  lemma ParseIncomplete(b: seq<byte>)
    requires Incomplete(b)
    ensures Parse(b) == Parsed([], b)
  {
  }

  lemma ParseStops(b: seq<byte>)
    requires IndexOf(b, SOI, 0) == -1 || IndexOf(b, EOI, IndexOf(b, SOI, 0)) == -1
    ensures Incomplete(b)
  {
    var s := IndexOf(b, SOI, 0);
    if s != -1 {
      forall i, j | MarkerAt(b, i, SOI) && MarkerAt(b, j, EOI) ensures s <= i && j < s {
      }
    }
  }

  /** Parse finds the split: every input has one, and its frames and rest are what the loop yields. */
  lemma {:induction false} ParseSplits(b: seq<byte>) returns (segs: seq<Segment>)
    ensures IsSplit(b, segs, Parse(b).rest)
    ensures Parse(b).frames == Frames(segs)
    decreases |b|
  {
    var s := IndexOf(b, SOI, 0);
    var e := if s == -1 then -1 else IndexOf(b, EOI, s);
    if e == -1 {
      segs := [];
      ParseStops(b);
    } else {
      FoundSegment(b, s, e);
      var later := ParseSplits(b[e + 2..]);
      segs := [Segment(b[..s], b[s..e + 2])] + later;
      SplitCons(b[..s], b[s..e + 2], b[e + 2..], later, Parse(b).rest);
    }
  }

  lemma SplitCons(gap: seq<byte>, frame: seq<byte>, b: seq<byte>, segs: seq<Segment>, rest: seq<byte>)
    requires SegmentOk(Segment(gap, frame)) && IsSplit(b, segs, rest)
    ensures IsSplit(gap + frame + b, [Segment(gap, frame)] + segs, rest)
    ensures Frames([Segment(gap, frame)] + segs) == [frame] + Frames(segs)
  {
    var all := [Segment(gap, frame)] + segs;
    assert all[1..] == segs;
    assert gap + frame + b == gap + frame + Join(segs) + rest;
  }

  // ---------- chunking ----------

  /** Parsing a buffer and later bytes in one pass, or the buffer first and then what was kept with
      the later bytes, gives the same frames and the same rest: markers may straddle the cut. */
  lemma ParseAppend(b: seq<byte>, c: seq<byte>)
    ensures Parse(b + c) == Parsed(Parse(b).frames + Parse(Parse(b).rest + c).frames, Parse(Parse(b).rest + c).rest)
  {
    hide Parse, IndexOf;
    var segs := ParseSplits(b);
    ParseSegments(segs, Parse(b).rest + c);
    assert b + c == Join(segs) + (Parse(b).rest + c);
  }

  lemma {:induction false} ParseSegments(segs: seq<Segment>, tail: seq<byte>)
    requires forall i :: 0 <= i < |segs| ==> SegmentOk(segs[i])
    ensures Parse(Join(segs) + tail) == Parsed(Frames(segs) + Parse(tail).frames, Parse(tail).rest)
  {
    hide Parse, IndexOf;
    if segs == [] {
      assert Join(segs) + tail == tail && Frames(segs) + Parse(tail).frames == Parse(tail).frames;
    } else {
      var g, more := segs[0], segs[1..];
      ParseSegments(more, tail);
      ParseFirstFrame(g.gap, g.frame, Join(more) + tail) by {
        assert SegmentOk(segs[0]) && g == Segment(g.gap, g.frame);
      }
      assert Join(segs) + tail == g.gap + g.frame + (Join(more) + tail);
      assert Frames(segs) == [g.frame] + Frames(more);
      assert [g.frame] + (Frames(more) + Parse(tail).frames) == Frames(segs) + Parse(tail).frames;
    }
  }

  /** Any split of the input is the one Parse computes. */
  lemma SplitIsParse(b: seq<byte>, segs: seq<Segment>, rest: seq<byte>)
    requires IsSplit(b, segs, rest)
    ensures Parse(b) == Parsed(Frames(segs), rest)
  {
    ParseSegments(segs, rest);
    ParseIncomplete(rest);
    assert Frames(segs) + [] == Frames(segs);
  }

  /** What the transform object holds: the bytes kept and the frames pushed so far. */
  datatype Viewer = Viewer(frameBuffer: seq<byte>, pushed: seq<seq<byte>>)

  function Feed(v: Viewer, chunk: seq<byte>): Viewer {
    var p := Parse(v.frameBuffer + chunk);
    Viewer(p.rest, v.pushed + p.frames)
  }

  function FeedAll(v: Viewer, chunks: seq<seq<byte>>): Viewer
    decreases |chunks|
  {
    if chunks == [] then v else FeedAll(Feed(v, chunks[0]), chunks[1..])
  }

  /** The viewer that has seen exactly these bytes. */
  function Seen(stream: seq<byte>): Viewer {
    Viewer(Parse(stream).rest, Parse(stream).frames)
  }

  lemma SeenAppend(stream: seq<byte>, chunk: seq<byte>)
    ensures Feed(Seen(stream), chunk) == Seen(stream + chunk)
  {
    hide Parse, IndexOf;
    ParseAppend(stream, chunk);
  }

  /** However a stream is cut into chunks, the viewer ends as if it had arrived in one piece. */
  lemma {:induction false} ChunkingIndependence(stream: seq<byte>, chunks: seq<seq<byte>>)
    ensures FeedAll(Seen(stream), chunks) == Seen(stream + Flatten(chunks))
    decreases |chunks|
  {
    hide Parse;
    if chunks == [] {
      assert stream + Flatten(chunks) == stream;
    } else {
      SeenAppend(stream, chunks[0]);
      ChunkingIndependence(stream + chunks[0], chunks[1..]);
      assert stream + chunks[0] + Flatten(chunks[1..]) == stream + Flatten(chunks);
    }
  }

  // ---------- slot blocks ----------

  /** A camera payload: one SOI, at its start, and one EOI, at its end. */
  predicate IsJpeg(p: seq<byte>) {
    IsFrame(p) && NoMarker(p, SOI, 1, |p|)
  }

  /** A ring slot as it is sent: a payload followed by stale bytes that hold no SOI. */
  predicate IsBlock(slot: seq<byte>, jpeg: seq<byte>) {
    && IsJpeg(jpeg)
    && |jpeg| <= |slot|
    && slot[..|jpeg|] == jpeg
    && NoMarker(slot, SOI, 1, |slot|)
  }

  /** Bytes kept by the viewer in which a frame has been opened and not closed. */
  predicate OpenFrame(rest: seq<byte>) {
    !NoMarker(rest, SOI, 0, |rest|)
  }

  /** The same in bytes. */
  lemma JpegInBytes(p: seq<byte>)
    ensures IsJpeg(p) <==>
            && |p| >= 4 && p[..2] == [0xFF, 0xD8] && p[|p| - 2..] == [0xFF, 0xD9]
            && (forall i :: 1 <= i < |p| - 1 ==> !(p[i] == 0xFF && p[i + 1] == 0xD8))
            && (forall i :: 0 <= i < |p| - 2 ==> !(p[i] == 0xFF && p[i + 1] == 0xD9))
  {
    if IsJpeg(p) {
      assert MarkerAt(p, 0, SOI) && MarkerAt(p, |p| - 2, EOI);
      forall i | 1 <= i < |p| - 1 ensures !(p[i] == 0xFF && p[i + 1] == 0xD8) {
        assert !MarkerAt(p, i, SOI);
      }
      forall i | 0 <= i < |p| - 2 ensures !(p[i] == 0xFF && p[i + 1] == 0xD9) {
        assert !MarkerAt(p, i, EOI);
      }
    } else if |p| >= 4 && p[..2] == [0xFF, 0xD8] && p[|p| - 2..] == [0xFF, 0xD9] {
      assert p[0] == p[..2][0] && p[1] == p[..2][1];
      assert p[|p| - 2] == p[|p| - 2..][0] && p[|p| - 1] == p[|p| - 2..][1];
    }
  }

  /** One frame in bytes: FF D8, anything without FF D9, FF D9 comes out as it is, and nothing is kept. */
  lemma OneFrameInBytes(body: seq<byte>)
    requires forall i :: 0 <= i < |body| - 1 ==> !(body[i] == 0xFF && body[i + 1] == 0xD9)
    ensures var f := [0xFF, 0xD8] + body + [0xFF, 0xD9]; Parse(f) == Parsed([f], [])
  {
    hide Parse, IndexOf;
    var f := [0xFF, 0xD8] + body + [0xFF, 0xD9];
    forall i | 0 <= i < |f| - 2 ensures !MarkerAt(f, i, EOI) {
      if 2 <= i < |f| - 3 {
        assert f[i] == body[i - 2] && f[i + 1] == body[i - 1];
      }
    }
    assert SegmentOk(Segment([], f));
    ParseFirstFrame([], f, []);
    ParseIncomplete([]);
    assert [] + f + [] == f;
  }

  lemma TailHasNoSoi(slot: seq<byte>, jpeg: seq<byte>, w: nat)
    requires IsBlock(slot, jpeg) && |jpeg| <= w <= |slot|
    ensures NoMarker(slot[|jpeg|..w], SOI, 0, w - |jpeg|)
  {
    var tail := slot[|jpeg|..w];
    forall i | 0 <= i < |tail| ensures !MarkerAt(tail, i, SOI) {
      assert !MarkerAt(slot, i + |jpeg|, SOI);
    }
  }

  /** A viewer that keeps `rest` sees nothing complete before the payload's end. */
  lemma ParsePartialBlock(rest: seq<byte>, jpeg: seq<byte>, w: nat)
    requires Incomplete(rest) && IsJpeg(jpeg) && w < |jpeg|
    ensures Parse(rest + jpeg[..w]) == Parsed([], rest + jpeg[..w])
  {
    var b := rest + jpeg[..w];
    var n := |rest|;
    assert b[..n] == rest && b[n..] == jpeg[..w];
    forall i, j | MarkerAt(b, i, SOI) && MarkerAt(b, j, EOI) ensures j < i {
      if i <= j {
        if j + 1 < n {
          MarkerInSlice(b, 0, n, j, EOI);
          MarkerInSlice(b, 0, n, i, SOI);
        } else if n <= j {
          MarkerInSlice(b, n, n + w, j, EOI);
          MarkerInSlice(jpeg, 0, w, j - n, EOI);
        }
      }
    }
    ParseIncomplete(b);
  }

  /** The first w bytes of a block, read by a viewer that keeps `rest`. Once the payload is complete
      exactly one frame comes out: the payload itself, or, when a frame was left open, the bytes from
      the opening on, with the payload as their end. */
  lemma ParseBlock(rest: seq<byte>, slot: seq<byte>, jpeg: seq<byte>, w: nat)
    requires Incomplete(rest) && IsBlock(slot, jpeg) && |jpeg| <= w <= |slot|
    ensures Parse(rest + slot[..w]) == Parsed([Closed(rest, jpeg)], slot[|jpeg|..w])
    ensures !OpenFrame(slot[|jpeg|..w])
  {
    hide Parse, IndexOf, NoMarker, MarkerAt, Incomplete, Closed;
    var tail := slot[|jpeg|..w];
    TailHasNoSoi(slot, jpeg, w);
    PartsOfSum(jpeg, tail);
    assert slot[..w] == jpeg + tail;
    assert rest + slot[..w] == rest + jpeg + tail;
    ParsePayload(rest, jpeg, tail);
  }

  lemma ParsePayload(rest: seq<byte>, jpeg: seq<byte>, tail: seq<byte>)
    requires Incomplete(rest) && IsJpeg(jpeg) && NoMarker(tail, SOI, 0, |tail|)
    ensures Parse(rest + jpeg + tail) == Parsed([Closed(rest, jpeg)], tail)
  {
    hide Parse, IndexOf, NoMarker, MarkerAt, Incomplete;
    NoSoiIsIncomplete(tail);
    ParseIncomplete(tail);
    var s := IndexOf(rest, SOI, 0);
    if s == -1 {
      ParseFirstFrame(rest, jpeg, tail);
    } else {
      OpenFrameCloses(rest, s, jpeg);
      assert rest + jpeg == rest[..s] + (rest[s..] + jpeg);
      ParseFirstFrame(rest[..s], rest[s..] + jpeg, tail);
    }
  }

  lemma NoSoiIsIncomplete(b: seq<byte>)
    requires NoMarker(b, SOI, 0, |b|)
    ensures Incomplete(b)
  {
  }

  /** The frame that comes out when a payload follows `rest`. */
  function Closed(rest: seq<byte>, jpeg: seq<byte>): (f: seq<byte>)
    ensures f == jpeg <==> !OpenFrame(rest)
    ensures |jpeg| <= |f| && f[|f| - |jpeg|..] == jpeg
  {
    var s := IndexOf(rest, SOI, 0);
    if s == -1 then jpeg else rest[s..] + jpeg
  }

  lemma PartsOfSum(a: seq<byte>, b: seq<byte>)
    ensures (a + b)[..|a|] == a && (a + b)[|a|..|a| + |b|] == b
  {
  }

  lemma OpenFrameCloses(rest: seq<byte>, s: nat, jpeg: seq<byte>)
    requires Incomplete(rest) && IsJpeg(jpeg) && MarkerAt(rest, s, SOI) && NoMarker(rest, SOI, 0, s)
    ensures s <= |rest| && SegmentOk(Segment(rest[..s], rest[s..] + jpeg))
  {
    var f := rest[s..] + jpeg;
    var n := |rest| - s;
    NoMarkerInSlice(rest, SOI, 0, s, 0, s);
    PartsOfSum(rest[s..], jpeg);
    assert f[..n] == rest[s..|rest|];
    MarkerInSlice(rest, s, |rest|, s, SOI);
    MarkerInSlice(f, 0, n, 0, SOI);
    MarkerFromPart(f, n, jpeg, |jpeg| - 2, EOI);
    NoMarkerFromPart(f, n, jpeg, EOI, 0, |jpeg| - 2);
    forall i | 0 <= i < n ensures !MarkerAt(f, i, EOI) {
      if i + 1 < n {
        MarkerInSlice(f, 0, n, i, EOI);
        MarkerInSlice(rest, s, |rest|, i + s, EOI);
      }
    }
  }

  predicate AreBlocks(slots: seq<seq<byte>>, jpegs: seq<seq<byte>>) {
    |slots| == |jpegs| && forall i :: 0 <= i < |slots| ==> IsBlock(slots[i], jpegs[i])
  }

  lemma ParseRestIncomplete(b: seq<byte>)
    ensures Incomplete(Parse(b).rest)
  {
    var segs := ParseSplits(b);
  }

  /** Blocks read by a viewer with no frame open come out as exactly their payloads, in order. */
  lemma {:induction false} ParseBlocks(rest: seq<byte>, slots: seq<seq<byte>>, jpegs: seq<seq<byte>>)
    requires Incomplete(rest) && !OpenFrame(rest) && AreBlocks(slots, jpegs)
    ensures var p := Parse(rest + Flatten(slots)); p.frames == jpegs && !OpenFrame(p.rest)
    decreases |slots|
  {
    hide Parse, IndexOf;
    if slots == [] {
      assert rest + Flatten(slots) == rest;
      ParseIncomplete(rest);
    } else {
      ParseBlockThen(rest, slots[0], jpegs[0], Flatten(slots[1..]));
      TailHasNoSoi(slots[0], jpegs[0], |slots[0]|);
      ParseBlocks(slots[0][|jpegs[0]|..], slots[1..], jpegs[1..]);
      assert rest + Flatten(slots) == rest + slots[0] + Flatten(slots[1..]);
      assert [jpegs[0]] + jpegs[1..] == jpegs;
    }
  }

  /** One whole block and anything after it. */
  lemma ParseBlockThen(rest: seq<byte>, slot: seq<byte>, jpeg: seq<byte>, later: seq<byte>)
    requires Incomplete(rest) && IsBlock(slot, jpeg)
    ensures var p := Parse(slot[|jpeg|..] + later);
            Parse(rest + slot + later) == Parsed([Closed(rest, jpeg)] + p.frames, p.rest)
    ensures Incomplete(slot[|jpeg|..]) && !OpenFrame(slot[|jpeg|..])
  {
    hide Parse, IndexOf;
    assert slot[..|slot|] == slot && slot[|jpeg|..|slot|] == slot[|jpeg|..];
    ParseBlock(rest, slot, jpeg, |slot|);
    ParseAppend(rest + slot, later);
  }

  /** Self-synchronisation. After any garbage, a run of n intact blocks yields exactly n frames: every
      one from the second on is its payload, and the first is its payload exactly when the garbage
      left no frame open; otherwise it is the open bytes with the payload at their end. */
  lemma SelfSynchronisation(garbage: seq<byte>, slots: seq<seq<byte>>, jpegs: seq<seq<byte>>, later: seq<byte>)
    requires AreBlocks(slots, jpegs) && slots != []
    ensures var kept := Parse(garbage).rest;
            var p := Parse(garbage + Flatten(slots));
            && p.frames == Parse(garbage).frames + [Closed(kept, jpegs[0])] + jpegs[1..]
            && (Closed(kept, jpegs[0]) == jpegs[0] <==> !OpenFrame(kept))
            && !OpenFrame(p.rest)
            && Parse(garbage + Flatten(slots) + later).frames == p.frames + Parse(p.rest + later).frames
  {
    hide Parse, IndexOf, Flatten, NoMarker, IsJpeg, Incomplete;
    var kept := Parse(garbage).rest;
    ParseRestIncomplete(garbage);
    ParseBlockThen(kept, slots[0], jpegs[0], Flatten(slots[1..]));
    ParseBlocks(slots[0][|jpegs[0]|..], slots[1..], jpegs[1..]);
    FlattenCons(slots[0], slots[1..]);
    assert slots == [slots[0]] + slots[1..];
    assert kept + Flatten(slots) == kept + slots[0] + Flatten(slots[1..]);
    ParseAppend(garbage, Flatten(slots));
    ParseAppend(garbage + Flatten(slots), later);
  }

  // ---------- the object ----------

  /** FrameTransform: frameBuffer is its field, pushed is what it has handed to its readers. */
  class FrameTransform {
    var frameBuffer: seq<byte>
    var pushed: seq<seq<byte>>

    ghost function View(): Viewer
      reads this
    {
      Viewer(frameBuffer, pushed)
    }

    constructor ()
      ensures View() == Seen([])
    {
      frameBuffer := [];
      pushed := [];
    }

    /** _transform: each turn removes at least the four bytes of two markers, which bounds the loop. */
    method Transform(chunk: seq<byte>)
      modifies this
      ensures View() == Feed(old(View()), chunk)
      ensures Incomplete(frameBuffer)
    {
      hide Parse, IndexOf;
      frameBuffer := frameBuffer + chunk;
      ghost var all := frameBuffer;
      var startMarkerIndex := IndexOf(frameBuffer, SOI, 0);
      var endMarkerIndex := if startMarkerIndex == -1 then -1 else IndexOf(frameBuffer, EOI, startMarkerIndex);
      while startMarkerIndex != -1 && endMarkerIndex != -1
        invariant startMarkerIndex == IndexOf(frameBuffer, SOI, 0)
        invariant endMarkerIndex == if startMarkerIndex == -1 then -1 else IndexOf(frameBuffer, EOI, startMarkerIndex)
        invariant pushed + Parse(frameBuffer).frames == old(pushed) + Parse(all).frames
        invariant Parse(frameBuffer).rest == Parse(all).rest
        decreases |frameBuffer| / 4
      {
        ParseStep(frameBuffer, startMarkerIndex, endMarkerIndex);
        ghost var before := frameBuffer;
        var completeFrame := frameBuffer[startMarkerIndex..endMarkerIndex + 2];
        pushed := pushed + [completeFrame];
        frameBuffer := frameBuffer[endMarkerIndex + 2..];
        assert Parse(before).frames == [completeFrame] + Parse(frameBuffer).frames;
        startMarkerIndex := IndexOf(frameBuffer, SOI, 0);
        endMarkerIndex := if startMarkerIndex == -1 then -1 else IndexOf(frameBuffer, EOI, startMarkerIndex);
      }
      ParseStops(frameBuffer);
      ParseIncomplete(frameBuffer);
      ParseRestIncomplete(all);
    }
  }
}
