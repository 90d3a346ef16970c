/**
 * At which arrival rates the raw ring can overflow. In a hyperperiod of six ticks the camera makes three
 * passes, and the transcoder and nvm take two frames each, at any moment before their next release.
 */
module FrameRates {
  import opened Types

  /** The frame of each pass of the camera, if it stores one: pass i is the one released at tick 2i, and
      pass 0 the one the camera makes when it is created. */
  type Shots = seq<Option<seq<byte>>>

  const PASSES: nat := 3

  function Arrival(shot: Option<seq<byte>>): nat {
    if shot.Some? then 1 else 0
  }

  /** The frame of a pass, if there is one. */
  function Shown(shot: Option<seq<byte>>): (r: seq<seq<byte>>)
    ensures |r| == Arrival(shot)
  {
    if shot.Some? then [shot.value] else []
  }

  /** The frames of the first n passes, in order. */
  function Polled(shots: Shots, n: nat): seq<seq<byte>>
    requires n <= |shots|
  {
    if n == 0 then [] else Polled(shots, n - 1) + Shown(shots[n - 1])
  }

  /** How many frames the camera stores or tries to store in hyperperiod h, ticks 6h to 6h + 5. */
  function Arrivals(shots: Shots, h: nat): nat
    requires PASSES * (h + 1) <= |shots|
  {
    Arrival(shots[3 * h]) + Arrival(shots[3 * h + 1]) + Arrival(shots[3 * h + 2])
  }

  /** The arrivals of hyperperiods i to j - 1. */
  function Total(shots: Shots, i: nat, j: nat): nat
    requires i <= j && PASSES * j <= |shots|
    decreases j
  {
    if i == j then 0 else Total(shots, i, j - 1) + Arrivals(shots, j - 1)
  }

  lemma TotalNext(shots: Shots, h: nat)
    requires PASSES * (h + 1) <= |shots|
    ensures Total(shots, 0, h + 1) == Total(shots, 0, h) + Arrivals(shots, h)
  {
  }

  lemma {:induction false} PolledCount(shots: Shots, h: nat)
    requires PASSES * h <= |shots|
    ensures |Polled(shots, PASSES * h)| == Total(shots, 0, h)
  {
    if h > 0 {
      PolledCount(shots, h - 1);
      assert |Polled(shots, 3 * h)| == |Polled(shots, 3 * h - 1)| + Arrival(shots[3 * h - 1]);
      assert |Polled(shots, 3 * h - 1)| == |Polled(shots, 3 * h - 2)| + Arrival(shots[3 * h - 2]);
    }
  }

  lemma PolledGrows(shots: Shots, n: nat, n': nat)
    requires n <= n' <= |shots|
    ensures Polled(shots, n) <= Polled(shots, n')
    decreases n'
  {
    if n < n' {
      PolledGrows(shots, n, n' - 1);
    }
  }

  /** Every m consecutive hyperperiods up to hyperperiod h bring at most 2m + b frames. */
  ghost predicate RateBelow(shots: Shots, b: int, h: nat)
    requires PASSES * h <= |shots|
  {
    forall i: nat, j: nat :: i < j <= h ==> Total(shots, i, j) <= 2 * (j - i) + b
  }

  // ---------- the worst timing ----------

  /** The backlog that the worst timing leaves when hyperperiod h begins: the transcoder has always run
      before the frames of its hyperperiod came. */
  function Worst(shots: Shots, h: nat): nat
    requires PASSES * h <= |shots|
  {
    if h == 0 then 0 else Max(Worst(shots, h - 1) - 2, 0) + Arrivals(shots, h - 1)
  }

  /** At the worst moment of a hyperperiod its frames have come and the transcoder has not yet run. */
  ghost predicate PeaksFit(shots: Shots, room: int, h: nat)
    requires PASSES * h <= |shots|
  {
    forall g: nat :: g < h ==> Worst(shots, g) + Arrivals(shots, g) <= room
  }

  /** The backlog recursion unrolled: the worst backlog is the largest excess of arrivals over service in
      any window that ends now, the service of the window's first hyperperiod having come too early. */
  lemma {:induction false} BacklogIsExcess(shots: Shots, h: nat) returns (from: nat)
    requires 0 < h && PASSES * h <= |shots|
    ensures from < h && Worst(shots, h) == Total(shots, from, h) - 2 * (h - 1 - from)
    ensures forall i: nat :: i < h ==> Worst(shots, h) >= Total(shots, i, h) - 2 * (h - 1 - i)
  {
    from := h - 1;
    assert Total(shots, h - 1, h) == Arrivals(shots, h - 1) + Total(shots, h - 1, h - 1);
    if h > 1 {
      var earlier := BacklogIsExcess(shots, h - 1);
      if Worst(shots, h - 1) > 2 {
        from := earlier;
      }
    }
  }

  /** The exact backlog: the worst timing leaves at most b + 2 frames waiting after each hyperperiod if
      and only if every m consecutive ones bring at most 2m + b. */
  lemma WaitingExactly(shots: Shots, b: nat, h: nat)
    requires PASSES * h <= |shots|
    ensures RateBelow(shots, b, h) <==> forall g: nat :: g <= h ==> Worst(shots, g) <= b + 2
  {
    if RateBelow(shots, b, h) {
      forall g: nat | g <= h ensures Worst(shots, g) <= b + 2 {
        if g > 0 {
          var from := BacklogIsExcess(shots, g);
        }
      }
    } else {
      var i: nat, j: nat :| i < j <= h && Total(shots, i, j) > 2 * (j - i) + b;
      var from := BacklogIsExcess(shots, j);
      assert Worst(shots, j) >= Total(shots, i, j) - 2 * (j - 1 - i);
    }
  }

  /** Every m consecutive hyperperiods up to hyperperiod h bring at most room + 2(m - 2) frames, and a
      single one at most room. */
  ghost predicate WindowsFit(shots: Shots, room: int, h: nat)
    requires PASSES * h <= |shots|
  {
    forall i: nat, j: nat :: i < j <= h ==> Total(shots, i, j) <= room + 2 * Max(j - i - 2, 0)
  }

  /** The exact rate: every peak finds room if and only if the windows fit. */
  lemma PeaksExactly(shots: Shots, room: int, h: nat)
    requires PASSES * h <= |shots|
    ensures PeaksFit(shots, room, h) <==> WindowsFit(shots, room, h)
  {
    if PeaksFit(shots, room, h) {
      forall i: nat, j: nat | i < j <= h ensures Total(shots, i, j) <= room + 2 * Max(j - i - 2, 0) {
        PeakIsAbove(shots, i, j - 1);
      }
    } else {
      var g: nat :| g < h && Worst(shots, g) + Arrivals(shots, g) > room;
      var i := PeakIsReached(shots, g);
      assert Total(shots, i, g + 1) > room + 2 * Max(g + 1 - i - 2, 0);
    }
  }

  lemma PeakIsAbove(shots: Shots, i: nat, g: nat)
    requires i <= g && PASSES * (g + 1) <= |shots|
    ensures Total(shots, i, g + 1) <= Worst(shots, g) + Arrivals(shots, g) + 2 * Max(g - i - 1, 0)
  {
    assert Total(shots, i, g + 1) == Total(shots, i, g) + Arrivals(shots, g);
    if i < g {
      var from := BacklogIsExcess(shots, g);
      assert Worst(shots, g) >= Total(shots, i, g) - 2 * (g - 1 - i);
    }
  }

  lemma PeakIsReached(shots: Shots, g: nat) returns (i: nat)
    requires PASSES * (g + 1) <= |shots|
    ensures i <= g && Total(shots, i, g + 1) == Worst(shots, g) + Arrivals(shots, g) + 2 * Max(g - i - 1, 0)
  {
    i := 0;
    if g > 0 {
      i := BacklogIsExcess(shots, g);
    }
    assert Total(shots, i, g + 1) == Total(shots, i, g) + Arrivals(shots, g);
  }

  lemma OneHyperperiod(shots: Shots, i: nat)
    requires PASSES * (i + 1) <= |shots|
    ensures Total(shots, i, i + 1) <= 3
  {
    assert Total(shots, i, i + 1) == Total(shots, i, i) + Arrivals(shots, i);
  }

  /** The rings of the configured build: the raw ring's 127 places fit every peak if and only if every m
      consecutive hyperperiods bring at most 2m + 123 frames. */
  lemma ConfiguredRate(shots: Shots, h: nat)
    requires PASSES * h <= |shots|
    ensures PeaksFit(shots, 127, h) <==> RateBelow(shots, 123, h)
  {
    PeaksExactly(shots, 127, h);
    if WindowsFit(shots, 127, h) {
      forall i: nat, j: nat | i < j <= h ensures Total(shots, i, j) <= 2 * (j - i) + 123 {
        if j == i + 1 {
          OneHyperperiod(shots, i);
        }
      }
    } else {
      var i: nat, j: nat :| i < j <= h && Total(shots, i, j) > 127 + 2 * Max(j - i - 2, 0);
      OneHyperperiod(shots, i);
    }
  }

  /** A camera with a frame at each of its passes fills the ring in the hyperperiod after the first 123. */
  lemma FullRatePeaks(shots: Shots, h: nat)
    requires PASSES * h <= |shots| && forall i :: 0 <= i < |shots| ==> shots[i].Some?
    ensures PeaksFit(shots, 127, h) <==> h <= 123
  {
    hide PeaksFit;
    ConfiguredRate(shots, h);
    forall i: nat, j: nat | i < j <= h ensures Total(shots, i, j) == 3 * (j - i) {
      FullTotal(shots, i, j);
    }
    if h > 123 {
      assert Total(shots, 0, h) == 3 * h;
    }
  }

  lemma {:induction false} FullTotal(shots: Shots, i: nat, j: nat)
    requires i <= j && PASSES * j <= |shots| && forall k :: 0 <= k < |shots| ==> shots[k].Some?
    ensures Total(shots, i, j) == 3 * (j - i)
    decreases j
  {
    if i < j {
      FullTotal(shots, i, j - 1);
    }
  }

  lemma RateIsBelow(shots: Shots, b: nat, b': nat, h: nat)
    requires PASSES * h <= |shots| && RateBelow(shots, b, h) && b <= b'
    ensures RateBelow(shots, b', h)
  {
  }
}
