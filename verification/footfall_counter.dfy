/**
 A model of the line-crossing counter of the footfall counter: a per-track
 bounded position history, a crossing detector that compares the last two
 vertical positions of a track against a horizontal counting line, and an
 aggregator that counts every track id at most once, as an entry or as an exit.

 Image coordinates grow downwards: a track moving from a smaller y to a larger
 y moves from the top of the frame to the bottom.
 */
module Footfall {

  /** Capacity of every track's position history. */
  const TrackHistoryLength: nat := 30

  type TrackId = int

  /** A centroid `(cx, cy)` in whole pixels. */
  type Centroid = (int, int)

  /** What the tracker reports for one object in one frame, reduced to what the counter reads. */
  datatype Detection = Detection(trackId: TrackId, centroid: Centroid)

  /** The event the crossing detector reports for one pair of consecutive samples. */
  datatype Crossing = None | Entry | Exit

  // ---------------------------------------------------------------------------
  // Crossing detector
  // ---------------------------------------------------------------------------

  /** Where a y coordinate lies relative to the counting line. */
  datatype Side = Above | OnLine | Below

  function SideOf(y: int, lineY: int): (side: Side)
    ensures side == Above <==> y < lineY
    ensures side == Below <==> y > lineY
  {
    if y < lineY then Above else if y == lineY then OnLine else Below
  }

  /** Entry: from strictly above the line to on or below it; Exit: from strictly
      below the line to on or above it; anything else is no crossing. */
  function Classify(prevY: int, currY: int, lineY: int): (c: Crossing)
    ensures c == Entry ==> prevY < currY
    ensures c == Exit ==> currY < prevY
    ensures prevY == lineY ==> c == None
  {
    if prevY < lineY && currY >= lineY then Entry
    else if prevY > lineY && currY <= lineY then Exit
    else None
  }

  /** The detector, restated in terms of sides: a crossing is reported exactly
      when the track leaves the strict side it was on, and its direction is
      given by the side it left. Starting on the line is never a crossing. */
  lemma ClassifyBySides(prevY: int, currY: int, lineY: int)
    ensures Classify(prevY, currY, lineY) == Entry <==>
            SideOf(prevY, lineY) == Above && SideOf(currY, lineY) != Above
    ensures Classify(prevY, currY, lineY) == Exit <==>
            SideOf(prevY, lineY) == Below && SideOf(currY, lineY) != Below
    ensures SideOf(prevY, lineY) == OnLine ==> Classify(prevY, currY, lineY) == None
  {
  }

  /** Entry and Exit are mutually exclusive and each says which way the track moved;
      a track that did not move vertically (in particular one sitting on the line
      in two consecutive samples) never crosses. */
  lemma ClassifyDirection(prevY: int, currY: int, lineY: int)
    ensures Classify(prevY, currY, lineY) == Entry ==> prevY < lineY <= currY
    ensures Classify(prevY, currY, lineY) == Exit ==> currY <= lineY < prevY
    ensures prevY == currY ==> Classify(prevY, currY, lineY) == None
  {
  }

  function Reversed(c: Crossing): (r: Crossing)
  {
    match c
    case None => None
    case Entry => Exit
    case Exit => Entry
  }

  /** The tie-break treats both directions alike: flipping the frame upside down
      turns every Entry into an Exit and vice versa. */
  lemma ClassifyMirror(prevY: int, currY: int, lineY: int)
    ensures Classify(-prevY, -currY, -lineY) == Reversed(Classify(prevY, currY, lineY))
  {
  }

  /** Direction and tie-break examples. */
  lemma ClassifyExamples()
    ensures Classify(10, 60, 50) == Entry
    ensures Classify(60, 10, 50) == Exit
    ensures Classify(10, 40, 50) == None
    ensures Classify(40, 50, 50) == Entry
    ensures Classify(60, 50, 50) == Exit
    ensures Classify(50, 50, 50) == None
    ensures Classify(50, 60, 50) == None
  {
  }

  // ---------------------------------------------------------------------------
  // Track history
  // ---------------------------------------------------------------------------

  /** The most recent `TrackHistoryLength` elements of `q`, in order. */
  function Recent(q: seq<Centroid>): (w: seq<Centroid>)
    ensures |w| <= TrackHistoryLength
  {
    if |q| <= TrackHistoryLength then q else q[|q| - TrackHistoryLength..]
  }

  /** Appends `p` and drops the oldest element once if the history became too long. */
  function Record(h: seq<Centroid>, p: Centroid): (r: seq<Centroid>)
    ensures |h| <= TrackHistoryLength ==> |r| <= TrackHistoryLength
    ensures 1 <= |r| && r[|r| - 1] == p
  {
    var a := h + [p];
    if |a| > TrackHistoryLength then a[1..] else a
  }

  /** Recording into a window of the recent samples gives the window of the
      extended sample sequence: the history is a FIFO of the latest samples. */
  lemma {:induction false} RecordKeepsRecent(q: seq<Centroid>, p: Centroid)
    ensures Record(Recent(q), p) == Recent(q + [p])
  {
    var qp := q + [p];
    if |q| > TrackHistoryLength {
      var w := q[|q| - TrackHistoryLength..];
      assert (w + [p])[1..] == qp[|qp| - TrackHistoryLength..];
    } else if |q| == TrackHistoryLength {
      assert Recent(q) == q;
    }
  }

  /** `Record` applied to every sample of `ps` in turn. */
  function Replay(h: seq<Centroid>, ps: seq<Centroid>): (r: seq<Centroid>)
    decreases |ps|
  {
    if ps == [] then h else Record(Replay(h, ps[..|ps| - 1]), ps[|ps| - 1])
  }

  lemma {:induction false} ReplayIsRecent(q: seq<Centroid>, ps: seq<Centroid>)
    ensures Replay(Recent(q), ps) == Recent(q + ps)
    decreases |ps|
  {
    if ps == [] {
      assert q + ps == q;
    } else {
      var init, last := ps[..|ps| - 1], ps[|ps| - 1];
      ReplayIsRecent(q, init);
      RecordKeepsRecent(q + init, last);
      assert q + init + [last] == q + ps;
    }
  }

  /** A history that starts empty always holds exactly the most recent
      `TrackHistoryLength` samples, oldest first; e.g. after 35 samples it holds
      the last 30. */
  lemma HistoryWindow(ps: seq<Centroid>)
    ensures Replay([], ps) == Recent(ps)
    ensures |Replay([], ps)| == if |ps| <= TrackHistoryLength then |ps| else TrackHistoryLength
    ensures |ps| > 0 ==> Replay([], ps)[|Replay([], ps)| - 1] == ps[|ps| - 1]
  {
    ReplayIsRecent([], ps);
    assert [] + ps == ps;
  }

  // ---------------------------------------------------------------------------
  // Counter state and one update
  // ---------------------------------------------------------------------------

  /** The state the counter owns: histories keyed by track id, the ids already
      counted and the two totals. */
  datatype Counts = Counts(
    trackHistory: map<TrackId, seq<Centroid>>,
    countedIds: set<TrackId>,
    entryCount: nat,
    exitCount: nat)

  const Initial := Counts(map[], {}, 0, 0)

  /** The history of `t`; an unseen track has an empty one. */
  function HistoryOf(s: Counts, t: TrackId): (h: seq<Centroid>)
  {
    if t in s.trackHistory then s.trackHistory[t] else []
  }

  /** What every reachable state satisfies: each count is paid for by exactly
      one counted id, every counted id has been seen, and histories are bounded. */
  predicate Inv(s: Counts)
  {
    && s.entryCount + s.exitCount == |s.countedIds|
    && s.countedIds <= s.trackHistory.Keys
    && forall t :: t in s.trackHistory ==> |s.trackHistory[t]| <= TrackHistoryLength
  }

  /** One detection: record the centroid, then, if the track has two samples and
      was never counted, classify its last move and count it. */
  function Step(s: Counts, d: Detection, lineY: int): (r: Counts)
    ensures s.countedIds <= r.countedIds <= s.countedIds + {d.trackId}
    ensures s.entryCount <= r.entryCount <= s.entryCount + 1
    ensures s.exitCount <= r.exitCount <= s.exitCount + 1
    ensures r.entryCount == s.entryCount || r.exitCount == s.exitCount
    ensures r.countedIds == s.countedIds ==> r.entryCount == s.entryCount && r.exitCount == s.exitCount
    ensures r.countedIds != s.countedIds ==>
              d.trackId !in s.countedIds && r.entryCount + r.exitCount == s.entryCount + s.exitCount + 1
  {
    var t := d.trackId;
    var h := Record(HistoryOf(s, t), d.centroid);
    var s' := s.(trackHistory := s.trackHistory[t := h]);
    if |h| >= 2 && t !in s.countedIds then
      match Classify(h[|h| - 2].1, h[|h| - 1].1, lineY)
      case Entry => s'.(entryCount := s.entryCount + 1, countedIds := s.countedIds + {t})
      case Exit => s'.(exitCount := s.exitCount + 1, countedIds := s.countedIds + {t})
      case None => s'
    else
      s'
  }

  /** The detections of one frame, processed in order. */
  function Run(s: Counts, ds: seq<Detection>, lineY: int): (r: Counts)
    ensures s.countedIds <= r.countedIds
    ensures s.entryCount <= r.entryCount && s.exitCount <= r.exitCount
    decreases |ds|
  {
    if ds == [] then s else Step(Run(s, ds[..|ds| - 1], lineY), ds[|ds| - 1], lineY)
  }

  // ---------------------------------------------------------------------------
  // Properties of one update
  // ---------------------------------------------------------------------------

  /** Nothing else changes: a detection of `d.trackId` records its centroid in
      that track's history (created if unseen) and leaves every other history as it was. */
  lemma StepHistories(s: Counts, d: Detection, lineY: int, u: TrackId)
    ensures Step(s, d, lineY).trackHistory.Keys == s.trackHistory.Keys + {d.trackId}
    ensures HistoryOf(Step(s, d, lineY), d.trackId) == Record(HistoryOf(s, d.trackId), d.centroid)
    ensures u != d.trackId ==> HistoryOf(Step(s, d, lineY), u) == HistoryOf(s, u)
  {
  }

  /** The crossing check looks at the sample just appended and the one before it:
      the track is counted exactly when it had been seen before, was not counted
      yet, and the move from its previous last sample to the new centroid crosses. */
  lemma StepCountsNewSample(s: Counts, d: Detection, lineY: int)
    ensures var r := Step(s, d, lineY);
            var h := HistoryOf(s, d.trackId);
            && (r.entryCount == s.entryCount + 1 <==>
                 d.trackId !in s.countedIds && h != [] && Classify(h[|h| - 1].1, d.centroid.1, lineY) == Entry)
            && (r.exitCount == s.exitCount + 1 <==>
                 d.trackId !in s.countedIds && h != [] && Classify(h[|h| - 1].1, d.centroid.1, lineY) == Exit)
            && (d.trackId in r.countedIds <==>
                 d.trackId in s.countedIds || (h != [] && Classify(h[|h| - 1].1, d.centroid.1, lineY) != None))
  {
    var h := HistoryOf(s, d.trackId);
    var h' := Record(h, d.centroid);
    if h != [] {
      if |h| < TrackHistoryLength {
        assert h' == h + [d.centroid];
      } else {
        assert h' == (h + [d.centroid])[1..];
      }
      assert h'[|h'| - 2] == h[|h| - 1];
    }
  }

  /** A track seen for the first time cannot be counted on that sample. */
  lemma StepFirstSampleNeverCounts(s: Counts, d: Detection, lineY: int)
    requires HistoryOf(s, d.trackId) == []
    ensures var r := Step(s, d, lineY);
            r.countedIds == s.countedIds && r.entryCount == s.entryCount && r.exitCount == s.exitCount
  {
  }

  /** At most once: a detection of an already counted track changes no count,
      whatever its trajectory does. */
  lemma StepIgnoresCounted(s: Counts, d: Detection, lineY: int)
    requires d.trackId in s.countedIds
    ensures var r := Step(s, d, lineY);
            r.countedIds == s.countedIds && r.entryCount == s.entryCount && r.exitCount == s.exitCount
  {
  }

  lemma StepPreservesInv(s: Counts, d: Detection, lineY: int)
    requires Inv(s)
    ensures Inv(Step(s, d, lineY))
  {
    var r := Step(s, d, lineY);
    if r.countedIds != s.countedIds {
      assert |r.countedIds| == |s.countedIds| + 1;
    }
  }

  /** Tracks are independent: two detections of different tracks can be
      processed in either order with the same outcome. */
  lemma StepCommutes(s: Counts, d1: Detection, d2: Detection, lineY: int)
    requires d1.trackId != d2.trackId
    ensures Step(Step(s, d1, lineY), d2, lineY) == Step(Step(s, d2, lineY), d1, lineY)
  {
    var t1, t2 := d1.trackId, d2.trackId;
    var h1 := Record(HistoryOf(s, t1), d1.centroid);
    var h2 := Record(HistoryOf(s, t2), d2.centroid);
    assert HistoryOf(Step(s, d1, lineY), t2) == HistoryOf(s, t2);
    assert HistoryOf(Step(s, d2, lineY), t1) == HistoryOf(s, t1);
    assert s.trackHistory[t1 := h1][t2 := h2] == s.trackHistory[t2 := h2][t1 := h1];
  }

  // ---------------------------------------------------------------------------
  // Properties of a sequence of updates
  // ---------------------------------------------------------------------------

  lemma {:induction false} RunPreservesInv(s: Counts, ds: seq<Detection>, lineY: int)
    requires Inv(s)
    ensures Inv(Run(s, ds, lineY))
    decreases |ds|
  {
    if ds != [] {
      RunPreservesInv(s, ds[..|ds| - 1], lineY);
      StepPreservesInv(Run(s, ds[..|ds| - 1], lineY), ds[|ds| - 1], lineY);
    }
  }

  /** The totals grow by exactly the number of ids newly counted: no id is ever
      paid for twice. */
  lemma {:induction false} RunPaysPerId(s: Counts, ds: seq<Detection>, lineY: int)
    ensures var r := Run(s, ds, lineY);
            r.entryCount + r.exitCount == s.entryCount + s.exitCount + |r.countedIds - s.countedIds|
    decreases |ds|
  {
    if ds == [] {
      assert s.countedIds - s.countedIds == {};
    } else {
      var m := Run(s, ds[..|ds| - 1], lineY);
      var d := ds[|ds| - 1];
      var r := Step(m, d, lineY);
      RunPaysPerId(s, ds[..|ds| - 1], lineY);
      if r.countedIds != m.countedIds {
        assert r.countedIds - s.countedIds == (m.countedIds - s.countedIds) + {d.trackId};
        assert d.trackId !in m.countedIds - s.countedIds;
      }
    }
  }

  /** At most once, over any run: detections of tracks that are already counted
      leave every count and the counted set unchanged. */
  lemma {:induction false} RunIgnoresCounted(s: Counts, ds: seq<Detection>, lineY: int)
    requires forall i :: 0 <= i < |ds| ==> ds[i].trackId in s.countedIds
    ensures var r := Run(s, ds, lineY);
            r.countedIds == s.countedIds && r.entryCount == s.entryCount && r.exitCount == s.exitCount
    decreases |ds|
  {
    if ds != [] {
      var init := ds[..|ds| - 1];
      RunIgnoresCounted(s, init, lineY);
      StepIgnoresCounted(Run(s, init, lineY), ds[|ds| - 1], lineY);
    }
  }

  /** The centroids reported for track `t`, in order. */
  function CentroidsOf(ds: seq<Detection>, t: TrackId): (ps: seq<Centroid>)
    decreases |ds|
  {
    if ds == [] then []
    else
      var d := ds[|ds| - 1];
      CentroidsOf(ds[..|ds| - 1], t) + (if d.trackId == t then [d.centroid] else [])
  }

  /** A track's history depends only on its own detections. */
  lemma {:induction false} RunHistory(s: Counts, ds: seq<Detection>, lineY: int, t: TrackId)
    ensures HistoryOf(Run(s, ds, lineY), t) == Replay(HistoryOf(s, t), CentroidsOf(ds, t))
    ensures t in Run(s, ds, lineY).trackHistory <==> t in s.trackHistory || CentroidsOf(ds, t) != []
    decreases |ds|
  {
    if ds != [] {
      var init, d := ds[..|ds| - 1], ds[|ds| - 1];
      RunHistory(s, init, lineY, t);
      StepHistories(Run(s, init, lineY), d, lineY, t);
      var ps := CentroidsOf(init, t);
      if d.trackId == t {
        assert CentroidsOf(ds, t) == ps + [d.centroid];
        assert (ps + [d.centroid])[..|ps|] == ps;
      } else {
        assert CentroidsOf(ds, t) == ps;
      }
    }
  }

  /** From the initial state, every track's history is exactly the most recent
      `TrackHistoryLength` centroids reported for it, newest last. */
  lemma RunHistoryFromInitial(ds: seq<Detection>, lineY: int, t: TrackId)
    ensures HistoryOf(Run(Initial, ds, lineY), t) == Recent(CentroidsOf(ds, t))
  {
    RunHistory(Initial, ds, lineY, t);
    HistoryWindow(CentroidsOf(ds, t));
  }

  /** The last sample of a history, if there is one. */
  function LastOf(h: seq<Centroid>): (l: seq<Centroid>)
    ensures |l| <= 1 && (l == [] <==> h == [])
  {
    if h == [] then [] else [h[|h| - 1]]
  }

  /** Some two consecutive samples of `q` cross the counting line. */
  predicate CrossesSomewhere(q: seq<Centroid>, lineY: int)
  {
    exists j :: 1 <= j < |q| && Classify(q[j - 1].1, q[j].1, lineY) != None
  }

  lemma CrossesSnoc(q: seq<Centroid>, c: Centroid, lineY: int)
    ensures CrossesSomewhere(q + [c], lineY) <==>
            CrossesSomewhere(q, lineY) || (q != [] && Classify(q[|q| - 1].1, c.1, lineY) != None)
  {
    var qc := q + [c];
    if CrossesSomewhere(qc, lineY) && !CrossesSomewhere(q, lineY) {
      var j :| 1 <= j < |qc| && Classify(qc[j - 1].1, qc[j].1, lineY) != None;
      assert j == |q|;
    }
    if CrossesSomewhere(q, lineY) {
      var j :| 1 <= j < |q| && Classify(q[j - 1].1, q[j].1, lineY) != None;
      assert Classify(qc[j - 1].1, qc[j].1, lineY) != None;
    }
    if q != [] && Classify(q[|q| - 1].1, c.1, lineY) != None {
      assert Classify(qc[|q| - 1].1, qc[|q|].1, lineY) != None;
    }
  }

  /** Replaying samples into a history ends with the last of all those samples. */
  lemma {:induction false} ReplayLast(h: seq<Centroid>, ps: seq<Centroid>)
    ensures LastOf(Replay(h, ps)) == LastOf(h + ps)
    decreases |ps|
  {
    if ps == [] {
      assert h + ps == h;
    } else {
      ReplayLast(h, ps[..|ps| - 1]);
      assert (h + ps)[|h + ps| - 1] == ps[|ps| - 1];
    }
  }

  /** One detection of a track extends its sample sequence by one centroid; it is
      counted afterwards exactly when that longer sequence crosses somewhere. */
  lemma StepCountedIffCrossed(m: Counts, d: Detection, lineY: int, q: seq<Centroid>)
    requires LastOf(HistoryOf(m, d.trackId)) == LastOf(q)
    requires d.trackId in m.countedIds <==> CrossesSomewhere(q, lineY)
    ensures d.trackId in Step(m, d, lineY).countedIds <==> CrossesSomewhere(q + [d.centroid], lineY)
  {
    StepCountsNewSample(m, d, lineY);
    CrossesSnoc(q, d.centroid, lineY);
  }

  /** The newest sample of a track after a run is the newest of its last recorded
      sample and its centroids in the run. */
  lemma RunLastSample(s: Counts, ds: seq<Detection>, lineY: int, t: TrackId)
    ensures LastOf(HistoryOf(Run(s, ds, lineY), t)) == LastOf(LastOf(HistoryOf(s, t)) + CentroidsOf(ds, t))
  {
    var h, ps := HistoryOf(s, t), CentroidsOf(ds, t);
    RunHistory(s, ds, lineY, t);
    ReplayLast(h, ps);
    if ps == [] {
      assert h + ps == h && LastOf(h) + ps == LastOf(h);
    } else {
      assert (h + ps)[|h + ps| - 1] == ps[|ps| - 1];
      assert (LastOf(h) + ps)[|LastOf(h) + ps| - 1] == ps[|ps| - 1];
    }
  }

  /** Counted exactly when crossed: a track not yet counted becomes counted during
      a run exactly when, in the sequence made of its last recorded sample (if any)
      followed by its centroids in this run, some two consecutive samples cross. */
  lemma {:induction false} RunCountedIffCrossed(s: Counts, ds: seq<Detection>, lineY: int, t: TrackId)
    requires t !in s.countedIds
    ensures t in Run(s, ds, lineY).countedIds <==>
            CrossesSomewhere(LastOf(HistoryOf(s, t)) + CentroidsOf(ds, t), lineY)
    decreases |ds|
  {
    var l := LastOf(HistoryOf(s, t));
    if ds == [] {
      assert l + CentroidsOf(ds, t) == l;
    } else {
      var init, d := ds[..|ds| - 1], ds[|ds| - 1];
      var ps := CentroidsOf(init, t);
      RunCountedIffCrossed(s, init, lineY, t);
      if d.trackId != t {
        assert CentroidsOf(ds, t) == ps;
      } else {
        assert CentroidsOf(ds, t) == ps + [d.centroid];
        assert l + (ps + [d.centroid]) == (l + ps) + [d.centroid];
        RunLastSample(s, init, lineY, t);
        StepCountedIffCrossed(Run(s, init, lineY), d, lineY, l + ps);
      }
    }
  }

  /** From the initial state a track is counted exactly when two of its
      consecutive centroids crossed the line. */
  lemma CountedIffCrossedFromInitial(ds: seq<Detection>, lineY: int, t: TrackId)
    ensures t in Run(Initial, ds, lineY).countedIds <==> CrossesSomewhere(CentroidsOf(ds, t), lineY)
  {
    RunCountedIffCrossed(Initial, ds, lineY, t);
    assert LastOf(HistoryOf(Initial, t)) + CentroidsOf(ds, t) == CentroidsOf(ds, t);
  }

  /** Track 7 descends through y = 20, 50, 90, 110, 130 with the line at 100 and
      then climbs back to 80: one Entry (between 90 and 110), no Exit. */
  lemma Scenario()
    ensures var ds := [Detection(7, (0, 20)), Detection(7, (0, 50)), Detection(7, (0, 90)),
                       Detection(7, (0, 110)), Detection(7, (0, 130)), Detection(7, (0, 80))];
            var r3 := Run(Initial, ds[..3], 100);
            var r4 := Run(Initial, ds[..4], 100);
            var r := Run(Initial, ds, 100);
            && r3.entryCount == 0 && r3.exitCount == 0 && r3.countedIds == {}
            && r4.entryCount == 1 && r4.exitCount == 0 && r4.countedIds == {7}
            && r.entryCount == 1 && r.exitCount == 0 && r.countedIds == {7} && r.entryCount - r.exitCount == 1
  {
    var d0, d1, d2 := Detection(7, (0, 20)), Detection(7, (0, 50)), Detection(7, (0, 90));
    var d3, d4, d5 := Detection(7, (0, 110)), Detection(7, (0, 130)), Detection(7, (0, 80));
    var s1 := Run(Initial, [d0], 100);
    RunSnoc(Initial, [], d0, 100);
    assert [] + [d0] == [d0];
    StepFirstSampleNeverCounts(Initial, d0, 100);
    assert HistoryOf(s1, 7) == [(0, 20)];
    var s2 := Run(Initial, [d0, d1], 100);
    RunSnoc(Initial, [d0], d1, 100);
    assert [d0] + [d1] == [d0, d1];
    assert HistoryOf(s2, 7) == [(0, 20), (0, 50)];
    assert s2.countedIds == {} && s2.entryCount == s2.exitCount == 0;
    var s3 := Run(Initial, [d0, d1, d2], 100);
    RunSnoc(Initial, [d0, d1], d2, 100);
    assert [d0, d1] + [d2] == [d0, d1, d2];
    assert HistoryOf(s3, 7) == [(0, 20), (0, 50), (0, 90)];
    assert s3.countedIds == {} && s3.entryCount == s3.exitCount == 0;
    var s4 := Run(Initial, [d0, d1, d2, d3], 100);
    RunSnoc(Initial, [d0, d1, d2], d3, 100);
    assert [d0, d1, d2] + [d3] == [d0, d1, d2, d3];
    assert s4.countedIds == {7} && s4.entryCount == 1 && s4.exitCount == 0;
    RunIgnoresCounted(s4, [d4, d5], 100);
    RunSplit(Initial, [d0, d1, d2, d3], [d4, d5], 100);
    var ds := [d0, d1, d2, d3, d4, d5];
    assert ds[..3] == [d0, d1, d2] && ds[..4] == [d0, d1, d2, d3];
    assert [d0, d1, d2, d3] + [d4, d5] == ds;
  }

  /** Processing one more detection after a batch is one more step. */
  lemma RunSnoc(s: Counts, ds: seq<Detection>, d: Detection, lineY: int)
    ensures Run(s, ds + [d], lineY) == Step(Run(s, ds, lineY), d, lineY)
  {
    assert (ds + [d])[..|ds|] == ds;
  }

  /** Processing two batches one after the other is processing their concatenation. */
  lemma {:induction false} RunSplit(s: Counts, xs: seq<Detection>, ys: seq<Detection>, lineY: int)
    ensures Run(Run(s, xs, lineY), ys, lineY) == Run(s, xs + ys, lineY)
    decreases |ys|
  {
    if ys == [] {
      assert xs + ys == xs;
    } else {
      RunSplit(s, xs, ys[..|ys| - 1], lineY);
      assert (xs + ys)[..|xs + ys| - 1] == xs + ys[..|ys| - 1];
    }
  }

  // ---------------------------------------------------------------------------
  // The counter object
  // ---------------------------------------------------------------------------

  class FootfallCounter {
    var trackHistory: map<TrackId, seq<Centroid>>
    var countedIds: set<TrackId>
    var entryCount: nat
    var exitCount: nat

    function Snapshot(): Counts
      reads this
    {
      Counts(trackHistory, countedIds, entryCount, exitCount)
    }

    ghost predicate Valid()
      reads this
    {
      Inv(Snapshot())
    }

    constructor ()
      ensures Valid() && Snapshot() == Initial
    {
      trackHistory := map[];
      countedIds := {};
      entryCount := 0;
      exitCount := 0;
    }

    /** Processes one frame's detections in order against the counting line `lineY`. */
    method UpdateCounts(detections: seq<Detection>, lineY: int)
      requires Valid()
      modifies this
      ensures Valid()
      ensures Snapshot() == Run(old(Snapshot()), detections, lineY)
      ensures old(countedIds) <= countedIds
      ensures old(entryCount) <= entryCount && old(exitCount) <= exitCount
    {
      var i := 0;
      while i < |detections|
        invariant 0 <= i <= |detections|
        invariant Valid()
        invariant Snapshot() == Run(old(Snapshot()), detections[..i], lineY)
      {
        Observe(detections[i], lineY);
        RunSnoc(old(Snapshot()), detections[..i], detections[i], lineY);
        assert detections[..i] + [detections[i]] == detections[..i + 1];
        i := i + 1;
      }
      assert detections[..i] == detections;
    }

    /** The body of the loop in `UpdateCounts`: record one detection's centroid,
        then check the track's last move for a crossing unless it is already counted. */
    method Observe(d: Detection, lineY: int)
      requires Valid()
      modifies this
      ensures Valid()
      ensures Snapshot() == Step(old(Snapshot()), d, lineY)
    {
      ghost var s0 := Snapshot();
      var trackId := d.trackId;
      var history := if trackId in trackHistory then trackHistory[trackId] else [];
      history := history + [d.centroid];
      if |history| > TrackHistoryLength {
        history := history[1..];
      }
      assert history == Record(HistoryOf(s0, trackId), d.centroid);
      trackHistory := trackHistory[trackId := history];

      if |history| >= 2 && trackId !in countedIds {
        var prevY := history[|history| - 2].1;
        var currY := history[|history| - 1].1;
        match Classify(prevY, currY, lineY)
        case Entry =>
          entryCount := entryCount + 1;
          countedIds := countedIds + {trackId};
        case Exit =>
          exitCount := exitCount + 1;
          countedIds := countedIds + {trackId};
        case None =>
      }
      StepPreservesInv(old(Snapshot()), d, lineY);
    }

    /** Entries minus exits, as displayed; not clamped at zero. */
    function Occupancy(): (occupancy: int)
      reads this
      requires Valid()
      ensures -|countedIds| <= occupancy <= |countedIds|
    {
      entryCount - exitCount
    }
  }
}
