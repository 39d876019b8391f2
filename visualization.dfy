/**
 The non-drawing part of the live visualization: the clock is cut into
 periods of fixed length, and each shown note row draws the detections of
 its label that fall in the current period, at their offset into it.
 */
module Visualization {
  import opened Detections

  /** The length of one visualization period: 10 seconds. */
  const PeriodLengthMs: nat := 10000

  /** The pitch classes of one octave, in the row order of the display. */
  const PitchClasses: seq<string> := ["C", "C#", "D", "D#", "E", "F", "F#", "G", "G#", "A", "A#", "B"]

  /** The display shows two octaves, starting at octave 3. */
  const OctavesShown: nat := 2
  const BaseOctave: nat := 3
  const RowsShown: nat := OctavesShown * |PitchClasses|

  /** A half-open interval [start, end) of the clock, in milliseconds. */
  datatype Period = Period(start: nat, end: nat)

  /** The period containing `now`: it starts at a multiple of the period length. */
  function CurrentPeriod(now: nat): (p: Period)
    ensures p.start <= now < p.end
    ensures p.end == p.start + PeriodLengthMs
    ensures p.start % PeriodLengthMs == 0
  {
    var k := now / PeriodLengthMs;
    Period(k * PeriodLengthMs, k * PeriodLengthMs + PeriodLengthMs)
  }

  /** The offset of a time into its own period. */
  function Modded(t: nat): (r: nat)
    ensures r < PeriodLengthMs
    ensures r == t - CurrentPeriod(t).start
  {
    t % PeriodLengthMs
  }

  predicate Within(t: nat, p: Period) {
    p.start <= t < p.end
  }

  /** A time is in the current period exactly when it has the same period number as the clock. */
  lemma SamePeriod(t: nat, now: nat)
    ensures Within(t, CurrentPeriod(now)) <==> t / PeriodLengthMs == now / PeriodLengthMs
    ensures Within(t, CurrentPeriod(now)) <==> CurrentPeriod(t) == CurrentPeriod(now)
  {
    var k, j := now / PeriodLengthMs, t / PeriodLengthMs;
    var ct := CurrentPeriod(t);
    assert ct.start == j * PeriodLengthMs;
    if j < k {
      assert j * PeriodLengthMs + PeriodLengthMs <= k * PeriodLengthMs;
    } else if j > k {
      assert k * PeriodLengthMs + PeriodLengthMs <= j * PeriodLengthMs;
    }
  }

  /** The detections of `ds` whose time lies in `p`, in log order (the row loop's `continue`). */
  function InPeriod(ds: seq<Detection>, p: Period): (r: seq<Detection>)
    ensures |r| <= |ds|
    ensures forall i :: 0 <= i < |r| ==> Within(r[i].time, p)
  {
    if ds == [] then []
    else InPeriod(ds[..|ds| - 1], p) + (if Within(Last(ds).time, p) then [Last(ds)] else [])
  }

  /** The period filter drops exactly the detections outside the period. */
  lemma {:induction false} InPeriodMembers(ds: seq<Detection>, p: Period, d: Detection)
    ensures d in InPeriod(ds, p) <==> d in ds && Within(d.time, p)
  {
    if ds != [] {
      var q := ds[..|ds| - 1];
      InPeriodMembers(q, p, d);
      assert ds == q + [Last(ds)];
    }
  }

  /** Selecting by label and selecting by period can be done in either order. */
  lemma {:induction false} InPeriodOfNote(ds: seq<Detection>, p: Period, n: Note)
    ensures InPeriod(OfNote(ds, n), p) == OfNote(InPeriod(ds, p), n)
  {
    if ds != [] {
      var q := ds[..|ds| - 1];
      var d := Last(ds);
      InPeriodOfNote(q, p, n);
      if d.note == n {
        assert OfNote(ds, n) == OfNote(q, n) + [d];
        InPeriodAppend(OfNote(q, n), d, p);
      } else {
        assert OfNote(ds, n) == OfNote(q, n);
      }
      if Within(d.time, p) {
        assert InPeriod(ds, p) == InPeriod(q, p) + [d];
        OfNoteAppend(InPeriod(q, p), d, n);
      } else {
        assert InPeriod(ds, p) == InPeriod(q, p);
      }
    }
  }

  lemma InPeriodAppend(ds: seq<Detection>, d: Detection, p: Period)
    ensures InPeriod(ds + [d], p) == InPeriod(ds, p) + (if Within(d.time, p) then [d] else [])
  {
    assert (ds + [d])[..|ds|] == ds;
  }

  /** One drawn detection: its offset into the period and its detune in cents. */
  datatype Point = Point(moddedTime: nat, detune: int)

  /** The points a row draws for its detections of the current period. */
  function Points(ds: seq<Detection>): (r: seq<Point>)
    ensures |r| == |ds|
    ensures forall i :: 0 <= i < |r| ==> r[i] == Point(Modded(ds[i].time), ds[i].detune)
  {
    if ds == [] then [] else Points(ds[..|ds| - 1]) + [Point(Modded(Last(ds).time), Last(ds).detune)]
  }

  /** The label of display row `i`: its pitch class followed by its octave digit. */
  function RowNote(i: nat): Note
    requires i < RowsShown
  {
    PitchClasses[i % |PitchClasses|] + [(('0' as int) + i / |PitchClasses| + BaseOctave) as char]
  }

  /** The rows run from C3 at the bottom of the order to B4, one octave per twelve rows. */
  lemma RowNotesSpan()
    ensures RowNote(0) == "C3" && RowNote(12) == "C4" && RowNote(23) == "B4"
  {
  }

  /** Different rows show different labels, so a detection is drawn in one row at most. */
  lemma RowNotesDistinct(i: nat, j: nat)
    requires i < j < RowsShown
    ensures RowNote(i) != RowNote(j)
  {
    var a, b := RowNote(i), RowNote(j);
    if i / 12 != j / 12 {
      assert a[|a| - 1] != b[|b| - 1];
    } else {
      var x, y := i % 12, j % 12;
      assert x != y;
      assert a[..|a| - 1] == PitchClasses[x] && b[..|b| - 1] == PitchClasses[y];
      assert PitchClasses[x] != PitchClasses[y] by {
        if |PitchClasses[x]| == |PitchClasses[y]| {
          assert PitchClasses[x][0] != PitchClasses[y][0];
        }
      }
    }
  }

  /** What one frame draws: for each shown row, the points of its label in the current period. */
  function Frame(byNote: map<Note, seq<Detection>>, now: nat): (r: seq<seq<Point>>)
    ensures |r| == RowsShown
  {
    seq(RowsShown, i requires 0 <= i < RowsShown => Points(InPeriod(Lookup(byNote, RowNote(i)), CurrentPeriod(now))))
  }

  /**
   Drawn from an index that is the filter of the log by label, the row of
   label n shows exactly the log's detections of the current period labelled
   n, in log order, each at its offset into the period, which is also the
   offset of that detection from the start of the period.
   */
  lemma FrameRows(detections: seq<Detection>, byNote: map<Note, seq<Detection>>, now: nat, i: nat)
    requires forall n :: n in byNote ==> byNote[n] == OfNote(detections, n)
    requires forall n :: n !in byNote ==> OfNote(detections, n) == []
    requires i < RowsShown
    ensures var p := CurrentPeriod(now);
            var shown := OfNote(InPeriod(detections, p), RowNote(i));
            Frame(byNote, now)[i] == Points(shown)
            && forall k :: 0 <= k < |shown| ==>
                 Frame(byNote, now)[i][k].moddedTime == shown[k].time - p.start < PeriodLengthMs
  {
    var p := CurrentPeriod(now);
    var n := RowNote(i);
    assert Lookup(byNote, n) == OfNote(detections, n);
    InPeriodOfNote(detections, p, n);
    var shown := OfNote(InPeriod(detections, p), n);
    forall k | 0 <= k < |shown|
      ensures Modded(shown[k].time) == shown[k].time - p.start
    {
      SamePeriod(shown[k].time, now);
    }
  }
}
