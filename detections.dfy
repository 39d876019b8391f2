/** Optional values: the detector's "no pitch" signal and the exercise's optional bounds. */
module Wrappers {
  datatype Option<+T> = None | Some(value: T)
}

/**
 The detection samples of the ear trainer and the views of a detection log
 that the recorder, the held-note analyzer and the visualization share.
 Times are integer milliseconds of the audio clock, which starts at 0.
 */
module Detections {
  import opened Wrappers

  /** Nominal spacing of the pitch detector's samples (SAMPLE_RATE_MS). */
  const SampleRateMs: nat := 10

  /** Minimum spacing of two recorded detections: 0.001 * SAMPLE_RATE_MS seconds. */
  const MinIntervalMs: nat := SampleRateMs

  /** A pitch class with its octave, such as "C4". */
  type Note = string

  /** One observed pitch event; detune is the offset in cents from the note. */
  datatype Detection = Detection(note: Note, time: nat, detune: int)

  /**
   A JavaScript truthiness test on the detector's note string: the detector
   reports "no pitch" as NaN or undefined (None here) and the empty string is
   falsy as well.
   */
  predicate Truthy(raw: Option<Note>) {
    raw.Some? && raw.value != ""
  }

  function Last(ds: seq<Detection>): Detection
    requires ds != []
  {
    ds[|ds| - 1]
  }

  /** The sub-sequence of `ds` made of the detections labelled `n`, in log order. */
  function OfNote(ds: seq<Detection>, n: Note): (r: seq<Detection>)
    ensures |r| <= |ds|
    ensures forall i :: 0 <= i < |r| ==> r[i].note == n
  {
    if ds == [] then []
    else OfNote(ds[..|ds| - 1], n) + (if Last(ds).note == n then [Last(ds)] else [])
  }

  /** How many detections of `ds` carry label `n`. */
  function Count(ds: seq<Detection>, n: Note): nat {
    |OfNote(ds, n)|
  }

  /** The index lookup `detectionsByNote[note] ?? []`: an absent label reads as the empty list. */
  function Lookup(byNote: map<Note, seq<Detection>>, n: Note): seq<Detection> {
    if n in byNote then byNote[n] else []
  }

  /**
   The position of the first detection labelled `n`, or |ds| when there is
   none: the order in which a label first appears in a log.
   */
  function FirstSeen(ds: seq<Detection>, n: Note): (r: nat)
    ensures r <= |ds|
  {
    if ds == [] then 0
    else
      var f := FirstSeen(ds[..|ds| - 1], n);
      if f < |ds| - 1 then f
      else if Last(ds).note == n then |ds| - 1
      else |ds|
  }

  /**
   FirstSeen names a position of the label when the log has one, the end of
   the log exactly when it has none, and no earlier detection carries it.
   */
  lemma {:induction false} FirstSeenSound(ds: seq<Detection>, n: Note)
    ensures FirstSeen(ds, n) < |ds| <==> Count(ds, n) > 0
    ensures FirstSeen(ds, n) < |ds| ==> ds[FirstSeen(ds, n)].note == n
    ensures forall i :: 0 <= i < FirstSeen(ds, n) ==> ds[i].note != n
  {
    if ds != [] {
      var p := ds[..|ds| - 1];
      FirstSeenSound(p, n);
      assert Count(ds, n) == Count(p, n) + (if Last(ds).note == n then 1 else 0);
      assert forall i :: 0 <= i < |p| ==> ds[i] == p[i];
    }
  }

  /**
   Every detection lies at least MinIntervalMs after each one before it (for
   neighbours this is the debounce rule; farther pairs follow from it).
   */
  predicate Spaced(ds: seq<Detection>) {
    forall i, j :: 0 <= i < j < |ds| ==> ds[i].time + MinIntervalMs <= ds[j].time
  }

  /** Appending one detection to a log adds it to its own label's sub-sequence only. */
  lemma OfNoteAppend(ds: seq<Detection>, d: Detection, n: Note)
    ensures OfNote(ds + [d], n) == OfNote(ds, n) + (if d.note == n then [d] else [])
  {
    assert (ds + [d])[..|ds|] == ds;
  }

  /** A label's sub-sequence holds exactly the log's detections with that label. */
  lemma {:induction false} OfNoteMembers(ds: seq<Detection>, n: Note, d: Detection)
    ensures d in OfNote(ds, n) <==> d in ds && d.note == n
  {
    if ds != [] {
      var p := ds[..|ds| - 1];
      OfNoteMembers(p, n, d);
      assert ds == p + [Last(ds)];
    }
  }

  /** Two different labels together occupy at most the whole log. */
  lemma {:induction false} CountsDisjoint(ds: seq<Detection>, a: Note, b: Note)
    requires a != b
    ensures Count(ds, a) + Count(ds, b) <= |ds|
  {
    if ds != [] {
      CountsDisjoint(ds[..|ds| - 1], a, b);
    }
  }

  /** A trailing run of a spaced log is spaced. */
  lemma SpacedSuffix(ds: seq<Detection>, k: nat)
    requires Spaced(ds) && k <= |ds|
    ensures Spaced(ds[k..])
  {
    var s := ds[k..];
    forall i, j | 0 <= i < j < |s| ensures s[i].time + MinIntervalMs <= s[j].time {
      assert s[i] == ds[k + i] && s[j] == ds[k + j];
    }
  }

  /** A leading run of a spaced log is spaced. */
  lemma SpacedPrefix(ds: seq<Detection>, k: nat)
    requires Spaced(ds) && k <= |ds|
    ensures Spaced(ds[..k])
  {
    var s := ds[..k];
    forall i, j | 0 <= i < j < |s| ensures s[i].time + MinIntervalMs <= s[j].time {
      assert s[i] == ds[i] && s[j] == ds[j];
    }
  }

  /** In a spaced log, times grow by at least MinIntervalMs per position. */
  lemma {:induction false} SpacedSpread(ds: seq<Detection>, i: nat, j: nat)
    requires Spaced(ds)
    requires i <= j < |ds|
    ensures ds[i].time + MinIntervalMs * (j - i) <= ds[j].time
    decreases j - i
  {
    if i < j {
      SpacedSpread(ds, i + 1, j);
      assert ds[i].time + MinIntervalMs <= ds[i + 1].time;
    }
  }
}
