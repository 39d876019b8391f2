/**
 The detection recorder: every detector sample that carries a note and lies
 at least MinIntervalMs after the last recorded detection is appended to the
 chronological log and to the log of its own label.
 */
module Recording {
  import opened Wrappers
  import opened Detections

  /** Whether a sample is recorded: it carries a note and is not debounced. */
  predicate Accepts(log: seq<Detection>, raw: Option<Note>, time: nat) {
    Truthy(raw) && (log == [] || time - Last(log).time >= MinIntervalMs)
  }

  /** The chronological log after one sample has been offered to the recorder. */
  function AfterRecord(log: seq<Detection>, raw: Option<Note>, time: nat, detune: int): seq<Detection> {
    if Accepts(log, raw, time) then log + [Detection(raw.value, time, detune)] else log
  }

  /** Recording keeps consecutive detections at least MinIntervalMs apart. */
  lemma RecordKeepsSpacing(log: seq<Detection>, raw: Option<Note>, time: nat, detune: int)
    requires Spaced(log)
    ensures Spaced(AfterRecord(log, raw, time, detune))
    ensures |AfterRecord(log, raw, time, detune)| <= |log| + 1
  {
    var r := AfterRecord(log, raw, time, detune);
    if Accepts(log, raw, time) {
      forall i, j | 0 <= i < j < |r| ensures r[i].time + MinIntervalMs <= r[j].time {
        if j < |log| {
          assert r[i] == log[i] && r[j] == log[j];
        } else if i < |log| - 1 {
          assert r[i] == log[i] && log[i].time + MinIntervalMs <= Last(log).time;
        }
      }
    }
  }

  /**
   Of two samples with the same label less than MinIntervalMs apart, only the
   first is stored once it is accepted.
   */
  lemma DebounceDropsSecond(log: seq<Detection>, n: Note, time: nat, delta: nat, detune1: int, detune2: int)
    requires Accepts(log, Some(n), time)
    requires delta < MinIntervalMs
    ensures AfterRecord(AfterRecord(log, Some(n), time, detune1), Some(n), time + delta, detune2)
            == log + [Detection(n, time, detune1)]
  {
    var once := AfterRecord(log, Some(n), time, detune1);
    assert Last(once).time == time;
  }

  /** The live log: `detections` in arrival order and `byNote`, its index by label. */
  class DetectionLog {
    var detections: seq<Detection>
    var byNote: map<Note, seq<Detection>>

    /** The index is the filter of the log by label, and the log is debounced. */
    ghost predicate Valid()
      reads this
    {
      && Spaced(detections)
      && (forall n :: n in byNote ==> byNote[n] == OfNote(detections, n))
      && (forall n :: n !in byNote ==> OfNote(detections, n) == [])
    }

    constructor ()
      ensures Valid()
      ensures detections == [] && byNote == map[]
    {
      detections := [];
      byNote := map[];
    }

    /** The detections of one label, an absent key reading as the empty list. */
    function NoteLog(n: Note): (r: seq<Detection>)
      reads this
      requires Valid()
      ensures r == OfNote(detections, n)
    {
      Lookup(byNote, n)
    }

    /** Offers one detector sample to the recorder. */
    method Record(raw: Option<Note>, time: nat, detune: int)
      requires Valid()
      modifies this
      ensures Valid()
      ensures detections == AfterRecord(old(detections), raw, time, detune)
      ensures Accepts(old(detections), raw, time) ==>
                byNote == old(byNote)[raw.value := old(NoteLog(raw.value)) + [Detection(raw.value, time, detune)]]
      ensures !Accepts(old(detections), raw, time) ==> byNote == old(byNote)
    {
      if !Truthy(raw) {
        return;
      }
      var detection := Detection(raw.value, time, detune);
      if detections != [] && time - Last(detections).time < MinIntervalMs {
        return;
      }
      RecordKeepsSpacing(detections, raw, time, detune);
      var prior := NoteLog(detection.note);
      ghost var before, index := detections, byNote;
      detections := detections + [detection];
      byNote := byNote[detection.note := prior + [detection]];
      forall n | n in byNote ensures byNote[n] == OfNote(detections, n) {
        OfNoteAppend(before, detection, n);
      }
      forall n | n !in byNote ensures OfNote(detections, n) == [] {
        OfNoteAppend(before, detection, n);
        assert n !in index;
      }
    }
  }
}
