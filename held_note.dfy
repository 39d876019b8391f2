/**
 The held-note analyzer: one poll of the live log decides whether enough
 detections have arrived since the call started and, if so, votes on the
 trailing window of `lengthMs` milliseconds.
 */
module HeldNote {
  import opened Wrappers
  import opened Detections

  /** Divisor of the nominal sample count that tolerates dropped samples (GAPPINESS). */
  const Gappiness: nat := 3

  /**
   The density floor `count >= (lengthMs / SAMPLE_RATE_MS) / GAPPINESS`,
   multiplied out into integers.
   */
  predicate DensityFloorMet(count: nat, lengthMs: nat) {
    count * (SampleRateMs * Gappiness) >= lengthMs
  }

  /** The integer floor agrees with the source's comparison on real numbers. */
  lemma DensityFloorMatchesSource(count: nat, lengthMs: nat)
    ensures DensityFloorMet(count, lengthMs)
            <==> !((count as real) < (lengthMs as real / SampleRateMs as real) / Gappiness as real)
  {
    var bound := (lengthMs as real / SampleRateMs as real) / Gappiness as real;
    assert bound * 30.0 == lengthMs as real;
  }

  /**
   The first eligible index: one before the log's length at call time, so the
   last detection recorded before the call still takes part.
   */
  function StartIndex(lenAtCall: nat): nat {
    if lenAtCall == 0 then 0 else lenAtCall - 1
  }

  /** `log.slice(start)`: empty once `start` lies past the end. */
  function Eligible(log: seq<Detection>, start: nat): seq<Detection> {
    if start <= |log| then log[start..] else []
  }

  /**
   Of a log that has grown from `before`, a poll considers every detection
   appended since, plus the last one recorded before the call.
   */
  lemma EligibleSinceCall(before: seq<Detection>, log: seq<Detection>)
    requires before <= log
    ensures before == [] ==> Eligible(log, StartIndex(|before|)) == log
    ensures before != [] ==> Eligible(log, StartIndex(|before|)) == [Last(before)] + log[|before|..]
  {
    if before != [] {
      assert log[|before| - 1..] == [log[|before| - 1]] + log[|before|..];
    }
  }

  /** The detections of `ds` at or after time `from`, in log order. */
  function AtOrAfter(ds: seq<Detection>, from: int): (r: seq<Detection>)
    ensures |r| <= |ds|
  {
    if ds == [] then []
    else AtOrAfter(ds[..|ds| - 1], from) + (if Last(ds).time >= from then [Last(ds)] else [])
  }

  /** The cut-off keeps exactly the detections at or after `from`. */
  lemma {:induction false} AtOrAfterMembers(ds: seq<Detection>, from: int, d: Detection)
    ensures d in AtOrAfter(ds, from) <==> d in ds && d.time >= from
  {
    if ds != [] {
      var p := ds[..|ds| - 1];
      AtOrAfterMembers(p, from, d);
      assert ds == p + [Last(ds)];
    }
  }

  /** The detections within `lengthMs` of the latest eligible one. */
  function Window(eligible: seq<Detection>, lengthMs: nat): seq<Detection>
    requires eligible != []
  {
    AtOrAfter(eligible, Last(eligible).time - lengthMs)
  }

  /** The window always ends with the latest eligible detection. */
  lemma WindowKeepsLast(eligible: seq<Detection>, lengthMs: nat)
    requires eligible != []
    ensures Window(eligible, lengthMs) != []
    ensures Last(Window(eligible, lengthMs)) == Last(eligible)
  {
  }

  /** Nothing is kept from a log that lies wholly before `from`. */
  lemma {:induction false} AtOrAfterEmpty(ds: seq<Detection>, from: int)
    requires forall i :: 0 <= i < |ds| ==> ds[i].time < from
    ensures AtOrAfter(ds, from) == []
  {
    if ds != [] {
      AtOrAfterEmpty(ds[..|ds| - 1], from);
    }
  }

  /** Over a debounced log the window is a trailing run of the eligible detections. */
  lemma {:induction false} AtOrAfterIsSuffix(ds: seq<Detection>, from: int)
    requires Spaced(ds)
    ensures AtOrAfter(ds, from) == ds[|ds| - |AtOrAfter(ds, from)|..]
  {
    if ds != [] {
      var p := ds[..|ds| - 1];
      if Last(ds).time >= from {
        SpacedPrefix(ds, |ds| - 1);
        AtOrAfterIsSuffix(p, from);
        SuffixKeepsLast(ds, from);
      } else {
        SuffixDropsAll(ds, from);
      }
    }
  }

  /** The step of AtOrAfterIsSuffix when the last detection is kept. */
  lemma SuffixKeepsLast(ds: seq<Detection>, from: int)
    requires ds != [] && Last(ds).time >= from
    requires var p := ds[..|ds| - 1]; AtOrAfter(p, from) == p[|p| - |AtOrAfter(p, from)|..]
    ensures AtOrAfter(ds, from) == ds[|ds| - |AtOrAfter(ds, from)|..]
  {
    var p := ds[..|ds| - 1];
    var k := |p| - |AtOrAfter(p, from)|;
    assert AtOrAfter(ds, from) == AtOrAfter(p, from) + [Last(ds)];
    assert ds == p + [Last(ds)];
    TailOfAppend(p, Last(ds), k);
  }

  lemma TailOfAppend(p: seq<Detection>, d: Detection, k: nat)
    requires k <= |p|
    ensures (p + [d])[k..] == p[k..] + [d]
  {
    forall i | 0 <= i < |p| - k + 1 ensures (p + [d])[k..][i] == (p[k..] + [d])[i] {
      if i < |p| - k {
        assert (p + [d])[k + i] == p[k + i];
      }
    }
  }

  /** The step of AtOrAfterIsSuffix when the last detection is cut off: so is every earlier one. */
  lemma SuffixDropsAll(ds: seq<Detection>, from: int)
    requires Spaced(ds)
    requires ds != [] && Last(ds).time < from
    ensures AtOrAfter(ds, from) == []
  {
    forall i | 0 <= i < |ds| ensures ds[i].time < from {
      if i < |ds| - 1 {
        assert ds[i].time + MinIntervalMs <= ds[|ds| - 1].time;
      }
    }
    AtOrAfterEmpty(ds, from);
  }

  /**
   Over a debounced log the window is debounced too, and it spans at most
   `lengthMs`, so it holds at most lengthMs / MinIntervalMs + 1 detections.
   */
  lemma WindowSpan(eligible: seq<Detection>, lengthMs: nat)
    requires eligible != [] && Spaced(eligible)
    ensures Spaced(Window(eligible, lengthMs))
    ensures MinIntervalMs * (|Window(eligible, lengthMs)| - 1) <= lengthMs
  {
    var from := Last(eligible).time - lengthMs;
    var w := AtOrAfter(eligible, from);
    assert w == Window(eligible, lengthMs);
    AtOrAfterIsSuffix(eligible, from);
    var k := |eligible| - |w|;
    assert w == eligible[k..];
    SpacedSuffix(eligible, k);
    WindowKeepsLast(eligible, lengthMs);
    AtOrAfterMembers(eligible, from, w[0]);
    SpacedSpread(w, 0, |w| - 1);
  }

  /**
   The running tally of a window: the labels in the order a JavaScript object
   lists them (order of first insertion) and the count of each. An object
   lists keys that look like array indices ("0", "12") first, in ascending
   order; detector labels such as "C4" or "F#3" never do, so for them the
   order is that of first insertion.
   */
  datatype Tally = Tally(keys: seq<Note>, counts: map<Note, nat>)

  /** `detections.reduce(...)` that counts each label into an object. */
  function TallyOf(ds: seq<Detection>): (t: Tally)
    ensures forall k :: k in t.keys <==> k in t.counts
    ensures ds != [] ==> Last(ds).note in t.keys
  {
    if ds == [] then Tally([], map[])
    else
      var t := TallyOf(ds[..|ds| - 1]);
      var n := Last(ds).note;
      if n in t.counts then Tally(t.keys, t.counts[n := t.counts[n] + 1])
      else Tally(t.keys + [n], t.counts[n := 1])
  }

  /** The tally has a key for exactly the labels of the window, each with its count. */
  lemma {:induction false} TallyOfCounts(ds: seq<Detection>)
    ensures forall n :: n in TallyOf(ds).counts <==> Count(ds, n) > 0
    ensures forall n :: n in TallyOf(ds).counts ==> TallyOf(ds).counts[n] == Count(ds, n)
  {
    if ds != [] {
      var p := ds[..|ds| - 1];
      var d := Last(ds);
      TallyOfCounts(p);
      var t, u := TallyOf(p), TallyOf(ds);
      forall n
        ensures n in u.counts <==> Count(ds, n) > 0
        ensures n in u.counts ==> u.counts[n] == Count(ds, n)
      {
        assert Count(ds, n) == Count(p, n) + (if d.note == n then 1 else 0);
      }
    }
  }

  /** The labels of a tally are listed in the order of their first appearance in `ds`. */
  predicate InFirstSeenOrder(ds: seq<Detection>, keys: seq<Note>) {
    forall i, j :: 0 <= i < j < |keys| ==> FirstSeen(ds, keys[i]) < FirstSeen(ds, keys[j])
  }

  /** The tally lists its labels in the order of their first appearance in the window. */
  lemma {:induction false} TallyOfOrder(ds: seq<Detection>)
    ensures InFirstSeenOrder(ds, TallyOf(ds).keys)
  {
    if ds != [] {
      var p := ds[..|ds| - 1];
      TallyOfOrder(p);
      TallyOfCounts(p);
      var t := TallyOf(p);
      if Last(ds).note !in t.counts {
        OrderWithNewKey(ds);
      } else {
        OrderWithOldKeys(ds);
      }
    }
  }

  /** A label already seen in the prefix is first seen at the same place in the whole. */
  lemma FirstSeenOfPrefix(ds: seq<Detection>, keys: seq<Note>)
    requires ds != []
    requires forall k :: k in keys ==> Count(ds[..|ds| - 1], k) > 0
    ensures forall i :: 0 <= i < |keys| ==>
              FirstSeen(ds, keys[i]) == FirstSeen(ds[..|ds| - 1], keys[i]) < |ds| - 1
  {
    forall i | 0 <= i < |keys| ensures FirstSeen(ds, keys[i]) == FirstSeen(ds[..|ds| - 1], keys[i]) < |ds| - 1 {
      assert keys[i] in keys;
      FirstSeenSound(ds[..|ds| - 1], keys[i]);
    }
  }

  /** The step of TallyOfOrder when the last label is new: it is listed, and first seen, last. */
  lemma OrderWithNewKey(ds: seq<Detection>)
    requires ds != []
    requires var t := TallyOf(ds[..|ds| - 1]);
             && InFirstSeenOrder(ds[..|ds| - 1], t.keys)
             && (forall k :: k in t.counts <==> Count(ds[..|ds| - 1], k) > 0)
             && Last(ds).note !in t.counts
    ensures InFirstSeenOrder(ds, TallyOf(ds).keys)
  {
    var p := ds[..|ds| - 1];
    var t, u := TallyOf(p), TallyOf(ds);
    var n := Last(ds).note;
    FirstSeenOfPrefix(ds, t.keys);
    assert u.keys == t.keys + [n];
    FirstSeenSound(p, n);
    assert FirstSeen(ds, n) == |p|;
    OrderedAppend(ds, t.keys, n);
  }

  /** Keys in first-seen order in the prefix, followed by a label first seen last, are in order. */
  lemma OrderedAppend(ds: seq<Detection>, keys: seq<Note>, n: Note)
    requires ds != []
    requires InFirstSeenOrder(ds[..|ds| - 1], keys)
    requires forall i :: 0 <= i < |keys| ==>
               FirstSeen(ds, keys[i]) == FirstSeen(ds[..|ds| - 1], keys[i]) < |ds| - 1
    requires FirstSeen(ds, n) == |ds| - 1
    ensures InFirstSeenOrder(ds, keys + [n])
  {
    var p := ds[..|ds| - 1];
    var u := keys + [n];
    forall i, j | 0 <= i < j < |u| ensures FirstSeen(ds, u[i]) < FirstSeen(ds, u[j]) {
      assert u[i] == keys[i];
      if j < |keys| {
        assert u[j] == keys[j];
        assert FirstSeen(p, keys[i]) < FirstSeen(p, keys[j]);
      } else {
        assert u[j] == n;
      }
    }
  }

  /** The step of TallyOfOrder when the last label was seen before: the list is unchanged. */
  lemma OrderWithOldKeys(ds: seq<Detection>)
    requires ds != []
    requires var t := TallyOf(ds[..|ds| - 1]);
             && InFirstSeenOrder(ds[..|ds| - 1], t.keys)
             && (forall k :: k in t.counts <==> Count(ds[..|ds| - 1], k) > 0)
             && Last(ds).note in t.counts
    ensures InFirstSeenOrder(ds, TallyOf(ds).keys)
  {
    var p := ds[..|ds| - 1];
    var t, u := TallyOf(p), TallyOf(ds);
    FirstSeenOfPrefix(ds, t.keys);
    assert u.keys == t.keys;
    OrderedKept(ds, t.keys);
  }

  /** Keys in first-seen order in the prefix, all seen there, stay in order in the whole. */
  lemma OrderedKept(ds: seq<Detection>, keys: seq<Note>)
    requires ds != []
    requires InFirstSeenOrder(ds[..|ds| - 1], keys)
    requires forall i :: 0 <= i < |keys| ==>
               FirstSeen(ds, keys[i]) == FirstSeen(ds[..|ds| - 1], keys[i]) < |ds| - 1
    ensures InFirstSeenOrder(ds, keys)
  {
    var p := ds[..|ds| - 1];
    forall i, j | 0 <= i < j < |keys| ensures FirstSeen(ds, keys[i]) < FirstSeen(ds, keys[j]) {
      assert FirstSeen(p, keys[i]) < FirstSeen(p, keys[j]);
    }
  }

  /**
   `keys.reduce((a, b) => counts[a] > counts[b] ? a : b)`, stated on positions:
   the accumulator is kept only when strictly greater, so among the labels of
   highest count the one listed last wins.
   */
  function ModalIndex(keys: seq<Note>, counts: map<Note, nat>): (i: nat)
    requires keys != []
    requires forall k :: k in keys ==> k in counts
    ensures i < |keys|
  {
    if |keys| == 1 then 0
    else
      var a := ModalIndex(keys[..|keys| - 1], counts);
      if counts[keys[a]] > counts[keys[|keys| - 1]] then a else |keys| - 1
  }

  /** The `reduce` picks a key of highest count, and every key listed after it counts strictly less. */
  lemma {:induction false} ModalIndexIsMax(keys: seq<Note>, counts: map<Note, nat>)
    requires keys != []
    requires forall k :: k in keys ==> k in counts
    ensures var i := ModalIndex(keys, counts);
            && (forall j :: 0 <= j < |keys| ==> counts[keys[j]] <= counts[keys[i]])
            && (forall j :: i < j < |keys| ==> counts[keys[j]] < counts[keys[i]])
  {
    if |keys| > 1 {
      var p := keys[..|keys| - 1];
      ModalIndexIsMax(p, counts);
      assert forall j :: 0 <= j < |p| ==> keys[j] == p[j];
    }
  }

  /** `count > total * 0.9`, multiplied out into integers. */
  predicate IsMajority(count: nat, total: nat) {
    10 * count > 9 * total
  }

  /**
   More than 90 % means strictly more: 9 detections of 10 are no majority,
   since `10 * 0.9` is exactly 9 in doubles and `9 > 9` is false.
   */
  lemma NineOfTenIsNoMajority()
    ensures !IsMajority(9, 10) && IsMajority(10, 10) && !IsMajority(90, 100) && IsMajority(91, 100)
  {
  }

  /** `keys.find(note => counts[note] > total * 0.9)`. */
  function FindMajority(keys: seq<Note>, counts: map<Note, nat>, total: nat): (r: Option<Note>)
    requires forall k :: k in keys ==> k in counts
  {
    if keys == [] then None
    else if IsMajority(counts[keys[0]], total) then Some(keys[0])
    else FindMajority(keys[1..], counts, total)
  }

  /** The `find` returns a listed key with a majority, and returns nothing only when no key has one. */
  lemma {:induction false} FindMajoritySound(keys: seq<Note>, counts: map<Note, nat>, total: nat)
    requires forall k :: k in keys ==> k in counts
    ensures var r := FindMajority(keys, counts, total);
            && (r.Some? ==> r.value in keys && IsMajority(counts[r.value], total))
            && (r.None? ==> forall k :: k in keys ==> !IsMajority(counts[k], total))
  {
    if keys != [] && !IsMajority(counts[keys[0]], total) {
      FindMajoritySound(keys[1..], counts, total);
      assert keys == [keys[0]] + keys[1..];
    }
  }

  /** The result of one analysis window. */
  datatype Verdict = Verdict(modalNote: Note, modalNotePercentage: nat, majorityNote: Option<Note>)

  /** A label with more than 90% of a window is the only one, and no other label reaches its count. */
  lemma MajorityDominates(ds: seq<Detection>, m: Note, n: Note)
    requires IsMajority(Count(ds, m), |ds|)
    requires n != m
    ensures Count(ds, n) < Count(ds, m)
    ensures !IsMajority(Count(ds, n), |ds|)
  {
    CountsDisjoint(ds, m, n);
  }

  /** The vote over a non-empty window. */
  function VerdictOf(window: seq<Detection>): Verdict
    requires window != []
  {
    var t := TallyOf(window);
    var m := t.keys[ModalIndex(t.keys, t.counts)];
    Verdict(m, Percentage(t.counts[m], |window|), FindMajority(t.keys, t.counts, |window|))
  }

  /**
   The vote's modal label occurs in the window with the highest count, ties
   going to the label seen first latest; its percentage is the floor of its
   share of the window; the majority label is defined exactly when the modal
   count exceeds 90% of the window, and then it is the modal label.
   */
  lemma VerdictOfSound(window: seq<Detection>)
    requires window != []
    ensures var v := VerdictOf(window);
            && Count(window, v.modalNote) > 0
            && (forall n :: Count(window, n) <= Count(window, v.modalNote))
            && (forall n :: n != v.modalNote && Count(window, n) == Count(window, v.modalNote) ==>
                  FirstSeen(window, n) < FirstSeen(window, v.modalNote))
            && v.modalNotePercentage * |window| <= 100 * Count(window, v.modalNote)
                 < v.modalNotePercentage * |window| + |window|
            && v.modalNotePercentage <= 100
            && (v.modalNotePercentage >= 1 <==> 100 * Count(window, v.modalNote) >= |window|)
            && (v.majorityNote.Some? <==> IsMajority(Count(window, v.modalNote), |window|))
            && (v.majorityNote.Some? ==> v.majorityNote.value == v.modalNote)
  {
    var t := TallyOf(window);
    TallyOfCounts(window);
    var i := ModalIndex(t.keys, t.counts);
    var m := t.keys[i];
    var c := t.counts[m];
    assert c == Count(window, m) && c <= |window|;
    var majority := FindMajority(t.keys, t.counts, |window|);
    assert VerdictOf(window) == Verdict(m, Percentage(c, |window|), majority);
    ModalProperties(window, t, i);
    PercentageBounds(c, |window|);
    MajorityIsModal(window, t, m, majority);
  }

  /** What the modal position of a tally says about the window. */
  lemma ModalProperties(window: seq<Detection>, t: Tally, i: nat)
    requires t == TallyOf(window)
    requires forall k :: k in t.keys ==> k in t.counts
    requires t.keys != [] && i == ModalIndex(t.keys, t.counts)
    ensures forall n :: Count(window, n) <= Count(window, t.keys[i])
    ensures forall n :: n != t.keys[i] && Count(window, n) == Count(window, t.keys[i]) ==>
              FirstSeen(window, n) < FirstSeen(window, t.keys[i])
  {
    ModalIsMax(window, t, i);
    ModalTieBreak(window, t, i);
  }

  /** The modal label's count is the highest of the window. */
  lemma ModalIsMax(window: seq<Detection>, t: Tally, i: nat)
    requires t == TallyOf(window)
    requires forall k :: k in t.keys ==> k in t.counts
    requires t.keys != [] && i == ModalIndex(t.keys, t.counts)
    ensures forall n :: Count(window, n) <= Count(window, t.keys[i])
  {
    var m := t.keys[i];
    TallyOfCounts(window);
    ModalIndexIsMax(t.keys, t.counts);
    forall n | Count(window, n) > 0 ensures Count(window, n) <= Count(window, m) {
      var j :| 0 <= j < |t.keys| && t.keys[j] == n;
      assert t.counts[t.keys[j]] <= t.counts[m];
    }
  }

  /** A label tied with the modal one first appeared earlier in the window. */
  lemma ModalTieBreak(window: seq<Detection>, t: Tally, i: nat)
    requires t == TallyOf(window)
    requires forall k :: k in t.keys ==> k in t.counts
    requires t.keys != [] && i == ModalIndex(t.keys, t.counts)
    ensures forall n :: n != t.keys[i] && Count(window, n) == Count(window, t.keys[i]) ==>
              FirstSeen(window, n) < FirstSeen(window, t.keys[i])
  {
    var m := t.keys[i];
    TallyOfCounts(window);
    assert Count(window, m) > 0;
    forall n | n != m && Count(window, n) == Count(window, m)
      ensures FirstSeen(window, n) < FirstSeen(window, m)
    {
      var j :| 0 <= j < |t.keys| && t.keys[j] == n;
      TieBreakAt(window, t, i, j);
    }
  }

  /** The position form of the tie-break: a tied key listed elsewhere is listed, and seen, earlier. */
  lemma TieBreakAt(window: seq<Detection>, t: Tally, i: nat, j: nat)
    requires t == TallyOf(window)
    requires forall k :: k in t.keys ==> k in t.counts
    requires t.keys != [] && i == ModalIndex(t.keys, t.counts)
    requires j < |t.keys| && j != i && t.counts[t.keys[j]] == t.counts[t.keys[i]]
    ensures FirstSeen(window, t.keys[j]) < FirstSeen(window, t.keys[i])
  {
    ModalIndexIsMax(t.keys, t.counts);
    assert j < i;
    TallyOfOrder(window);
  }

  lemma MulMonotone(a: nat, b: nat, k: nat)
    requires a <= b
    ensures a * k <= b * k
  {
  }

  /** `Math.floor(100 * count / total)` for a non-empty total. */
  function Percentage(count: nat, total: nat): nat
    requires 0 < total
  {
    100 * count / total
  }

  /** The percentage of a count within a non-empty total is the floor of its share and lies in 0..100. */
  lemma PercentageBounds(count: nat, total: nat)
    requires 0 < total && count <= total
    ensures Percentage(count, total) * total <= 100 * count < Percentage(count, total) * total + total
    ensures Percentage(count, total) <= 100
    ensures Percentage(count, total) >= 1 <==> 100 * count >= total
  {
    var x := 100 * count;
    var q := x / total;
    var r := x % total;
    assert x == q * total + r && 0 <= r < total;
    assert (q + 1) * total == q * total + total;
    if q > 100 {
      MulMonotone(101, q, total);
      assert false;
    }
    if q != 0 {
      MulMonotone(1, q, total);
    }
  }

  /** The majority label, when there is one, is the modal label. */
  lemma MajorityIsModal(window: seq<Detection>, t: Tally, m: Note, majority: Option<Note>)
    requires t == TallyOf(window) && m in t.counts
    requires forall n :: Count(window, n) <= Count(window, m)
    requires forall k :: k in t.keys ==> k in t.counts
    requires majority == FindMajority(t.keys, t.counts, |window|)
    ensures majority.Some? <==> IsMajority(Count(window, m), |window|)
    ensures majority.Some? ==> majority.value == m
  {
    TallyOfCounts(window);
    FindMajoritySound(t.keys, t.counts, |window|);
    if majority.Some? {
      var k := majority.value;
      assert IsMajority(Count(window, k), |window|);
      if k != m {
        MajorityDominates(window, k, m);
        assert false;
      }
    } else {
      assert m in t.keys;
      assert !IsMajority(t.counts[m], |window|);
    }
  }

  /** The outcome of one poll. */
  datatype PollResult = Waiting | Ready(verdict: Verdict)

  /** Whether the poll's density floor is met on both the eligible slice and its window. */
  predicate Settled(eligible: seq<Detection>, lengthMs: nat)
    requires lengthMs > 0
  {
    && DensityFloorMet(|eligible|, lengthMs)
    && DensityFloorMet(|Window(eligible, lengthMs)|, lengthMs)
  }

  /** One poll of the live log by a call of `detectHeldNote(lengthMs)`. */
  function Poll(log: seq<Detection>, start: nat, lengthMs: nat): (r: PollResult)
    requires lengthMs > 0
    ensures r.Ready? <==> Settled(Eligible(log, start), lengthMs)
    ensures r.Ready? ==> r.verdict == VerdictOf(Window(Eligible(log, start), lengthMs))
  {
    var eligible := Eligible(log, start);
    if !DensityFloorMet(|eligible|, lengthMs) then Waiting
    else
      var window := Window(eligible, lengthMs);
      if !DensityFloorMet(|window|, lengthMs) then Waiting
      else Ready(VerdictOf(window))
  }

  /**
   `detectHeldNote(lengthMs)` called when the log held `lenAtCall` detections,
   run over the successive states of the live log that its polls observe: it
   resolves with the verdict of the first poll that is ready. The log only
   grows, so each observed state extends `atCall`, the log at call time, and
   the verdict is the vote over the trailing window of the last detection
   before the call followed by everything recorded since.
   */
  method DetectHeldNote(lenAtCall: nat, ghost atCall: seq<Detection>, observed: seq<seq<Detection>>, lengthMs: nat)
    returns (verdict: Option<Verdict>, polls: nat)
    requires lengthMs > 0
    requires lenAtCall == |atCall|
    requires forall k :: 0 <= k < |observed| ==> atCall <= observed[k]
    ensures polls <= |observed|
    ensures forall k :: 0 <= k < polls ==> Poll(observed[k], StartIndex(lenAtCall), lengthMs).Waiting?
    ensures verdict.None? <==> polls == |observed|
    ensures verdict.Some? ==> Poll(observed[polls], StartIndex(lenAtCall), lengthMs) == Ready(verdict.value)
    ensures verdict.Some? ==>
              var since := if atCall == [] then observed[polls] else [Last(atCall)] + observed[polls][|atCall|..];
              verdict.value == VerdictOf(Window(since, lengthMs))
  {
    var start := StartIndex(lenAtCall);
    polls := 0;
    while polls < |observed|
      invariant polls <= |observed|
      invariant forall k :: 0 <= k < polls ==> Poll(observed[k], start, lengthMs).Waiting?
    {
      var outcome := Poll(observed[polls], start, lengthMs);
      if outcome.Ready? {
        EligibleSinceCall(atCall, observed[polls]);
        verdict := Some(outcome.verdict);
        return;
      }
      polls := polls + 1;
    }
    verdict := None;
  }
}
