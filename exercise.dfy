/**
 The major-scale exercise: an endless cycle over a fixed table of target
 notes radiating out from middle C, skipping the targets outside the chosen
 MIDI range, and a retry loop that moves on only when the held-note verdict's
 majority note is the target.
 */
module Exercise {
  import opened Wrappers
  import opened Detections
  import opened HeldNote

  /** One entry of the target table: a note label and its MIDI number. */
  datatype Target = Target(name: Note, midi: int)

  /** EXERCISE_NOTE_ORDER_MAJOR, in its iteration order. */
  const Order: seq<Target> := [
    Target("C4", 60), Target("D4", 62), Target("B3", 59), Target("E4", 64),
    Target("A3", 57), Target("F4", 65), Target("G3", 55), Target("G4", 67),
    Target("F3", 53), Target("A4", 69), Target("E3", 52), Target("B4", 71),
    Target("D3", 50), Target("C3", 48)
  ]

  /**
   `Map.get`: the MIDI number of the first entry with this name, if any. A
   map keeps one value per key; the table's names are all different
   (OrderNamesDistinct), so on it the first entry is the only one.
   */
  function MidiOf(entries: seq<Target>, name: Note): Option<int> {
    if entries == [] then None
    else if entries[0].name == name then Some(entries[0].midi)
    else MidiOf(entries[1..], name)
  }

  /** What `Map.get` answers: a stored entry's number, or nothing when no entry has the name. */
  lemma {:induction false} MidiOfSound(entries: seq<Target>, name: Note)
    ensures MidiOf(entries, name).Some? ==> Target(name, MidiOf(entries, name).value) in entries
    ensures MidiOf(entries, name).None? <==> forall i :: 0 <= i < |entries| ==> entries[i].name != name
  {
    if entries != [] && entries[0].name != name {
      MidiOfSound(entries[1..], name);
      assert entries == [entries[0]] + entries[1..];
    }
  }

  /**
   The bound an optional range end imposes: none when the argument is falsy,
   and none when it names no table entry (a comparison with `undefined` is
   false, so nothing is skipped).
   */
  function Bound(note: Option<Note>): Option<int> {
    if Truthy(note) then MidiOf(Order, note.value) else None
  }

  /** A target is attempted unless it lies below the lower or above the upper bound. */
  predicate InRange(t: Target, lo: Option<int>, hi: Option<int>) {
    !(lo.Some? && t.midi < lo.value) && !(hi.Some? && t.midi > hi.value)
  }

  /** The in-range entries of `s`, in order. */
  function Filtered(s: seq<Target>, lo: Option<int>, hi: Option<int>): (r: seq<Target>)
    ensures |r| <= |s|
    ensures forall i :: 0 <= i < |r| ==> InRange(r[i], lo, hi)
  {
    if s == [] then []
    else Filtered(s[..|s| - 1], lo, hi) + (if InRange(s[|s| - 1], lo, hi) then [s[|s| - 1]] else [])
  }

  /** Every attempted target is a table entry. */
  lemma {:induction false} FilteredMembers(s: seq<Target>, lo: Option<int>, hi: Option<int>, t: Target)
    ensures t in Filtered(s, lo, hi) <==> t in s && InRange(t, lo, hi)
  {
    if s != [] {
      var p := s[..|s| - 1];
      FilteredMembers(p, lo, hi, t);
      assert s == p + [s[|s| - 1]];
    }
  }

  /** One lap of the target cycle: the table entries that are attempted, in table order. */
  function Targets(lo: Option<int>, hi: Option<int>): seq<Target> {
    Filtered(Order, lo, hi)
  }

  /** How many attempted entries of `table` lie before position `c`. */
  function Rank(table: seq<Target>, c: nat, lo: Option<int>, hi: Option<int>): nat
    requires c <= |table|
  {
    |Filtered(table[..c], lo, hi)|
  }

  /** The generator's next position: the cycle starts over after the last entry. */
  function Next(table: seq<Target>, c: nat): (r: nat)
    requires c < |table|
    ensures r < |table|
    ensures r == 0 <==> c == |table| - 1
  {
    if c + 1 == |table| then 0 else c + 1
  }

  /** Filtering a prefix of a table gives a prefix of the filtered table. */
  lemma {:induction false} FilteredPrefix(s: seq<Target>, k: nat, lo: Option<int>, hi: Option<int>)
    requires k <= |s|
    ensures Filtered(s[..k], lo, hi) <= Filtered(s, lo, hi)
  {
    if k < |s| {
      var p := s[..|s| - 1];
      assert s[..k] == p[..k];
      FilteredPrefix(p, k, lo, hi);
    } else {
      assert s[..k] == s;
    }
  }

  /** Passing position `c` raises the rank exactly when the entry there is attempted. */
  lemma RankStep(table: seq<Target>, c: nat, lo: Option<int>, hi: Option<int>)
    requires c < |table|
    ensures Rank(table, c + 1, lo, hi) == Rank(table, c, lo, hi) + (if InRange(table[c], lo, hi) then 1 else 0)
    ensures Filtered(table[..c + 1], lo, hi)
            == Filtered(table[..c], lo, hi) + (if InRange(table[c], lo, hi) then [table[c]] else [])
  {
    assert table[..c + 1][..c] == table[..c];
  }

  /** An attempted entry at position `c` is the attempted target of index Rank(c). */
  lemma RankAt(table: seq<Target>, c: nat, lo: Option<int>, hi: Option<int>)
    requires c < |table| && InRange(table[c], lo, hi)
    ensures Rank(table, c, lo, hi) < |Filtered(table, lo, hi)|
    ensures Filtered(table, lo, hi)[Rank(table, c, lo, hi)] == table[c]
  {
    RankStep(table, c, lo, hi);
    FilteredPrefix(table, c + 1, lo, hi);
    var f := Filtered(table[..c + 1], lo, hi);
    assert f[Rank(table, c, lo, hi)] == table[c];
  }

  /** A full lap covers every attempted target. */
  lemma RankOfLap(table: seq<Target>, lo: Option<int>, hi: Option<int>)
    ensures Filtered(table[..|table|], lo, hi) == Filtered(table, lo, hi)
    ensures Rank(table, |table|, lo, hi) == |Filtered(table, lo, hi)|
  {
    assert table[..|table|] == table;
  }

  /**
   The remainder of `y` divided by `n`, counted by repeated subtraction: the
   position within a lap of the cycle after `y` steps.
   */
  function Residue(y: nat, n: nat): (r: nat)
    requires n > 0
    ensures r < n
    ensures y < n ==> r == y
    decreases y
  {
    if y < n then y else Residue(y - n, n)
  }

  /** One more step moves one place along the lap, starting over after its end. */
  lemma {:induction false} ResidueSucc(y: nat, n: nat)
    requires n > 0
    ensures Residue(y + 1, n) == if Residue(y, n) + 1 == n then 0 else Residue(y, n) + 1
    decreases y
  {
    if y >= n {
      ResidueSucc(y - n, n);
    }
  }

  /** After a whole lap of steps the cycle is back where it was. */
  lemma ResidueLap(y: nat, n: nat)
    requires n > 0
    ensures Residue(y + n, n) == Residue(y, n)
  {
    assert y + n >= n;
  }

  /**
   Moving to the next position, with the wrap-around to the start of the
   table, advances the rank counted modulo one lap.
   */
  lemma RankNext(table: seq<Target>, c: nat, lo: Option<int>, hi: Option<int>)
    requires c < |table| && Filtered(table, lo, hi) != []
    ensures var n := |Filtered(table, lo, hi)|;
            Residue(Rank(table, Next(table, c), lo, hi), n)
            == Residue(Rank(table, c, lo, hi) + (if InRange(table[c], lo, hi) then 1 else 0), n)
  {
    RankNextCases(table, c, lo, hi);
    ResidueOfLap(Rank(table, Next(table, c), lo, hi),
                 Rank(table, c, lo, hi) + (if InRange(table[c], lo, hi) then 1 else 0),
                 |Filtered(table, lo, hi)|);
  }

  /** The rank after a step is one more when the entry counts, and 0 again after a whole lap. */
  lemma RankNextCases(table: seq<Target>, c: nat, lo: Option<int>, hi: Option<int>)
    requires c < |table|
    ensures var r, s := Rank(table, Next(table, c), lo, hi),
                        Rank(table, c, lo, hi) + (if InRange(table[c], lo, hi) then 1 else 0);
            r == s || (r == 0 && s == |Filtered(table, lo, hi)|)
  {
    RankStep(table, c, lo, hi);
    if c + 1 == |table| {
      RankOfLap(table, lo, hi);
      RankOfStart(table, lo, hi);
    }
  }

  /** A count that is either unchanged or a whole lap ahead of 0 has the same residue. */
  lemma ResidueOfLap(r: nat, s: nat, n: nat)
    requires n > 0
    requires r == s || (r == 0 && s == n)
    ensures Residue(r, n) == Residue(s, n)
  {
    if r != s {
      assert Residue(n, n) == Residue(0, n);
    }
  }

  /** No attempted entry lies before the start of the table. */
  lemma RankOfStart(table: seq<Target>, lo: Option<int>, hi: Option<int>)
    ensures Rank(table, 0, lo, hi) == 0
  {
    assert table[..0] == [];
  }

  /** Nine steps of a cycle of eight from its start visit the lap once and then its first target again. */
  lemma LapThenFirst(lap: seq<Target>, steps: seq<Target>)
    requires |lap| == 8 && |steps| == 9
    requires forall k :: 0 <= k < 9 ==> steps[k] == lap[Residue(k, 8)]
    ensures steps == lap + [lap[0]]
  {
    ResidueLap(0, 8);
    forall k | 0 <= k < 9 ensures steps[k] == (lap + [lap[0]])[k] {
    }
  }


  /** The lookup finds a name's number at its first entry. */
  lemma {:induction false} MidiOfFirst(entries: seq<Target>, i: nat)
    requires i < |entries|
    requires forall j :: 0 <= j < i ==> entries[j].name != entries[i].name
    ensures MidiOf(entries, entries[i].name) == Some(entries[i].midi)
  {
    if i > 0 {
      MidiOfFirst(entries[1..], i - 1);
    }
  }

  /** The table names each note once, so walking its entries walks the map's keys. */
  lemma OrderNamesDistinct()
    ensures forall i, j :: 0 <= i < j < |Order| ==> Order[i].name != Order[j].name
  {
  }

  /** G3, the exercise buttons' lower end, is MIDI 55. */
  lemma MidiOfG3()
    ensures MidiOf(Order, "G3") == Some(55)
  {
    OrderNamesDistinct();
    MidiOfFirst(Order, 6);
  }

  /** G4, the exercise buttons' upper end, is MIDI 67. */
  lemma MidiOfG4()
    ensures MidiOf(Order, "G4") == Some(67)
  {
    OrderNamesDistinct();
    MidiOfFirst(Order, 7);
  }

  /** The exercise buttons' range G3..G4 bounds the MIDI numbers to 55..67. */
  lemma BoundsOfG3ToG4()
    ensures Bound(Some("G3")) == Some(55) && Bound(Some("G4")) == Some(67)
  {
    MidiOfG3();
    MidiOfG4();
  }

  /** Filtering keeps a table whose entries are all in range. */
  lemma {:induction false} FilteredAllIn(s: seq<Target>, lo: Option<int>, hi: Option<int>)
    requires forall i :: 0 <= i < |s| ==> InRange(s[i], lo, hi)
    ensures Filtered(s, lo, hi) == s
  {
    if s != [] {
      var p := s[..|s| - 1];
      FilteredAllIn(p, lo, hi);
      assert s == p + [s[|s| - 1]];
    }
  }

  /** Entries past position `k` that are all out of range add nothing to the filter. */
  lemma {:induction false} FilteredDropsTail(s: seq<Target>, k: nat, lo: Option<int>, hi: Option<int>)
    requires k <= |s|
    requires forall i :: k <= i < |s| ==> !InRange(s[i], lo, hi)
    ensures Filtered(s, lo, hi) == Filtered(s[..k], lo, hi)
  {
    if k < |s| {
      var p := s[..|s| - 1];
      assert p[..k] == s[..k];
      FilteredDropsTail(p, k, lo, hi);
    } else {
      assert s[..k] == s;
    }
  }

  /**
   When the generator stops at an in-range entry whose rank agrees with the
   number of targets yielded so far, that entry is the lap's next target, and
   the position after it agrees with one more target yielded.
   */
  lemma FoundTarget(table: seq<Target>, lo: Option<int>, hi: Option<int>, c: nat, y: nat)
    requires c < |table| && InRange(table[c], lo, hi) && Filtered(table, lo, hi) != []
    requires Residue(Rank(table, c, lo, hi), |Filtered(table, lo, hi)|) == Residue(y, |Filtered(table, lo, hi)|)
    ensures var n := |Filtered(table, lo, hi)|;
            && Filtered(table, lo, hi)[Residue(y, n)] == table[c]
            && Residue(Rank(table, Next(table, c), lo, hi), n) == Residue(y + 1, n)
  {
    var n := |Filtered(table, lo, hi)|;
    RankAt(table, c, lo, hi);
    RankNext(table, c, lo, hi);
    ResidueSucc(Rank(table, c, lo, hi), n);
    ResidueSucc(y, n);
  }

  /** The first eight table entries, C4 D4 B3 E4 A3 F4 G3 G4, all lie in 55..67. */
  lemma LapFromG3ToG4Inner()
    ensures Filtered(Order[..8], Some(55), Some(67)) == Order[..8]
  {
    FilteredAllIn(Order[..8], Some(55), Some(67));
  }

  /** With the range G3..G4 one lap is C4 D4 B3 E4 A3 F4 G3 G4: the rest of the table lies outside. */
  lemma TargetsFromG3ToG4()
    ensures Targets(Some(55), Some(67)) == Order[..8]
  {
    var lo, hi := Some(55), Some(67);
    LapFromG3ToG4Inner();
    forall i | 8 <= i < |Order| ensures !InRange(Order[i], lo, hi) {
    }
    FilteredDropsTail(Order, 8, lo, hi);
  }

  /** What the exercise shows or plays during one attempt. */
  datatype Event =
    | PlayNote(midi: int)
    | StopNote
    | ShowHeader(modalNote: Note, modalNotePercentage: nat)
    | ShowCorrect
    | ShowIncorrect
    | ShowTarget(note: Note)

  /** One run of `runExerciseMajor({prompted, minNote, maxNote})`. */
  class ExerciseMajor {
    const prompted: bool
    const lo: Option<int>
    const hi: Option<int>
    /** The table the generator cycles over: EXERCISE_NOTE_ORDER_MAJOR. */
    const table: seq<Target>
    /** The generator's position in the table: the next entry it will produce. */
    var cursor: nat
    /** The target being attempted. */
    var target: Target
    /** How many targets the cycle has yielded so far. */
    ghost var yielded: nat

    /** One lap of the cycle: the attempted entries of the table. */
    function Lap(): seq<Target> {
      Filtered(table, lo, hi)
    }

    /** The target is the next one of the endless cycle over Lap(). */
    ghost predicate Valid()
      reads this
    {
      && Lap() != []
      && cursor < |table|
      && yielded > 0
      && Residue(Rank(table, cursor, lo, hi), |Lap()|) == Residue(yielded, |Lap()|)
      && target == Lap()[Residue(yielded - 1, |Lap()|)]
    }

    /** Starts the exercise on the first attempted target of the cycle. */
    constructor (prompted: bool, minNote: Option<Note>, maxNote: Option<Note>)
      requires Targets(Bound(minNote), Bound(maxNote)) != []
      ensures Valid()
      ensures this.prompted == prompted && lo == Bound(minNote) && hi == Bound(maxNote)
      ensures table == Order && Lap() == Targets(lo, hi)
      ensures yielded == 1 && target == Targets(lo, hi)[0]
    {
      this.prompted := prompted;
      lo := Bound(minNote);
      hi := Bound(maxNote);
      table := Order;
      cursor := 0;
      target := Order[0];
      yielded := 0;
      new;
      assert table[..0] == [];
      Advance();
    }

    /**
     Takes entries from the endless generator until one lies in range; that
     one becomes the target. Out-of-range entries are skipped without an
     attempt.
     */
    method Advance()
      requires Lap() != [] && cursor < |table|
      requires Residue(Rank(table, cursor, lo, hi), |Lap()|) == Residue(yielded, |Lap()|)
      modifies this
      ensures Valid()
      ensures yielded == old(yielded) + 1
      ensures target == Lap()[Residue(old(yielded), |Lap()|)]
      ensures InRange(target, lo, hi)
    {
      var laps := Lap();
      ghost var n := |laps|;
      ghost var y := yielded;
      FilteredMembers(table, lo, hi, laps[0]);
      ghost var g :| 0 <= g < |table| && table[g] == laps[0];
      var c: nat := cursor;
      while !InRange(table[c], lo, hi)
        invariant c < |table|
        invariant Residue(Rank(table, c, lo, hi), n) == Residue(y, n)
        decreases if c <= g then g - c else |table| + g - c
      {
        RankNext(table, c, lo, hi);
        c := Next(table, c);
      }
      FoundTarget(table, lo, hi, c, y);
      target := table[c];
      cursor := Next(table, c);
      yielded := y + 1;
      assert yielded - 1 == y;
    }

    /**
     One pass of the retry loop with the verdict `detectHeldNote(1000)`
     resolved with: the events it produces, and whether the target was held.
     On success the next target of the cycle is chosen; otherwise the same
     target is attempted again.
     */
    method Attempt(verdict: Verdict) returns (events: seq<Event>, correct: bool)
      requires Valid()
      modifies this
      ensures Valid()
      ensures correct <==> verdict.majorityNote == Some(old(target).name)
      ensures events ==
                (if prompted then [PlayNote(old(target).midi), StopNote] else [])
                + [ShowHeader(verdict.modalNote, verdict.modalNotePercentage)]
                + (if correct then [ShowCorrect] else [ShowIncorrect, ShowTarget(old(target).name)])
      ensures correct ==> yielded == old(yielded) + 1 && target == Lap()[Residue(old(yielded), |Lap()|)]
      ensures !correct ==> yielded == old(yielded) && target == old(target) && cursor == old(cursor)
    {
      events := [];
      if prompted {
        events := events + [PlayNote(target.midi), StopNote];
      }
      events := events + [ShowHeader(verdict.modalNote, verdict.modalNotePercentage)];
      correct := verdict.majorityNote == Some(target.name);
      if correct {
        events := events + [ShowCorrect];
        Advance();
      } else {
        events := events + [ShowIncorrect, ShowTarget(target.name)];
      }
    }
  }

  /**
   Answers `n` attempts in a row with the target held: the targets attempted,
   in order, are the next `n` steps of the cycle.
   */
  method HoldTargets(e: ExerciseMajor, n: nat) returns (targets: seq<Target>)
    requires e.Valid()
    modifies e
    ensures e.Valid() && e.yielded == old(e.yielded) + n
    ensures |targets| == n
    ensures forall k :: 0 <= k < n ==> targets[k] == e.Lap()[Residue(old(e.yielded) - 1 + k, |e.Lap()|)]
  {
    targets := [];
    var k := 0;
    while k < n
      invariant 0 <= k <= n && e.Valid() && e.yielded == old(e.yielded) + k && |targets| == k
      invariant forall m :: 0 <= m < k ==> targets[m] == e.Lap()[Residue(old(e.yielded) - 1 + m, |e.Lap()|)]
    {
      var held := e.target;
      var events, correct := e.Attempt(Verdict(held.name, 100, Some(held.name)));
      targets := targets + [held];
      k := k + 1;
    }
  }

  /**
   The exercise buttons' G3..G4 exercise, unprompted: held targets come as
   C4 D4 B3 E4 A3 F4 G3 G4 and then C4 again; a missed attempt retries C4.
   */
  method ButtonsExercise() returns (retried: Target, targets: seq<Target>)
    ensures retried == Target("C4", 60)
    ensures targets == Order[..8] + [Target("C4", 60)]
  {
    BoundsOfG3ToG4();
    TargetsFromG3ToG4();
    var e := new ExerciseMajor(false, Some("G3"), Some("G4"));
    var events, correct := e.Attempt(Verdict("C4", 40, None));
    retried := e.target;
    targets := HoldTargets(e, 9);
    LapThenFirst(e.Lap(), targets);
  }
}
