/**
 * `generateAllValidTimetables` (src/utils/TimeTableGenerator.js): include /
 * exclude backtracking over the selected lectures. One working timetable is
 * changed in place with `push` and `pop`; at every leaf a copy of it is
 * appended to the results.
 *
 * `Enumerate` is the specification the backtracking is proved against. The
 * lemmas then show what the results are: conflict-free timetables, the first
 * one empty, and exactly one per admissible choice of lectures, each chosen
 * lecture contributing all of its slots.
 */
module TimeTableGenerator {
  import opened Wrappers
  import opened Schedule
  import Seqs

  /** One weekly occupation of a lecture. */
  datatype Slot = Slot(day: Day, start: int, end: int)

  /** A lecture as the generator reads it: a name and its slots (`lecture.slots`). */
  datatype Lecture = Lecture(name: string, slots: seq<Slot>)

  /**
   * `canPlaceLecture(timetable, slots)`: every slot fits its own day. The
   * slots are compared with the timetable only, never with one another.
   */
  predicate CanPlaceLecture(w: Week, slots: seq<Slot>)
  {
    forall k {:trigger Fits(w.Get(slots[k].day), slots[k].start, slots[k].end)} :: 0 <= k < |slots| ==>
      Fits(w.Get(slots[k].day), slots[k].start, slots[k].end)
  }

  /**
   * The test in the half-open reading: a lecture can be placed iff none of
   * its slots shares a minute with a block already on that slot's day, so a
   * slot may start exactly where a block ends and end exactly where one
   * starts. A lecture without slots can always be placed.
   */
  lemma CanPlaceLectureIff(w: Week, slots: seq<Slot>)
    ensures CanPlaceLecture(w, slots)
        <==> forall k, i :: 0 <= k < |slots| && 0 <= i < |w.Get(slots[k].day)| ==>
               (slots[k].end <= w.Get(slots[k].day)[i].start || w.Get(slots[k].day)[i].end <= slots[k].start)
    ensures slots == [] ==> CanPlaceLecture(w, slots)
  {
    if !CanPlaceLecture(w, slots) {
      var k :| 0 <= k < |slots| && !Fits(w.Get(slots[k].day), slots[k].start, slots[k].end);
      var i :| 0 <= i < |w.Get(slots[k].day)|
               && Overlaps(slots[k].start, slots[k].end, w.Get(slots[k].day)[i].start, w.Get(slots[k].day)[i].end);
    } else {
      forall k, i | 0 <= k < |slots| && 0 <= i < |w.Get(slots[k].day)|
        ensures slots[k].end <= w.Get(slots[k].day)[i].start || w.Get(slots[k].day)[i].end <= slots[k].start
      {
        assert Fits(w.Get(slots[k].day), slots[k].start, slots[k].end);
      }
    }
  }

  /** The block pushed for a slot: the lecture's name, the slot's times, the colour given. */
  function SlotBlock(name: string, s: Slot, color: string): Block
  {
    Block(name, s.start, s.end, color, None, None)
  }

  /** The blocks pushed on day `d` for `slots`, in slot order. */
  function BlocksOn(name: string, slots: seq<Slot>, d: Day, color: string): (r: seq<Block>)
    ensures |r| <= |slots|
  {
    if slots == [] then []
    else
      BlocksOn(name, slots[..|slots| - 1], d, color)
      + (if slots[|slots| - 1].day == d then [SlotBlock(name, slots[|slots| - 1], color)] else [])
  }

  /** All blocks of one lecture, day by day. */
  function LectureWeek(lec: Lecture, color: string): Week
  {
    Week(BlocksOn(lec.name, lec.slots, Mon, color), BlocksOn(lec.name, lec.slots, Tue, color),
         BlocksOn(lec.name, lec.slots, Wed, color), BlocksOn(lec.name, lec.slots, Thu, color),
         BlocksOn(lec.name, lec.slots, Fri, color))
  }

  lemma LectureWeekGet(lec: Lecture, color: string, d: Day)
    ensures LectureWeek(lec, color).Get(d) == BlocksOn(lec.name, lec.slots, d, color)
  {
  }

  /** The first `k` slots of a lecture, as a lecture. */
  function Prefix(lec: Lecture, k: nat): Lecture
    requires k <= |lec.slots|
  {
    Lecture(lec.name, lec.slots[..k])
  }

  /**
   * The working timetable after the slots of `lec` have been pushed one by
   * one, each onto the end of its own day.
   */
  function Placed(w: Week, lec: Lecture, color: string): Week
    decreases |lec.slots|
  {
    if lec.slots == [] then w
    else
      var p := Placed(w, Prefix(lec, |lec.slots| - 1), color);
      var s := lec.slots[|lec.slots| - 1];
      p.With(s.day, p.Get(s.day) + [SlotBlock(lec.name, s, color)])
  }

  /** Day `d` after placing `lec` is day `d` before it followed by the lecture's blocks on `d`. */
  lemma {:induction false} PlacedGet(w: Week, lec: Lecture, color: string, d: Day)
    ensures Placed(w, lec, color).Get(d) == w.Get(d) + BlocksOn(lec.name, lec.slots, d, color)
    decreases |lec.slots|
  {
    if lec.slots != [] {
      var n := |lec.slots| - 1;
      var s := lec.slots[n];
      var before := BlocksOn(lec.name, lec.slots[..n], d, color);
      var tail := if s.day == d then [SlotBlock(lec.name, s, color)] else [];
      PlacedGet(w, Prefix(lec, n), color, d);
      assert BlocksOn(lec.name, lec.slots, d, color) == before + tail;
      Seqs.AppendAssociative(w.Get(d), before, tail);
    }
  }

  /** Placing a lecture appends, day by day, the blocks of `LectureWeek`. */
  lemma PlacedIsPlus(w: Week, lec: Lecture, color: string)
    ensures Placed(w, lec, color) == w.Plus(LectureWeek(lec, color))
  {
    forall d ensures Placed(w, lec, color).Get(d) == w.Plus(LectureWeek(lec, color)).Get(d) {
      PlacedGet(w, lec, color, d);
      LectureWeekGet(lec, color, d);
      PlusGet(w, LectureWeek(lec, color), d);
    }
    WeekExt(Placed(w, lec, color), w.Plus(LectureWeek(lec, color)));
  }

  /**
   * The results of `backtrack(i, w)`, in the order they are appended: first
   * every result without lecture `i`, then, when it fits, every result with it.
   */
  function Enumerate(lectures: seq<Lecture>, i: nat, w: Week, color: string): seq<Week>
    requires i <= |lectures|
    decreases |lectures| - i
  {
    if i == |lectures| then [w]
    else
      Enumerate(lectures, i + 1, w, color)
      + (if CanPlaceLecture(w, lectures[i].slots)
         then Enumerate(lectures, i + 1, Placed(w, lectures[i], color), color)
         else [])
  }

  /** One step of `Enumerate`: the results without lecture `i`, then those with it. */
  lemma EnumerateUnfold(lectures: seq<Lecture>, i: nat, w: Week, color: string)
    requires i < |lectures|
    ensures Enumerate(lectures, i, w, color)
         == Enumerate(lectures, i + 1, w, color)
            + (if CanPlaceLecture(w, lectures[i].slots)
               then Enumerate(lectures, i + 1, Placed(w, lectures[i], color), color)
               else [])
  {
  }

  /** `Array.prototype.pop` on a day list: the last block goes; an empty list stays empty. */
  function Pop(s: seq<Block>): seq<Block>
  {
    if s == [] then [] else s[..|s| - 1]
  }

  lemma {:induction false} BlocksOnStep(name: string, slots: seq<Slot>, k: nat, d: Day, color: string)
    requires k < |slots|
    ensures BlocksOn(name, slots[..k + 1], d, color)
         == BlocksOn(name, slots[..k], d, color)
            + (if slots[k].day == d then [SlotBlock(name, slots[k], color)] else [])
  {
    assert slots[..k + 1][..k] == slots[..k];
  }

  lemma {:induction false} BlocksOnPrefixLength(name: string, slots: seq<Slot>, k: nat, d: Day, color: string)
    requires k <= |slots|
    ensures |BlocksOn(name, slots[..k], d, color)| <= |BlocksOn(name, slots, d, color)|
    decreases |slots| - k
  {
    if k < |slots| {
      BlocksOnStep(name, slots, k, d, color);
      BlocksOnPrefixLength(name, slots, k + 1, d, color);
    } else {
      assert slots[..k] == slots;
    }
  }

  /** Pushing slot `k` extends the timetable of the first `k` slots by one block on that slot's day. */
  lemma PlacedPush(w: Week, lec: Lecture, k: nat, color: string)
    requires k < |lec.slots|
    ensures var p := Placed(w, Prefix(lec, k), color);
            var s := lec.slots[k];
            Placed(w, Prefix(lec, k + 1), color) == p.With(s.day, p.Get(s.day) + [SlotBlock(lec.name, s, color)])
  {
    assert Prefix(Prefix(lec, k + 1), k) == Prefix(lec, k);
  }

  lemma PlacedPrefixes(w: Week, lec: Lecture, color: string)
    ensures Placed(w, Prefix(lec, 0), color) == w
    ensures Placed(w, Prefix(lec, |lec.slots|), color) == Placed(w, lec, color)
  {
    assert Prefix(lec, |lec.slots|) == lec;
  }

  /**
   * Day `d` after the first `k` slots of `lec` have been popped again: the
   * placed list loses one block from its end per popped slot on that day.
   */
  ghost function Unpopped(base: Week, lec: Lecture, k: nat, d: Day, color: string): seq<Block>
    requires k <= |lec.slots|
  {
    var full := base.Get(d) + BlocksOn(lec.name, lec.slots, d, color);
    BlocksOnPrefixLength(lec.name, lec.slots, k, d, color);
    full[..|full| - |BlocksOn(lec.name, lec.slots[..k], d, color)|]
  }

  ghost function PoppedWeek(base: Week, lec: Lecture, k: nat, color: string): Week
    requires k <= |lec.slots|
  {
    Week(Unpopped(base, lec, k, Mon, color), Unpopped(base, lec, k, Tue, color), Unpopped(base, lec, k, Wed, color),
         Unpopped(base, lec, k, Thu, color), Unpopped(base, lec, k, Fri, color))
  }

  lemma PoppedWeekGet(base: Week, lec: Lecture, k: nat, color: string, d: Day)
    requires k <= |lec.slots|
    ensures PoppedWeek(base, lec, k, color).Get(d) == Unpopped(base, lec, k, d, color)
  {
  }

  /** Popping for slot `k` removes the last block of that slot's day. */
  lemma PoppedPop(base: Week, lec: Lecture, k: nat, color: string)
    requires k < |lec.slots|
    ensures var p := PoppedWeek(base, lec, k, color);
            var s := lec.slots[k];
            PoppedWeek(base, lec, k + 1, color) == p.With(s.day, Pop(p.Get(s.day)))
  {
    var p := PoppedWeek(base, lec, k, color);
    var s := lec.slots[k];
    var q := p.With(s.day, Pop(p.Get(s.day)));
    forall d ensures PoppedWeek(base, lec, k + 1, color).Get(d) == q.Get(d) {
      PoppedWeekGet(base, lec, k + 1, color, d);
      PoppedWeekGet(base, lec, k, color, d);
      UnpoppedStep(base, lec, k, d, color);
    }
    WeekExt(PoppedWeek(base, lec, k + 1, color), q);
  }

  /** Popping for slot `k` shortens that slot's day by one block and leaves the other days alone. */
  lemma UnpoppedStep(base: Week, lec: Lecture, k: nat, d: Day, color: string)
    requires k < |lec.slots|
    ensures Unpopped(base, lec, k + 1, d, color)
         == if lec.slots[k].day == d then Pop(Unpopped(base, lec, k, d, color)) else Unpopped(base, lec, k, d, color)
  {
    BlocksOnStep(lec.name, lec.slots, k, d, color);
    BlocksOnPrefixLength(lec.name, lec.slots, k + 1, d, color);
  }

  /** Nothing popped yet is the placed timetable; everything popped is the base again. */
  lemma PoppedEnds(base: Week, lec: Lecture, color: string)
    ensures PoppedWeek(base, lec, 0, color) == Placed(base, lec, color)
    ensures PoppedWeek(base, lec, |lec.slots|, color) == base
  {
    forall d ensures PoppedWeek(base, lec, 0, color).Get(d) == Placed(base, lec, color).Get(d)
               && PoppedWeek(base, lec, |lec.slots|, color).Get(d) == base.Get(d)
    {
      PoppedWeekGet(base, lec, 0, color, d);
      PoppedWeekGet(base, lec, |lec.slots|, color, d);
      PlacedGet(base, lec, color, d);
      assert lec.slots[..|lec.slots|] == lec.slots;
    }
    WeekExt(PoppedWeek(base, lec, 0, color), Placed(base, lec, color));
    WeekExt(PoppedWeek(base, lec, |lec.slots|, color), base);
  }

  /** The mutable state of one `generateAllValidTimetables` call. */
  class Workspace {
    /** The shared working timetable that `backtrack` pushes to and pops from. */
    var timetable: Week
    /** The snapshots collected so far. */
    var results: seq<Week>

    /** `const init = { mon: [], ..., fri: [] }` and `const results = []`. */
    constructor ()
      ensures timetable == Empty && results == []
    {
      timetable := Empty;
      results := [];
    }

    /** `lecture.slots.forEach(slot => timetable[slot.day].push(...))`. */
    method PushSlots(lecture: Lecture, color: string)
      modifies this
      ensures timetable == Placed(old(timetable), lecture, color)
      ensures results == old(results)
    {
      ghost var base := timetable;
      PlacedPrefixes(base, lecture, color);
      var k := 0;
      while k < |lecture.slots|
        invariant 0 <= k <= |lecture.slots|
        invariant timetable == Placed(base, Prefix(lecture, k), color)
        invariant results == old(results)
      {
        var slot := lecture.slots[k];
        PlacedPush(base, lecture, k, color);
        timetable := timetable.With(slot.day, timetable.Get(slot.day) + [SlotBlock(lecture.name, slot, color)]);
        k := k + 1;
      }
    }

    /**
     * `lecture.slots.forEach(slot => timetable[slot.day].pop())`: undoes
     * `PushSlots` exactly, since each day loses as many blocks from its end as
     * were pushed onto it.
     */
    method PopSlots(lecture: Lecture, ghost base: Week, color: string)
      requires timetable == Placed(base, lecture, color)
      modifies this
      ensures timetable == base
      ensures results == old(results)
    {
      PoppedEnds(base, lecture, color);
      var k := 0;
      while k < |lecture.slots|
        invariant 0 <= k <= |lecture.slots|
        invariant timetable == PoppedWeek(base, lecture, k, color)
        invariant results == old(results)
      {
        var slot := lecture.slots[k];
        PoppedPop(base, lecture, k, color);
        timetable := timetable.With(slot.day, Pop(timetable.Get(slot.day)));
        k := k + 1;
      }
    }

    /**
     * `backtrack(index, timetable)`: appends the results of `Enumerate` and
     * leaves the working timetable as it found it. Earlier results are kept
     * as they were: they are values, not views of the working timetable.
     */
    method Backtrack(lectures: seq<Lecture>, index: nat, color: string)
      requires index <= |lectures|
      modifies this
      ensures timetable == old(timetable)
      ensures results == old(results) + Enumerate(lectures, index, old(timetable), color)
      decreases |lectures| - index
    {
      if index == |lectures| {
        results := results + [timetable];
        return;
      }
      var lecture := lectures[index];
      ghost var w := timetable;
      ghost var r0 := results;
      ghost var e0 := Enumerate(lectures, index + 1, w, color);
      ghost var e1 := Enumerate(lectures, index + 1, Placed(w, lecture, color), color);
      EnumerateUnfold(lectures, index, w, color);
      Backtrack(lectures, index + 1, color);
      assert results == r0 + e0;
      if CanPlaceLecture(timetable, lecture.slots) {
        PushSlots(lecture, color);
        Backtrack(lectures, index + 1, color);
        assert results == r0 + e0 + e1;
        PopSlots(lecture, w, color);
        Seqs.AppendAssociative(r0, e0, e1);
      } else {
        assert e0 == e0 + [];
      }
    }
  }

  /** Every lecture's own slots are pairwise disjoint on a shared day. */
  predicate SlotsDisjoint(slots: seq<Slot>)
  {
    forall a, b :: 0 <= a < b < |slots| && slots[a].day == slots[b].day ==>
      !Overlaps(slots[a].start, slots[a].end, slots[b].start, slots[b].end)
  }

  /**
   * `generateAllValidTimetables(lectures)`. Every block gets the colour
   * `color`, where the source draws a random one per block.
   */
  method GenerateAllValidTimetables(lectures: seq<Lecture>, color: string) returns (results: seq<Week>)
    ensures results == Enumerate(lectures, 0, Empty, color)
    ensures |results| >= 1 && results[0] == Empty
    ensures (forall k :: 0 <= k < |lectures| ==> SlotsDisjoint(lectures[k].slots)) ==>
              forall r :: r in results ==> ConflictFree(r)
  {
    var ws := new Workspace();
    ws.Backtrack(lectures, 0, color);
    results := ws.results;
    EnumerateFirst(lectures, 0, Empty, color);
    if forall k :: 0 <= k < |lectures| ==> SlotsDisjoint(lectures[k].slots) {
      EnumerateConflictFree(lectures, 0, Empty, color);
    }
  }

  // ---------------------------------------------------------------------
  // What the results are

  /** The exclude branch runs first: the first result is the timetable the call started from. */
  lemma {:induction false} EnumerateFirst(lectures: seq<Lecture>, i: nat, w: Week, color: string)
    requires i <= |lectures|
    ensures |Enumerate(lectures, i, w, color)| >= 1
    ensures Enumerate(lectures, i, w, color)[0] == w
    decreases |lectures| - i
  {
    if i < |lectures| {
      var e0 := Enumerate(lectures, i + 1, w, color);
      var e1 := Enumerate(lectures, i + 1, Placed(w, lectures[i], color), color);
      EnumerateUnfold(lectures, i, w, color);
      EnumerateFirst(lectures, i + 1, w, color);
    }
  }

  function Pow2(k: nat): (r: nat)
    ensures r >= 1
  {
    if k == 0 then 1 else 2 * Pow2(k - 1)
  }

  /** At most two results per lecture: at most `2^n` in all. */
  lemma {:induction false} EnumerateBound(lectures: seq<Lecture>, i: nat, w: Week, color: string)
    requires i <= |lectures|
    ensures |Enumerate(lectures, i, w, color)| <= Pow2(|lectures| - i)
    decreases |lectures| - i
  {
    if i < |lectures| {
      var w1 := Placed(w, lectures[i], color);
      var e0 := Enumerate(lectures, i + 1, w, color);
      var e1 := Enumerate(lectures, i + 1, w1, color);
      EnumerateUnfold(lectures, i, w, color);
      EnumerateBound(lectures, i + 1, w, color);
      EnumerateBound(lectures, i + 1, w1, color);
    }
  }

  /** Whether `[start, end)` fits among a lecture's blocks is decided by its slots on that day. */
  lemma {:induction false} FitsBlocksOn(name: string, slots: seq<Slot>, d: Day, color: string, start: int, end: int)
    ensures Fits(BlocksOn(name, slots, d, color), start, end)
        <==> forall a :: 0 <= a < |slots| && slots[a].day == d ==> !Overlaps(start, end, slots[a].start, slots[a].end)
  {
    if slots != [] {
      var init := slots[..|slots| - 1];
      var last := slots[|slots| - 1];
      var tail := if last.day == d then [SlotBlock(name, last, color)] else [];
      FitsBlocksOn(name, init, d, color, start, end);
      FitsAppend(BlocksOn(name, init, d, color), tail, start, end);
      assert Fits(tail, start, end) <==> (last.day == d ==> !Overlaps(start, end, last.start, last.end)) by {
        if last.day == d {
          assert tail[0] == SlotBlock(name, last, color);
        }
      }
      assert forall a :: 0 <= a < |init| ==> init[a] == slots[a];
    }
  }

  /** Placing a fitting lecture whose slots are disjoint keeps every day conflict-free. */
  lemma {:induction false} PlaceDayConflictFree(base: seq<Block>, name: string, slots: seq<Slot>, d: Day, color: string)
    requires DayConflictFree(base)
    requires forall k :: 0 <= k < |slots| && slots[k].day == d ==> Fits(base, slots[k].start, slots[k].end)
    requires SlotsDisjoint(slots)
    ensures DayConflictFree(base + BlocksOn(name, slots, d, color))
  {
    if slots != [] {
      var init := slots[..|slots| - 1];
      var last := slots[|slots| - 1];
      assert forall a :: 0 <= a < |init| ==> init[a] == slots[a];
      PlaceDayConflictFree(base, name, init, d, color);
      var before := base + BlocksOn(name, init, d, color);
      if last.day == d {
        FitsBlocksOn(name, init, d, color, last.start, last.end);
        FitsAppend(base, BlocksOn(name, init, d, color), last.start, last.end);
        DayConflictFreeAppend(before, SlotBlock(name, last, color));
        assert base + BlocksOn(name, slots, d, color) == before + [SlotBlock(name, last, color)];
      } else {
        assert base + BlocksOn(name, slots, d, color) == before;
      }
    }
  }

  lemma PlacedConflictFree(w: Week, lec: Lecture, color: string)
    requires ConflictFree(w) && CanPlaceLecture(w, lec.slots) && SlotsDisjoint(lec.slots)
    ensures ConflictFree(Placed(w, lec, color))
  {
    forall d ensures DayConflictFree(Placed(w, lec, color).Get(d)) {
      PlacedGet(w, lec, color, d);
      forall k | 0 <= k < |lec.slots| && lec.slots[k].day == d
        ensures Fits(w.Get(d), lec.slots[k].start, lec.slots[k].end)
      {
        assert Fits(w.Get(lec.slots[k].day), lec.slots[k].start, lec.slots[k].end);
      }
      PlaceDayConflictFree(w.Get(d), lec.name, lec.slots, d, color);
    }
  }

  /** No result has two overlapping blocks on one day, provided no lecture overlaps itself. */
  lemma {:induction false} EnumerateConflictFree(lectures: seq<Lecture>, i: nat, w: Week, color: string)
    requires i <= |lectures|
    requires ConflictFree(w)
    requires forall k :: i <= k < |lectures| ==> SlotsDisjoint(lectures[k].slots)
    ensures forall r :: r in Enumerate(lectures, i, w, color) ==> ConflictFree(r)
    decreases |lectures| - i
  {
    if i < |lectures| {
      var w1 := Placed(w, lectures[i], color);
      var e0 := Enumerate(lectures, i + 1, w, color);
      var e1 := Enumerate(lectures, i + 1, w1, color);
      EnumerateUnfold(lectures, i, w, color);
      EnumerateConflictFree(lectures, i + 1, w, color);
      if CanPlaceLecture(w, lectures[i].slots) {
        PlacedConflictFree(w, lectures[i], color);
        EnumerateConflictFree(lectures, i + 1, w1, color);
      }
    }
  }

  /**
   * The check never compares a lecture's slots with each other: a lecture
   * whose two slots coincide is placed, and the result has an overlap.
   */
  lemma SelfOverlapNotChecked()
    ensures var lec := Lecture("A", [Slot(Mon, 540, 600), Slot(Mon, 540, 600)]);
            CanPlaceLecture(Empty, lec.slots) && !ConflictFree(Placed(Empty, lec, "c"))
  {
    var s := Slot(Mon, 540, 600);
    var lec := Lecture("A", [s, s]);
    var b := SlotBlock("A", s, "c");
    forall k | 0 <= k < 2 ensures Fits(Empty.Get(lec.slots[k].day), lec.slots[k].start, lec.slots[k].end) {
    }
    assert [s, s][..1] == [s];
    assert [s][..0] == [];
    assert BlocksOn("A", [s], Mon, "c") == [b];
    assert BlocksOn("A", [s, s], Mon, "c") == [b, b];
    PlacedGet(Empty, lec, "c", Mon);
    var day := Placed(Empty, lec, "c").Get(Mon);
    assert day == [b, b];
    assert Overlaps(day[0].start, day[0].end, day[1].start, day[1].end);
  }

  // ---------------------------------------------------------------------
  // Results and choices of lectures

  /** No slot of `x` overlaps a slot of `lec` on the same day. */
  predicate Compatible(lec: Lecture, x: Lecture)
  {
    forall b, a :: 0 <= b < |x.slots| && 0 <= a < |lec.slots| && lec.slots[a].day == x.slots[b].day ==>
      !Overlaps(x.slots[b].start, x.slots[b].end, lec.slots[a].start, lec.slots[a].end)
  }

  /** A lecture fits after `lec` has been placed iff it fits before and does not clash with `lec`. */
  lemma PlacedFits(w: Week, lec: Lecture, x: Lecture, color: string)
    ensures CanPlaceLecture(Placed(w, lec, color), x.slots)
        <==> CanPlaceLecture(w, x.slots) && Compatible(lec, x)
  {
    var w1 := Placed(w, lec, color);
    forall b | 0 <= b < |x.slots|
      ensures Fits(w1.Get(x.slots[b].day), x.slots[b].start, x.slots[b].end)
          <==> Fits(w.Get(x.slots[b].day), x.slots[b].start, x.slots[b].end)
               && forall a :: 0 <= a < |lec.slots| && lec.slots[a].day == x.slots[b].day ==>
                    !Overlaps(x.slots[b].start, x.slots[b].end, lec.slots[a].start, lec.slots[a].end)
    {
      var s := x.slots[b];
      PlacedGet(w, lec, color, s.day);
      FitsAppend(w.Get(s.day), BlocksOn(lec.name, lec.slots, s.day, color), s.start, s.end);
      FitsBlocksOn(lec.name, lec.slots, s.day, color, s.start, s.end);
    }
  }

  /** Placing a lecture that clashes with none of the later ones leaves them all placeable. */
  lemma AllFitAfterPlacing(lectures: seq<Lecture>, i: nat, w: Week, color: string)
    requires i < |lectures|
    requires forall k :: i < k < |lectures| ==> CanPlaceLecture(w, lectures[k].slots)
    requires forall k :: i < k < |lectures| ==> Compatible(lectures[i], lectures[k])
    ensures forall k :: i < k < |lectures| ==> CanPlaceLecture(Placed(w, lectures[i], color), lectures[k].slots)
  {
    forall k | i < k < |lectures| ensures CanPlaceLecture(Placed(w, lectures[i], color), lectures[k].slots) {
      PlacedFits(w, lectures[i], lectures[k], color);
    }
  }

  /** When every lecture fits and no two clash, there are exactly `2^n` results. */
  lemma {:induction false} EnumerateCountAllCompatible(lectures: seq<Lecture>, i: nat, w: Week, color: string)
    requires i <= |lectures|
    requires forall k :: i <= k < |lectures| ==> CanPlaceLecture(w, lectures[k].slots)
    requires forall k, k' :: i <= k < k' < |lectures| ==> Compatible(lectures[k], lectures[k'])
    ensures |Enumerate(lectures, i, w, color)| == Pow2(|lectures| - i)
    decreases |lectures| - i
  {
    if i < |lectures| {
      var w1 := Placed(w, lectures[i], color);
      var e0 := Enumerate(lectures, i + 1, w, color);
      var e1 := Enumerate(lectures, i + 1, w1, color);
      assert CanPlaceLecture(w, lectures[i].slots);
      EnumerateUnfold(lectures, i, w, color);
      EnumerateCountAllCompatible(lectures, i + 1, w, color);
      AllFitAfterPlacing(lectures, i, w, color);
      EnumerateCountAllCompatible(lectures, i + 1, w1, color);
    }
  }

  function PrependAll(b: bool, ms: seq<seq<bool>>): (r: seq<seq<bool>>)
    ensures |r| == |ms| && forall t :: 0 <= t < |ms| ==> r[t] == [b] + ms[t]
  {
    seq(|ms|, t requires 0 <= t < |ms| => [b] + ms[t])
  }

  /** `m` is in `PrependAll(b, ms)` iff it starts with `b` and goes on with a member of `ms`. */
  lemma InPrependAll(b: bool, ms: seq<seq<bool>>, m: seq<bool>)
    ensures m in PrependAll(b, ms) <==> m != [] && m[0] == b && m[1..] in ms
  {
    var r := PrependAll(b, ms);
    if m in r {
      var t :| 0 <= t < |r| && r[t] == m;
      assert m[1..] == ms[t];
    }
    if m != [] && m[0] == b && m[1..] in ms {
      var t :| 0 <= t < |ms| && ms[t] == m[1..];
      assert r[t] == m;
    }
  }

  /**
   * The choices behind the results, in the same order: `m[k]` says whether
   * lecture `i + k` was taken.
   */
  function Masks(lectures: seq<Lecture>, i: nat, w: Week, color: string): seq<seq<bool>>
    requires i <= |lectures|
    decreases |lectures| - i
  {
    if i == |lectures| then [[]]
    else
      PrependAll(false, Masks(lectures, i + 1, w, color))
      + (if CanPlaceLecture(w, lectures[i].slots)
         then PrependAll(true, Masks(lectures, i + 1, Placed(w, lectures[i], color), color))
         else [])
  }

  /** The blocks of the chosen lectures, day by day, in lecture order. */
  function Gather(lectures: seq<Lecture>, i: nat, m: seq<bool>, color: string): Week
    requires i + |m| <= |lectures|
    decreases |m|
  {
    if m == [] then Empty
    else (if m[0] then LectureWeek(lectures[i], color) else Empty).Plus(Gather(lectures, i + 1, m[1..], color))
  }

  /** Each result is `w` followed by the lectures its choice takes. */
  predicate ResultsMatch(lectures: seq<Lecture>, i: nat, w: Week, color: string, e: seq<Week>, m: seq<seq<bool>>)
    requires i <= |lectures|
  {
    && |e| == |m|
    && forall j :: 0 <= j < |m| ==>
         |m[j]| == |lectures| - i && e[j] == w.Plus(Gather(lectures, i, m[j], color))
  }

  /** The step of `EnumerateByMasks`, stated on the two halves alone. */
  lemma ResultsMatchStep(lectures: seq<Lecture>, i: nat, w: Week, color: string,
                         e0: seq<Week>, m0: seq<seq<bool>>, e1: seq<Week>, m1: seq<seq<bool>>, c: bool)
    requires i < |lectures|
    requires ResultsMatch(lectures, i + 1, w, color, e0, m0)
    requires c ==> ResultsMatch(lectures, i + 1, Placed(w, lectures[i], color), color, e1, m1)
    ensures ResultsMatch(lectures, i, w, color,
                         e0 + (if c then e1 else []),
                         PrependAll(false, m0) + (if c then PrependAll(true, m1) else []))
  {
    var e := e0 + (if c then e1 else []);
    var m := PrependAll(false, m0) + (if c then PrependAll(true, m1) else []);
    forall t | 0 <= t < |m|
      ensures |m[t]| == |lectures| - i && e[t] == w.Plus(Gather(lectures, i, m[t], color))
    {
      if t < |m0| {
        assert m[t] == [false] + m0[t];
        assert m[t][1..] == m0[t];
        assert e[t] == e0[t];
        PlusEmpty(Gather(lectures, i + 1, m0[t], color));
      } else {
        var u := t - |m0|;
        assert m[t] == [true] + m1[u];
        assert m[t][1..] == m1[u];
        assert e[t] == e1[u];
        PlacedIsPlus(w, lectures[i], color);
        PlusAssociative(w, LectureWeek(lectures[i], color), Gather(lectures, i + 1, m1[u], color));
      }
    }
  }

  /**
   * Result `t` is the starting timetable followed, on every day, by all the
   * blocks of exactly the lectures that choice `t` takes, in lecture order:
   * a lecture is placed with all its slots or not at all.
   */
  lemma {:induction false} EnumerateByMasks(lectures: seq<Lecture>, i: nat, w: Week, color: string)
    requires i <= |lectures|
    ensures ResultsMatch(lectures, i, w, color, Enumerate(lectures, i, w, color), Masks(lectures, i, w, color))
    decreases |lectures| - i
  {
    if i == |lectures| {
      PlusEmpty(w);
    } else {
      var w1 := Placed(w, lectures[i], color);
      var c := CanPlaceLecture(w, lectures[i].slots);
      var e0 := Enumerate(lectures, i + 1, w, color);
      var e1 := Enumerate(lectures, i + 1, w1, color);
      var m0 := Masks(lectures, i + 1, w, color);
      var m1 := Masks(lectures, i + 1, w1, color);
      assert Enumerate(lectures, i, w, color) == e0 + (if c then e1 else []);
      assert Masks(lectures, i, w, color) == PrependAll(false, m0) + (if c then PrependAll(true, m1) else []);
      EnumerateByMasks(lectures, i + 1, w, color);
      EnumerateByMasks(lectures, i + 1, w1, color);
      ResultsMatchStep(lectures, i, w, color, e0, m0, e1, m1, c);
    }
  }

  /** Two lists of distinct choices, one starting with `false` and one with `true`, stay distinct. */
  lemma PrependNoDuplicates(m0: seq<seq<bool>>, m1: seq<seq<bool>>, c: bool)
    requires Seqs.NoDuplicates(m0) && Seqs.NoDuplicates(m1)
    ensures Seqs.NoDuplicates(PrependAll(false, m0) + (if c then PrependAll(true, m1) else []))
  {
    var m := PrependAll(false, m0) + (if c then PrependAll(true, m1) else []);
    forall s, t | 0 <= s < t < |m| ensures m[s] != m[t] {
      if t < |m0| {
        assert m[s][1..] == m0[s] && m[t][1..] == m0[t];
      } else if s >= |m0| {
        assert m[s][1..] == m1[s - |m0|] && m[t][1..] == m1[t - |m0|];
      } else {
        assert m[s][0] != m[t][0];
      }
    }
  }

  lemma {:induction false} MasksNoDuplicates(lectures: seq<Lecture>, i: nat, w: Week, color: string)
    requires i <= |lectures|
    ensures Seqs.NoDuplicates(Masks(lectures, i, w, color))
    decreases |lectures| - i
  {
    if i < |lectures| {
      var w1 := Placed(w, lectures[i], color);
      var c := CanPlaceLecture(w, lectures[i].slots);
      var m0 := Masks(lectures, i + 1, w, color);
      var m1 := Masks(lectures, i + 1, w1, color);
      assert Masks(lectures, i, w, color) == PrependAll(false, m0) + (if c then PrependAll(true, m1) else []);
      MasksNoDuplicates(lectures, i + 1, w, color);
      MasksNoDuplicates(lectures, i + 1, w1, color);
      PrependNoDuplicates(m0, m1, c);
    }
  }

  /**
   * A choice is admissible from `w` when every chosen lecture fits `w` and
   * no two chosen lectures clash.
   */
  predicate Admissible(lectures: seq<Lecture>, i: nat, w: Week, m: seq<bool>)
    requires i + |m| <= |lectures|
  {
    && (forall k :: 0 <= k < |m| && m[k] ==> CanPlaceLecture(w, lectures[i + k].slots))
    && (forall k, k' :: 0 <= k < k' < |m| && m[k] && m[k'] ==> Compatible(lectures[i + k], lectures[i + k']))
  }

  /** Leaving lecture `i` out: admissibility is that of the rest. */
  lemma AdmissibleSkip(lectures: seq<Lecture>, i: nat, w: Week, m: seq<bool>)
    requires i + |m| <= |lectures| && m != [] && !m[0]
    ensures Admissible(lectures, i, w, m) <==> Admissible(lectures, i + 1, w, m[1..])
  {
    var tail := m[1..];
    forall k | 0 <= k < |tail| ensures tail[k] == m[k + 1] && lectures[i + 1 + k] == lectures[i + (k + 1)] {
    }
    if Admissible(lectures, i + 1, w, tail) {
      forall k | 0 <= k < |m| && m[k] ensures CanPlaceLecture(w, lectures[i + k].slots) {
        assert tail[k - 1];
      }
      forall k, k' | 0 <= k < k' < |m| && m[k] && m[k'] ensures Compatible(lectures[i + k], lectures[i + k']) {
        assert tail[k - 1] && tail[k' - 1];
      }
    }
  }

  lemma AdmissibleTakeRest(lectures: seq<Lecture>, i: nat, w: Week, w1: Week, m: seq<bool>)
    requires i + |m| <= |lectures| && m != [] && m[0]
    requires forall k :: i < k < |lectures| ==>
               (CanPlaceLecture(w1, lectures[k].slots)
                <==> CanPlaceLecture(w, lectures[k].slots) && Compatible(lectures[i], lectures[k]))
    requires Admissible(lectures, i, w, m)
    ensures Admissible(lectures, i + 1, w1, m[1..])
  {
    var tail := m[1..];
    forall k | 0 <= k < |tail| && tail[k] ensures CanPlaceLecture(w1, lectures[i + 1 + k].slots) {
      assert m[k + 1] && lectures[i + 1 + k] == lectures[i + (k + 1)];
      assert Compatible(lectures[i + 0], lectures[i + (k + 1)]);
    }
    forall k, k' | 0 <= k < k' < |tail| && tail[k] && tail[k']
      ensures Compatible(lectures[i + 1 + k], lectures[i + 1 + k'])
    {
      assert m[k + 1] && m[k' + 1];
      assert lectures[i + 1 + k] == lectures[i + (k + 1)] && lectures[i + 1 + k'] == lectures[i + (k' + 1)];
    }
  }

  lemma AdmissibleTakeWhole(lectures: seq<Lecture>, i: nat, w: Week, w1: Week, m: seq<bool>)
    requires i + |m| <= |lectures| && m != [] && m[0]
    requires forall k :: i < k < |lectures| ==>
               (CanPlaceLecture(w1, lectures[k].slots)
                <==> CanPlaceLecture(w, lectures[k].slots) && Compatible(lectures[i], lectures[k]))
    requires CanPlaceLecture(w, lectures[i].slots) && Admissible(lectures, i + 1, w1, m[1..])
    ensures Admissible(lectures, i, w, m)
  {
    var tail := m[1..];
    forall k | 0 <= k < |m| && m[k] ensures CanPlaceLecture(w, lectures[i + k].slots) {
      if k > 0 {
        assert tail[k - 1] && lectures[i + 1 + (k - 1)] == lectures[i + k];
      }
    }
    forall k, k' | 0 <= k < k' < |m| && m[k] && m[k'] ensures Compatible(lectures[i + k], lectures[i + k']) {
      assert tail[k' - 1] && lectures[i + 1 + (k' - 1)] == lectures[i + k'];
      if k > 0 {
        assert tail[k - 1] && lectures[i + 1 + (k - 1)] == lectures[i + k];
      }
    }
  }

  /**
   * Taking lecture `i`: it must fit, and the rest must be admissible from the
   * timetable with `i` placed, given how placing `i` changes what fits.
   */
  lemma AdmissibleTake(lectures: seq<Lecture>, i: nat, w: Week, w1: Week, m: seq<bool>)
    requires i + |m| <= |lectures| && m != [] && m[0]
    requires forall k :: i < k < |lectures| ==>
               (CanPlaceLecture(w1, lectures[k].slots)
                <==> CanPlaceLecture(w, lectures[k].slots) && Compatible(lectures[i], lectures[k]))
    ensures Admissible(lectures, i, w, m)
        <==> CanPlaceLecture(w, lectures[i].slots) && Admissible(lectures, i + 1, w1, m[1..])
  {
    if Admissible(lectures, i, w, m) {
      AdmissibleTakeRest(lectures, i, w, w1, m);
    }
    if CanPlaceLecture(w, lectures[i].slots) && Admissible(lectures, i + 1, w1, m[1..]) {
      AdmissibleTakeWhole(lectures, i, w, w1, m);
    }
  }

  lemma {:induction false} MasksAreAdmissible(lectures: seq<Lecture>, i: nat, w: Week, color: string, m: seq<bool>)
    requires i <= |lectures|
    ensures m in Masks(lectures, i, w, color) <==> |m| == |lectures| - i && Admissible(lectures, i, w, m)
    decreases |lectures| - i
  {
    if i == |lectures| {
    } else {
      var w1 := Placed(w, lectures[i], color);
      var c := CanPlaceLecture(w, lectures[i].slots);
      var m0 := Masks(lectures, i + 1, w, color);
      var m1 := Masks(lectures, i + 1, w1, color);
      assert Masks(lectures, i, w, color) == PrependAll(false, m0) + (if c then PrependAll(true, m1) else []);
      InPrependAll(false, m0, m);
      InPrependAll(true, m1, m);
      if m != [] {
        MasksAreAdmissible(lectures, i + 1, w, color, m[1..]);
        MasksAreAdmissible(lectures, i + 1, w1, color, m[1..]);
        if |m| == |lectures| - i {
          if m[0] {
            forall k | i < k < |lectures|
              ensures CanPlaceLecture(w1, lectures[k].slots)
                  <==> CanPlaceLecture(w, lectures[k].slots) && Compatible(lectures[i], lectures[k])
            {
              PlacedFits(w, lectures[i], lectures[k], color);
            }
            AdmissibleTake(lectures, i, w, w1, m);
          } else {
            AdmissibleSkip(lectures, i, w, m);
          }
        }
      }
    }
  }

  /** From the empty timetable every lecture fits, so only the clashes between lectures matter. */
  lemma AdmissibleFromEmpty(lectures: seq<Lecture>, m: seq<bool>)
    requires |m| <= |lectures|
    ensures Admissible(lectures, 0, Empty, m)
        <==> forall k, k' :: 0 <= k < k' < |m| && m[k] && m[k'] ==> Compatible(lectures[k], lectures[k'])
  {
    forall k | 0 <= k < |lectures| ensures CanPlaceLecture(Empty, lectures[k].slots) {
      CanPlaceLectureIff(Empty, lectures[k].slots);
    }
  }

  /**
   * The results of a whole run correspond one-to-one to the choices of
   * lectures no two of which clash: result `t` is made of the blocks of the
   * lectures choice `t` takes, the choices are pairwise different, and a
   * choice occurs iff no two of its lectures clash.
   */
  lemma ResultsAreAdmissibleChoices(lectures: seq<Lecture>, color: string)
    ensures var results := Enumerate(lectures, 0, Empty, color);
            var choices := Masks(lectures, 0, Empty, color);
            && |results| == |choices|
            && Seqs.NoDuplicates(choices)
            && (forall t :: 0 <= t < |choices| ==>
                  |choices[t]| == |lectures| && results[t] == Gather(lectures, 0, choices[t], color))
            && (forall m :: m in choices <==>
                  |m| == |lectures|
                  && forall k, k' :: 0 <= k < k' < |m| && m[k] && m[k'] ==> Compatible(lectures[k], lectures[k']))
  {
    var choices := Masks(lectures, 0, Empty, color);
    EnumerateByMasks(lectures, 0, Empty, color);
    MasksNoDuplicates(lectures, 0, Empty, color);
    forall t | 0 <= t < |choices|
      ensures Empty.Plus(Gather(lectures, 0, choices[t], color)) == Gather(lectures, 0, choices[t], color)
    {
      PlusEmpty(Gather(lectures, 0, choices[t], color));
    }
    forall m ensures m in choices <==>
                  |m| == |lectures|
                  && forall k, k' :: 0 <= k < k' < |m| && m[k] && m[k'] ==> Compatible(lectures[k], lectures[k'])
    {
      MasksAreAdmissible(lectures, 0, Empty, color, m);
      if |m| == |lectures| {
        AdmissibleFromEmpty(lectures, m);
      }
    }
  }
}
