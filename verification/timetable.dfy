/**
 * The main timetable screen: adding a section chosen in the catalog dialog,
 * and saving the active timetable under a name.
 */
module TimeTable {
  import opened Wrappers
  import opened Schedule
  import Seqs
  import Text
  import Clock
  import LectureSelector

  /**
   * `parseTimeToDecimal` of this screen, in minutes: a missing or empty
   * string is 0; `None` stands for `NaN`.
   */
  function TimeOrZero(t: Option<string>): Option<int>
  {
    match t
    case None => Some(0)
    case Some(s) => Clock.ParseTimeOrZero(s)
  }

  /** A missing time and an empty time are both read as 0. */
  lemma TimeOrZeroMissing()
    ensures TimeOrZero(None) == Some(0) && TimeOrZero(Some([])) == Some(0)
  {
  }

  /** A formatted time is read as its minute count. */
  lemma TimeOrZeroFormat(h: nat, m: nat)
    requires h < 100 && m < 100
    ensures TimeOrZero(Some(Clock.Format(h, m))) == Some(h * 60 + m)
  {
    Clock.FormatRoundTrip(h, m);
  }

  // ---------------------------------------------------------------------
  // Adding a catalog section

  /** Both times of the chosen section are numbers (neither is `NaN`). */
  predicate TimesParse(lecture: LectureSelector.MappedLecture)
  {
    TimeOrZero(Some(lecture.startTime)).Some? && TimeOrZero(lecture.endTime).Some?
  }

  function NewStart(lecture: LectureSelector.MappedLecture): int
    requires TimesParse(lecture)
  {
    TimeOrZero(Some(lecture.startTime)).value
  }

  function NewEnd(lecture: LectureSelector.MappedLecture): int
    requires TimesParse(lecture)
  {
    TimeOrZero(lecture.endTime).value
  }

  /** `hasConflict`: some block of the day fails `newEnd <= existStart || newStart >= existEnd`. */
  predicate HasConflict(day: seq<Block>, newStart: int, newEnd: int)
  {
    exists i :: 0 <= i < |day| && !(newEnd <= day[i].start || newStart >= day[i].end)
  }

  /** The screen's conflict test is the shared "fits" test. */
  lemma HasConflictIff(day: seq<Block>, newStart: int, newEnd: int)
    ensures HasConflict(day, newStart, newEnd) <==> !Fits(day, newStart, newEnd)
  {
  }

  /** The block appended for the section: its fields, its room, and the id `Date.now()`. */
  function SectionBlock(lecture: LectureSelector.MappedLecture, now: int): Block
    requires TimesParse(lecture)
  {
    Block(lecture.name, NewStart(lecture), NewEnd(lecture), lecture.color, Some(lecture.room), Some(Stamp(now)))
  }

  /** The timetable `onSelect(day, lecture)` leaves. */
  function AfterSelect(w: Week, day: Day, lecture: LectureSelector.MappedLecture, now: int): Week
    requires TimesParse(lecture)
  {
    if HasConflict(w.Get(day), NewStart(lecture), NewEnd(lecture)) then w
    else w.With(day, w.Get(day) + [SectionBlock(lecture, now)])
  }

  /**
   * The section is added iff it fits the day; then exactly one block goes
   * last on that day and no other day changes; a timetable without overlaps
   * keeps none.
   */
  lemma SelectProperties(w: Week, day: Day, lecture: LectureSelector.MappedLecture, now: int)
    requires TimesParse(lecture)
    ensures var r := AfterSelect(w, day, lecture, now);
            && (!Fits(w.Get(day), NewStart(lecture), NewEnd(lecture)) ==> r == w)
            && (Fits(w.Get(day), NewStart(lecture), NewEnd(lecture)) ==>
                  r.Get(day) == w.Get(day) + [SectionBlock(lecture, now)]
                  && TotalBlocks(r) == TotalBlocks(w) + 1)
            && (forall d :: d != day ==> r.Get(d) == w.Get(d))
            && (ConflictFree(w) ==> ConflictFree(r))
  {
    var r := AfterSelect(w, day, lecture, now);
    HasConflictIff(w.Get(day), NewStart(lecture), NewEnd(lecture));
    if Fits(w.Get(day), NewStart(lecture), NewEnd(lecture)) {
      if ConflictFree(w) {
        DayConflictFreeAppend(w.Get(day), SectionBlock(lecture, now));
        assert forall d :: DayConflictFree(r.Get(d));
      }
      match day
      case Mon => case Tue => case Wed => case Thu => case Fri =>
    }
  }

  /**
   * A section whose time text has no '-' has no end time, which reads as 0,
   * so it never conflicts with blocks that start at or after midnight and is
   * always added.
   */
  lemma SelectWithoutEndTime(w: Week, day: Day, lecture: LectureSelector.MappedLecture, now: int)
    requires TimesParse(lecture) && lecture.endTime.None?
    requires forall i :: 0 <= i < |w.Get(day)| ==> w.Get(day)[i].start >= 0
    ensures AfterSelect(w, day, lecture, now).Get(day) == w.Get(day) + [SectionBlock(lecture, now)]
  {
  }

  /** `onSelect(day, lecture)`. */
  method OnSelect(store: TimetableStore, day: Day, lecture: LectureSelector.MappedLecture, now: int)
    requires TimesParse(lecture)
    modifies store
    ensures store.week == AfterSelect(old(store.week), day, lecture, now)
  {
    var newStart := TimeOrZero(Some(lecture.startTime)).value;
    var newEnd := TimeOrZero(lecture.endTime).value;
    var existing := store.week.Get(day);
    var hasConflict := exists i :: 0 <= i < |existing| && !(newEnd <= existing[i].start || newStart >= existing[i].end);
    if hasConflict {
      return;
    }
    var block := Block(lecture.name, newStart, newEnd, lecture.color, Some(lecture.room), Some(Stamp(now)));
    store.week := store.week.With(day, existing + [block]);
  }

  // ---------------------------------------------------------------------
  // Saving

  /** The saved list after the save button: a blank name is refused. */
  function AfterSave(entries: seq<SavedEntry>, name: string, data: Week): seq<SavedEntry>
  {
    if Text.Trim(name) == [] then entries
    else Seqs.Filter(entries, NameIsNot(name)) + [SavedEntry(name, data)]
  }

  /**
   * A name that is blank after trimming changes nothing. Otherwise the new
   * entry goes last, it is the only entry with that name, the other entries
   * keep their order, and the list loses the old entries of that name.
   */
  lemma SaveProperties(entries: seq<SavedEntry>, name: string, data: Week)
    ensures Text.Trim(name) == [] ==> AfterSave(entries, name, data) == entries
    ensures Text.Trim(name) != [] ==>
              var r := AfterSave(entries, name, data);
              && |r| == |entries| - Seqs.Count(entries, HasName(name)) + 1
              && r[|r| - 1] == SavedEntry(name, data)
              && Seqs.Count(r, HasName(name)) == 1
              && (forall e :: e in r[..|r| - 1] <==> e in entries && e.name != name)
              && Seqs.IsSubsequence(r[..|r| - 1], entries)
  {
    if Text.Trim(name) != [] {
      var kept := Seqs.Filter(entries, NameIsNot(name));
      var r := kept + [SavedEntry(name, data)];
      DropNamed(entries, name);
      assert r[..|r| - 1] == kept;
      Seqs.CountNone(kept, HasName(name));
      Seqs.CountAppend(kept, [SavedEntry(name, data)], HasName(name));
      assert Seqs.Count([SavedEntry(name, data)], HasName(name)) == 1;
    }
  }

  /** The save button: the active timetable is stored under `name`. */
  method Save(store: TimetableStore, saved: SavedStore, name: string)
    modifies saved
    ensures saved.entries == AfterSave(old(saved.entries), name, store.week)
  {
    if Text.Trim(name) == [] {
      return;
    }
    var updated := Seqs.Filter(saved.entries, NameIsNot(name)) + [SavedEntry(name, store.week)];
    saved.entries := updated;
  }
}
