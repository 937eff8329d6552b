/**
 * The dialog that adds, edits and deletes one block of the active timetable
 * by hand. Each handler replaces the timetable in the store; the functions
 * `AfterSubmit`, `AfterEdit` and `AfterDelete` give the timetable each one
 * leaves behind.
 */
module InputModal {
  import opened Wrappers
  import opened Schedule
  import Seqs
  import Text
  import Clock

  datatype HourMinute = HourMinute(hour: nat, minute: nat)

  /** What an `<input type="time">` holds: "HH:mm" with a valid hour and minute. */
  type ClockTime = t: HourMinute | t.hour < 24 && t.minute < 60 witness HourMinute(0, 0)

  /** The text of the time input. */
  function TimeText(t: ClockTime): string
  {
    Clock.Format(t.hour, t.minute)
  }

  /** `parseTimeToDecimal` of the time input, in minutes. */
  function Minutes(t: ClockTime): (r: int)
    ensures Clock.ParseTime(TimeText(t)) == Some(r)
  {
    Clock.FormatRoundTrip(t.hour, t.minute);
    t.hour * 60 + t.minute
  }

  /** The form fields: `lectureName`, `day`, `startTime`, `endTime`, `lectureColor`. */
  datatype Form = Form(lectureName: string, day: Day, start: ClockTime, end: ClockTime, color: string)

  // ---------------------------------------------------------------------
  // The overlap test and the end-time rule

  /** `checkOverLap` holds in both argument orders. */
  lemma OverlapsSymmetric(aStart: int, aEnd: int, bStart: int, bEnd: int)
    ensures Overlaps(aStart, aEnd, bStart, bEnd) <==> Overlaps(bStart, bEnd, aStart, aEnd)
  {
  }

  /** Intervals that only share an endpoint do not overlap. */
  lemma TouchingDoesNotOverlap(start: int, middle: int, end: int)
    ensures !Overlaps(start, middle, middle, end)
    ensures !Overlaps(middle, end, start, middle)
  {
  }

  /** The end-time rule `value > getValues('startTime')`, a comparison of the two texts. */
  predicate EndTimeValid(f: Form)
  {
    Text.LexLess(TimeText(f.start), TimeText(f.end))
  }

  lemma LexLessCons(a: char, s: string, b: char, t: string)
    ensures Text.LexLess([a] + s, [b] + t) == if a != b then a < b else Text.LexLess(s, t)
  {
    assert ([a] + s)[1..] == s && ([b] + t)[1..] == t;
  }

  /** Comparing two "HH:mm" texts compares hours first, then minutes. */
  lemma FormatLexLess(h1: nat, m1: nat, h2: nat, m2: nat)
    requires h1 < 100 && m1 < 100 && h2 < 100 && m2 < 100
    ensures Text.LexLess(Clock.Format(h1, m1), Clock.Format(h2, m2)) <==> h1 * 100 + m1 < h2 * 100 + m2
  {
    var x, y := Clock.Format(h1, m1), Clock.Format(h2, m2);
    assert x == [x[0]] + ([x[1]] + ([x[2]] + ([x[3]] + ([x[4]] + [])))) by {
      assert x == [x[0], x[1], x[2], x[3], x[4]];
    }
    assert y == [y[0]] + ([y[1]] + ([y[2]] + ([y[3]] + ([y[4]] + [])))) by {
      assert y == [y[0], y[1], y[2], y[3], y[4]];
    }
    LexLessCons(x[0], x[1..], y[0], y[1..]);
    LexLessCons(x[1], x[2..], y[1], y[2..]);
    LexLessCons(x[2], x[3..], y[2], y[3..]);
    LexLessCons(x[3], x[4..], y[3], y[4..]);
    LexLessCons(x[4], [], y[4], []);
    assert h1 == 10 * (h1 / 10) + h1 % 10 && h2 == 10 * (h2 / 10) + h2 % 10;
    assert m1 == 10 * (m1 / 10) + m1 % 10 && m2 == 10 * (m2 / 10) + m2 % 10;
  }

  /** With minutes below 60, ordering by `h*100 + m` and by `h*60 + m` agree. */
  lemma HourMinuteOrder(h1: nat, m1: nat, h2: nat, m2: nat)
    requires m1 < 60 && m2 < 60
    ensures h1 * 100 + m1 < h2 * 100 + m2 <==> h1 * 60 + m1 < h2 * 60 + m2
  {
    if h1 < h2 {
      assert h1 * 100 + 100 <= h2 * 100 && h1 * 60 + 60 <= h2 * 60;
    } else if h2 < h1 {
      assert h2 * 100 + 100 <= h1 * 100 && h2 * 60 + 60 <= h1 * 60;
    }
  }

  /** For times of day the text comparison is exactly the order of the minute counts. */
  lemma EndTimeValidIff(f: Form)
    ensures EndTimeValid(f) <==> Minutes(f.start) < Minutes(f.end)
  {
    FormatLexLess(f.start.hour, f.start.minute, f.end.hour, f.end.minute);
    HourMinuteOrder(f.start.hour, f.start.minute, f.end.hour, f.end.minute);
  }

  // ---------------------------------------------------------------------
  // Blocks and ids

  /** The test `lec.id !== idNum`, as a value that `filter` can take. */
  function NotId(id: BlockId): Block -> bool
  {
    (b: Block) => b.id != Some(id)
  }

  function HasId(id: BlockId): Block -> bool
  {
    (b: Block) => b.id == Some(id)
  }

  /** The block the form describes, under `id`. */
  function FormBlock(f: Form, id: BlockId): Block
  {
    Block(f.lectureName, Minutes(f.start), Minutes(f.end), f.color, None, Some(id))
  }

  /** A day without overlapping blocks keeps that property when some are removed. */
  lemma {:induction false} DayConflictFreeFilter(day: seq<Block>, p: Block -> bool)
    requires DayConflictFree(day)
    ensures DayConflictFree(Seqs.Filter(day, p))
  {
    if day != [] {
      var rest := day[1..];
      assert DayConflictFree(rest) by {
        forall i, j | 0 <= i < j < |rest|
          ensures !Overlaps(rest[i].start, rest[i].end, rest[j].start, rest[j].end)
        {
          assert rest[i] == day[i + 1] && rest[j] == day[j + 1];
        }
      }
      DayConflictFreeFilter(rest, p);
      var t := Seqs.Filter(rest, p);
      if p(day[0]) {
        Seqs.FilterMembers(rest, p);
        var r := [day[0]] + t;
        forall i, j | 0 <= i < j < |r|
          ensures !Overlaps(r[i].start, r[i].end, r[j].start, r[j].end)
        {
          if i == 0 {
            assert r[j] == t[j - 1] && t[j - 1] in rest;
            var k :| 0 <= k < |rest| && rest[k] == r[j];
            assert day[k + 1] == r[j];
          } else {
            assert r[i] == t[i - 1] && r[j] == t[j - 1];
          }
        }
      }
    }
  }

  // ---------------------------------------------------------------------
  // Submit

  /** `timeTableData[day].some((lec) => checkOverLap(lec, { startTime, endTime }))`. */
  predicate SubmitClash(day: seq<Block>, start: int, end: int)
  {
    exists i :: 0 <= i < |day| && Overlaps(day[i].start, day[i].end, start, end)
  }

  /** The check `Submit` makes is the shared "fits" test. */
  lemma SubmitClashIff(day: seq<Block>, start: int, end: int)
    ensures SubmitClash(day, start, end) <==> !Fits(day, start, end)
  {
    if SubmitClash(day, start, end) {
      var i :| 0 <= i < |day| && Overlaps(day[i].start, day[i].end, start, end);
      OverlapsSymmetric(day[i].start, day[i].end, start, end);
    }
  }

  /** The timetable `Submit` leaves: unchanged on a clash, else the new block appended to its day. */
  function AfterSubmit(w: Week, f: Form, freshId: string): Week
  {
    if SubmitClash(w.Get(f.day), Minutes(f.start), Minutes(f.end)) then w
    else w.With(f.day, w.Get(f.day) + [FormBlock(f, Uuid(freshId))])
  }

  /**
   * A new block is added iff it fits its day; it goes last on that day, no
   * other day changes, and a timetable without overlaps keeps none.
   */
  lemma SubmitProperties(w: Week, f: Form, freshId: string)
    ensures var r := AfterSubmit(w, f, freshId);
            && (!Fits(w.Get(f.day), Minutes(f.start), Minutes(f.end)) ==> r == w)
            && (Fits(w.Get(f.day), Minutes(f.start), Minutes(f.end)) ==>
                  r.Get(f.day) == w.Get(f.day) + [FormBlock(f, Uuid(freshId))]
                  && TotalBlocks(r) == TotalBlocks(w) + 1)
            && (forall d :: d != f.day ==> r.Get(d) == w.Get(d))
            && (ConflictFree(w) ==> ConflictFree(r))
  {
    var r := AfterSubmit(w, f, freshId);
    SubmitClashIff(w.Get(f.day), Minutes(f.start), Minutes(f.end));
    if Fits(w.Get(f.day), Minutes(f.start), Minutes(f.end)) {
      if ConflictFree(w) {
        DayConflictFreeAppend(w.Get(f.day), FormBlock(f, Uuid(freshId)));
        assert forall d :: DayConflictFree(r.Get(d));
      }
      match f.day
      case Mon => case Tue => case Wed => case Thu => case Fri =>
    }
  }

  /** `Submit`: check the chosen day, then append the block with a fresh id. */
  method Submit(store: TimetableStore, f: Form, freshId: string)
    modifies store
    ensures store.week == AfterSubmit(old(store.week), f, freshId)
  {
    var start, end := Minutes(f.start), Minutes(f.end);
    var day := store.week.Get(f.day);
    var valid := !exists i :: 0 <= i < |day| && Overlaps(day[i].start, day[i].end, start, end);
    if !valid {
      return;
    }
    var data := Block(f.lectureName, start, end, f.color, None, Some(Uuid(freshId)));
    store.week := store.week.With(f.day, day + [data]);
  }

  // ---------------------------------------------------------------------
  // Edit

  /** `Edit`'s check: some block of the chosen day other than block `idNum` overlaps. */
  predicate EditClash(day: seq<Block>, start: int, end: int, idNum: BlockId)
  {
    exists i :: 0 <= i < |day| && Overlaps(day[i].start, day[i].end, start, end) && day[i].id != Some(idNum)
  }

  /** The edit check is the "fits" test against the day with block `idNum` taken out. */
  lemma EditClashIgnoresSelf(day: seq<Block>, start: int, end: int, idNum: BlockId)
    ensures EditClash(day, start, end, idNum) <==> !Fits(Seqs.Filter(day, NotId(idNum)), start, end)
  {
    var t := Seqs.Filter(day, NotId(idNum));
    Seqs.FilterMembers(day, NotId(idNum));
    if EditClash(day, start, end, idNum) {
      var i :| 0 <= i < |day| && Overlaps(day[i].start, day[i].end, start, end) && day[i].id != Some(idNum);
      assert day[i] in t;
      var k :| 0 <= k < |t| && t[k] == day[i];
      OverlapsSymmetric(day[i].start, day[i].end, start, end);
    }
    if !Fits(t, start, end) {
      var k :| 0 <= k < |t| && Overlaps(start, end, t[k].start, t[k].end);
      assert t[k] in day;
      var i :| 0 <= i < |day| && day[i] == t[k];
      OverlapsSymmetric(day[i].start, day[i].end, start, end);
    }
  }

  /**
   * The timetable `Edit` leaves. The check looks at the chosen `day`, but the
   * new list is built from the opening day `dayData` and written to `day`.
   */
  function AfterEdit(w: Week, f: Form, dayData: Day, idNum: BlockId): Week
  {
    if EditClash(w.Get(f.day), Minutes(f.start), Minutes(f.end), idNum) then w
    else w.With(f.day, Seqs.Filter(w.Get(dayData), NotId(idNum)) + [FormBlock(f, idNum)])
  }

  /**
   * Editing on the same day: refused iff the edited interval overlaps another
   * block of the day; otherwise block `idNum` is replaced by the edited block,
   * placed last, the other blocks of the day stay in order, no other day
   * changes, and a timetable without overlaps keeps none.
   */
  lemma EditSameDay(w: Week, f: Form, idNum: BlockId)
    ensures var r := AfterEdit(w, f, f.day, idNum);
            var others := Seqs.Filter(w.Get(f.day), NotId(idNum));
            && (!Fits(others, Minutes(f.start), Minutes(f.end)) ==> r == w)
            && (Fits(others, Minutes(f.start), Minutes(f.end)) ==>
                  && r.Get(f.day) == others + [FormBlock(f, idNum)]
                  && Seqs.IsSubsequence(others, w.Get(f.day))
                  && (forall b :: b in others <==> b in w.Get(f.day) && b.id != Some(idNum))
                  && Seqs.Count(r.Get(f.day), HasId(idNum)) == 1)
            && (forall d :: d != f.day ==> r.Get(d) == w.Get(d))
            && (ConflictFree(w) ==> ConflictFree(r))
  {
    var r := AfterEdit(w, f, f.day, idNum);
    var others := Seqs.Filter(w.Get(f.day), NotId(idNum));
    var b := FormBlock(f, idNum);
    EditClashIgnoresSelf(w.Get(f.day), Minutes(f.start), Minutes(f.end), idNum);
    if Fits(others, Minutes(f.start), Minutes(f.end)) {
      Seqs.FilterIsSubsequence(w.Get(f.day), NotId(idNum));
      Seqs.FilterMembers(w.Get(f.day), NotId(idNum));
      Seqs.CountNone(others, HasId(idNum));
      Seqs.CountAppend(others, [b], HasId(idNum));
      assert Seqs.Count([b], HasId(idNum)) == 1;
      if ConflictFree(w) {
        DayConflictFreeFilter(w.Get(f.day), NotId(idNum));
        DayConflictFreeAppend(others, b);
        assert forall d :: DayConflictFree(r.Get(d));
      }
    }
  }

  /**
   * Editing into another day (`day != dayData`), as written: the opening day
   * keeps block `idNum`, and the chosen day loses its own blocks and receives
   * a copy of the opening day's other blocks followed by the edited block.
   */
  lemma EditAcrossDays(w: Week, f: Form, dayData: Day, idNum: BlockId)
    requires f.day != dayData
    requires !EditClash(w.Get(f.day), Minutes(f.start), Minutes(f.end), idNum)
    ensures var r := AfterEdit(w, f, dayData, idNum);
            && r.Get(dayData) == w.Get(dayData)
            && r.Get(f.day) == Seqs.Filter(w.Get(dayData), NotId(idNum)) + [FormBlock(f, idNum)]
            && (forall d :: d != f.day ==> r.Get(d) == w.Get(d))
  {
  }

  /** `Edit`: check the chosen day ignoring block `idNum`, then rebuild from `dayData`. */
  method Edit(store: TimetableStore, f: Form, dayData: Day, idNum: BlockId)
    modifies store
    ensures store.week == AfterEdit(old(store.week), f, dayData, idNum)
  {
    var start, end := Minutes(f.start), Minutes(f.end);
    var day := store.week.Get(f.day);
    var valid := !exists i :: 0 <= i < |day| && Overlaps(day[i].start, day[i].end, start, end) && day[i].id != Some(idNum);
    if !valid {
      return;
    }
    var filteredDayData := Seqs.Filter(store.week.Get(dayData), NotId(idNum));
    var newDayData := filteredDayData + [Block(f.lectureName, start, end, f.color, None, Some(idNum))];
    store.week := store.week.With(f.day, newDayData);
  }

  // ---------------------------------------------------------------------
  // Delete

  /** The timetable `handleDelete` leaves. */
  function AfterDelete(w: Week, dayData: Day, idNum: BlockId): Week
  {
    w.With(dayData, Seqs.Filter(w.Get(dayData), NotId(idNum)))
  }

  /**
   * Deleting removes every block with id `idNum` from the opening day and
   * nothing else: the other blocks stay in order, other days are untouched.
   */
  lemma DeleteProperties(w: Week, dayData: Day, idNum: BlockId)
    ensures var r := AfterDelete(w, dayData, idNum);
            && (forall b :: b in r.Get(dayData) <==> b in w.Get(dayData) && b.id != Some(idNum))
            && Seqs.IsSubsequence(r.Get(dayData), w.Get(dayData))
            && |r.Get(dayData)| == |w.Get(dayData)| - Seqs.Count(w.Get(dayData), HasId(idNum))
            && (forall d :: d != dayData ==> r.Get(d) == w.Get(d))
            && (ConflictFree(w) ==> ConflictFree(r))
  {
    var r := AfterDelete(w, dayData, idNum);
    Seqs.FilterMembers(w.Get(dayData), NotId(idNum));
    Seqs.FilterIsSubsequence(w.Get(dayData), NotId(idNum));
    Seqs.FilterLength(w.Get(dayData), NotId(idNum));
    Seqs.CountComplement(w.Get(dayData), HasId(idNum), NotId(idNum));
    if ConflictFree(w) {
      DayConflictFreeFilter(w.Get(dayData), NotId(idNum));
      assert forall d :: DayConflictFree(r.Get(d));
    }
  }

  /** `handleDelete`. */
  method HandleDelete(store: TimetableStore, dayData: Day, idNum: BlockId)
    modifies store
    ensures store.week == AfterDelete(old(store.week), dayData, idNum)
  {
    store.week := store.week.With(dayData, Seqs.Filter(store.week.Get(dayData), NotId(idNum)));
  }

  // ---------------------------------------------------------------------
  // The form's submit button

  /** JavaScript truthiness of `idNum`: `undefined`, `""` and `0` are false. */
  predicate Truthy(idNum: Option<BlockId>)
  {
    match idNum
    case None => false
    case Some(Uuid(text)) => text != []
    case Some(Stamp(millis)) => millis != 0
  }

  /**
   * `handleSubmit(idNum ? Edit : Submit)`: an empty name or an end time not
   * after the start time fails the form rules and changes nothing; with a
   * truthy `idNum` the dialog edits, otherwise it adds.
   */
  method OnSubmit(store: TimetableStore, f: Form, dayData: Day, idNum: Option<BlockId>, freshId: string)
    modifies store
    ensures f.lectureName == [] || Minutes(f.end) <= Minutes(f.start) ==> store.week == old(store.week)
    ensures f.lectureName != [] && Minutes(f.start) < Minutes(f.end) ==>
              store.week == (if Truthy(idNum) then AfterEdit(old(store.week), f, dayData, idNum.value)
                             else AfterSubmit(old(store.week), f, freshId))
  {
    EndTimeValidIff(f);
    if f.lectureName == [] || !EndTimeValid(f) {
      return;
    }
    if Truthy(idNum) {
      Edit(store, f, dayData, idNum.value);
    } else {
      Submit(store, f, freshId);
    }
  }
}
