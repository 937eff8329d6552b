/**
 * The timetable data shared by every screen: five weekday lists of placed
 * blocks, the half-open overlap test, and the two stores the screens update
 * (the active timetable and the list of saved timetables).
 */
module Schedule {
  import opened Wrappers
  import Seqs

  datatype Day = Mon | Tue | Wed | Thu | Fri

  /** A block's id: a uuid string from the input dialog, or a `Date.now()` stamp from the catalog. */
  datatype BlockId = Uuid(text: string) | Stamp(millis: int)

  /**
   * A block placed on one day. Times are minutes since midnight. Blocks made by
   * the generator carry no room and no id; blocks added by hand carry an id.
   */
  datatype Block = Block(
    name: string,
    start: int,
    end: int,
    color: string,
    room: Option<string>,
    id: Option<BlockId>)

  /** A timetable: the ordered block list of each weekday, `mon` to `fri`. */
  datatype Week = Week(mon: seq<Block>, tue: seq<Block>, wed: seq<Block>, thu: seq<Block>, fri: seq<Block>)
  {
    /** `timetable[day]`. */
    function Get(d: Day): seq<Block>
    {
      match d
      case Mon => mon
      case Tue => tue
      case Wed => wed
      case Thu => thu
      case Fri => fri
    }

    /** `{ ...timetable, [day]: s }`. */
    function With(d: Day, s: seq<Block>): (w: Week)
      ensures w.Get(d) == s
      ensures forall e :: e != d ==> w.Get(e) == Get(e)
    {
      match d
      case Mon => this.(mon := s)
      case Tue => this.(tue := s)
      case Wed => this.(wed := s)
      case Thu => this.(thu := s)
      case Fri => this.(fri := s)
    }

    /** Day by day, the blocks of `this` followed by the blocks of `other`. */
    function Plus(other: Week): Week
    {
      Week(mon + other.mon, tue + other.tue, wed + other.wed, thu + other.thu, fri + other.fri)
    }
  }

  lemma PlusGet(a: Week, b: Week, d: Day)
    ensures a.Plus(b).Get(d) == a.Get(d) + b.Get(d)
  {
  }

  /** `{ mon: [], tue: [], wed: [], thu: [], fri: [] }`. */
  const Empty: Week := Week([], [], [], [], [])

  /** Two timetables with the same list on every day are the same timetable. */
  lemma WeekExt(a: Week, b: Week)
    requires forall d :: a.Get(d) == b.Get(d)
    ensures a == b
  {
    assert a.Get(Mon) == b.Get(Mon) && a.Get(Tue) == b.Get(Tue) && a.Get(Wed) == b.Get(Wed);
    assert a.Get(Thu) == b.Get(Thu) && a.Get(Fri) == b.Get(Fri);
  }

  lemma PlusEmpty(w: Week)
    ensures Empty.Plus(w) == w && w.Plus(Empty) == w
  {
    WeekExt(Empty.Plus(w), w);
    WeekExt(w.Plus(Empty), w);
  }

  lemma PlusAssociative(a: Week, b: Week, c: Week)
    ensures a.Plus(b).Plus(c) == a.Plus(b.Plus(c))
  {
    WeekExt(a.Plus(b).Plus(c), a.Plus(b.Plus(c)));
  }

  /** Total number of blocks over the five days. */
  function TotalBlocks(w: Week): nat
  {
    |w.mon| + |w.tue| + |w.wed| + |w.thu| + |w.fri|
  }

  /**
   * The conflict test written in all three source files:
   * `!(aEnd <= bStart || aStart >= bEnd)`.
   */
  predicate Overlaps(aStart: int, aEnd: int, bStart: int, bEnd: int)
  {
    !(aEnd <= bStart || aStart >= bEnd)
  }

  /** The interval `[start, end)` overlaps no block of `day`. */
  predicate Fits(day: seq<Block>, start: int, end: int)
  {
    forall i :: 0 <= i < |day| ==> !Overlaps(start, end, day[i].start, day[i].end)
  }

  lemma FitsAppend(a: seq<Block>, b: seq<Block>, start: int, end: int)
    ensures Fits(a + b, start, end) <==> Fits(a, start, end) && Fits(b, start, end)
  {
    if Fits(a, start, end) && Fits(b, start, end) {
      forall i | 0 <= i < |a + b|
        ensures !Overlaps(start, end, (a + b)[i].start, (a + b)[i].end)
      {
        if i >= |a| {
          assert (a + b)[i] == b[i - |a|];
        }
      }
    }
    if Fits(a + b, start, end) {
      forall i | 0 <= i < |a| ensures !Overlaps(start, end, a[i].start, a[i].end) {
        assert (a + b)[i] == a[i];
      }
      forall i | 0 <= i < |b| ensures !Overlaps(start, end, b[i].start, b[i].end) {
        assert (a + b)[|a| + i] == b[i];
      }
    }
  }

  /** No two blocks of one day overlap. */
  predicate DayConflictFree(day: seq<Block>)
  {
    forall i, j :: 0 <= i < j < |day| ==> !Overlaps(day[i].start, day[i].end, day[j].start, day[j].end)
  }

  /** No two blocks on the same day overlap. */
  predicate ConflictFree(w: Week)
  {
    forall d :: DayConflictFree(w.Get(d))
  }

  lemma DayConflictFreeAppend(day: seq<Block>, b: Block)
    requires DayConflictFree(day) && Fits(day, b.start, b.end)
    ensures DayConflictFree(day + [b])
  {
    var r := day + [b];
    forall i, j | 0 <= i < j < |r|
      ensures !Overlaps(r[i].start, r[i].end, r[j].start, r[j].end)
    {
      if j == |day| {
        assert !Overlaps(b.start, b.end, day[i].start, day[i].end);
      }
    }
  }

  /** The active timetable that every screen reads and replaces (`timeTableState`). */
  class TimetableStore {
    var week: Week

    constructor (w: Week)
      ensures week == w
    {
      week := w;
    }
  }

  /** A named timetable in the saved list. */
  datatype SavedEntry = SavedEntry(name: string, data: Week)

  /** The test `t.name !== name`, as a value that `filter` can take. */
  function NameIsNot(name: string): SavedEntry -> bool
  {
    (e: SavedEntry) => e.name != name
  }

  function HasName(name: string): SavedEntry -> bool
  {
    (e: SavedEntry) => e.name == name
  }

  /**
   * `entries.filter((t) => t.name !== name)` drops exactly the entries with
   * that name and keeps the others in order.
   */
  lemma DropNamed(entries: seq<SavedEntry>, name: string)
    ensures var r := Seqs.Filter(entries, NameIsNot(name));
            && (forall e :: e in r <==> e in entries && e.name != name)
            && Seqs.IsSubsequence(r, entries)
            && |r| == |entries| - Seqs.Count(entries, HasName(name))
  {
    Seqs.FilterMembers(entries, NameIsNot(name));
    Seqs.FilterIsSubsequence(entries, NameIsNot(name));
    Seqs.FilterLength(entries, NameIsNot(name));
    Seqs.CountComplement(entries, HasName(name), NameIsNot(name));
  }

  /** The saved list kept under the key "savedTimetables". */
  class SavedStore {
    var entries: seq<SavedEntry>

    constructor (entries: seq<SavedEntry>)
      ensures this.entries == entries
    {
      this.entries := entries;
    }
  }
}
