/**
 * The catalog dialog: the search over course names, the list of sections of
 * the chosen course, and the reading of a section's time text such as
 * "월09:00-10:30" into a day and two time strings.
 */
module LectureSelector {
  import opened Wrappers
  import opened Schedule
  import Seqs
  import Text
  import Clock

  /** One entry of the catalog file: `과목명` (subject), `강의시간` (time text), `강의실` (room). */
  datatype CatalogEntry = CatalogEntry(subject: string, time: string, room: string)

  /**
   * `mappedLecture`. `endTime` is `None` when the time text has no '-', and
   * `day` is `None` when its first character is not a weekday.
   */
  datatype MappedLecture = MappedLecture(
    id: int,
    name: string,
    startTime: string,
    endTime: Option<string>,
    room: string,
    color: string,
    day: Option<Day>)

  // ---------------------------------------------------------------------
  // Searching names

  /** `lectures.map((lec) => lec.과목명)`. */
  function Names(catalog: seq<CatalogEntry>): (r: seq<string>)
    ensures |r| == |catalog| && forall k :: 0 <= k < |catalog| ==> r[k] == catalog[k].subject
  {
    seq(|catalog|, k requires 0 <= k < |catalog| => catalog[k].subject)
  }

  /** `name.toLowerCase().includes(finalText.toLowerCase())`. */
  function Matches(text: string): string -> bool
  {
    (name: string) => Text.Includes(Text.ToLower(name), Text.ToLower(text))
  }

  /** `filteredNames`: the matching names, each once. */
  function FilteredNames(catalog: seq<CatalogEntry>, text: string): seq<string>
  {
    Seqs.Distinct(Seqs.Filter(Names(catalog), Matches(text)))
  }

  /** Every string contains the empty string. */
  lemma IncludesEmpty(s: string)
    ensures Text.Includes(s, [])
  {
    assert s[..0] == [];
  }

  /** A value is a catalog name iff some entry has it. */
  lemma InNames(catalog: seq<CatalogEntry>, n: string)
    ensures n in Names(catalog) <==> exists k :: 0 <= k < |catalog| && catalog[k].subject == n
  {
    if n in Names(catalog) {
      var k :| 0 <= k < |catalog| && Names(catalog)[k] == n;
    }
  }

  /** No name is listed twice. */
  lemma FilteredNamesDistinct(catalog: seq<CatalogEntry>, text: string)
    ensures Seqs.NoDuplicates(FilteredNames(catalog, text))
  {
    Seqs.DistinctHasNoDuplicates(Seqs.Filter(Names(catalog), Matches(text)));
  }

  /**
   * A name is listed iff some catalog entry has it and its lower-case form
   * contains the lower-case search text.
   */
  lemma FilteredNamesMembers(catalog: seq<CatalogEntry>, text: string, n: string)
    ensures n in FilteredNames(catalog, text) <==>
              (exists k :: 0 <= k < |catalog| && catalog[k].subject == n)
              && Text.Includes(Text.ToLower(n), Text.ToLower(text))
  {
    Seqs.FilterMembers(Names(catalog), Matches(text));
    InNames(catalog, n);
  }

  /** An empty search lists every name of the catalog. */
  lemma FilteredNamesEmptySearch(catalog: seq<CatalogEntry>, k: nat)
    requires k < |catalog|
    ensures catalog[k].subject in FilteredNames(catalog, [])
  {
    IncludesEmpty(Text.ToLower(catalog[k].subject));
    FilteredNamesMembers(catalog, [], catalog[k].subject);
  }

  /** Names are listed in the order of their first occurrence in the catalog. */
  lemma FilteredNamesOrder(catalog: seq<CatalogEntry>, text: string, i: nat, j: nat)
    requires i < j < |FilteredNames(catalog, text)|
    ensures var r := FilteredNames(catalog, text);
            r[i] in Names(catalog) && r[j] in Names(catalog)
            && Seqs.FirstIndex(Names(catalog), r[i]) < Seqs.FirstIndex(Names(catalog), r[j])
  {
    var names := Names(catalog);
    var f := Seqs.Filter(names, Matches(text));
    var r := FilteredNames(catalog, text);
    Seqs.FilterMembers(names, Matches(text));
    assert r[i] in f && r[j] in f;
    Seqs.DistinctFirstOccurrenceOrder(f, i, j);
    Seqs.FilterFirstIndexOrder(names, Matches(text), r[i], r[j]);
  }

  // ---------------------------------------------------------------------
  // Sections of the chosen course

  function SubjectIs(name: string): CatalogEntry -> bool
  {
    (e: CatalogEntry) => e.subject == name
  }

  /** `filteredLectures`: the sections of the chosen course. */
  function FilteredLectures(catalog: seq<CatalogEntry>, selectedName: string): seq<CatalogEntry>
  {
    Seqs.Filter(catalog, SubjectIs(selectedName))
  }

  /**
   * Exactly the entries with the chosen name, in catalog order, each as often
   * as the catalog lists it: as many entries as carry the name.
   */
  lemma FilteredLecturesProperties(catalog: seq<CatalogEntry>, selectedName: string)
    ensures forall e :: e in FilteredLectures(catalog, selectedName) <==> e in catalog && e.subject == selectedName
    ensures Seqs.IsSubsequence(FilteredLectures(catalog, selectedName), catalog)
    ensures |FilteredLectures(catalog, selectedName)| == Seqs.Count(catalog, SubjectIs(selectedName))
  {
    Seqs.FilterMembers(catalog, SubjectIs(selectedName));
    Seqs.FilterIsSubsequence(catalog, SubjectIs(selectedName));
    Seqs.FilterLength(catalog, SubjectIs(selectedName));
  }

  // ---------------------------------------------------------------------
  // Reading the time text

  /** The weekday characters of the time text: 월 화 수 목 금. */
  function DayChar(d: Day): char
  {
    match d
    case Mon => '\U{C6D4}'
    case Tue => '\U{D654}'
    case Wed => '\U{C218}'
    case Thu => '\U{BAA9}'
    case Fri => '\U{AE08}'
  }

  /** `dayMap[day]`: `None` for any key other than the five weekday characters. */
  function DayMap(s: string): Option<Day>
  {
    if s == [DayChar(Mon)] then Some(Mon)
    else if s == [DayChar(Tue)] then Some(Tue)
    else if s == [DayChar(Wed)] then Some(Wed)
    else if s == [DayChar(Thu)] then Some(Thu)
    else if s == [DayChar(Fri)] then Some(Fri)
    else None
  }

  /** `dayMap` maps exactly the five weekday characters, each to its own day. */
  lemma DayMapIff(s: string, d: Day)
    ensures DayMap(s) == Some(d) <==> s == [DayChar(d)]
  {
  }

  /** `times.split("-").map((t) => t.trim())`, keeping the first two pieces. */
  function ReadTimes(times: string): (string, Option<string>)
  {
    var pieces := Text.Split(times, '-');
    (Text.Trim(pieces[0]), if |pieces| >= 2 then Some(Text.Trim(pieces[1])) else None)
  }

  /** `handleSelectFinal`'s mapping of a catalog entry, with the colour and `Date.now()` given. */
  function SelectFinal(lec: CatalogEntry, color: string, now: int): MappedLecture
  {
    var day := if |lec.time| >= 1 then lec.time[..1] else lec.time;
    var times := if |lec.time| >= 1 then lec.time[1..] else [];
    var (startTime, endTime) := ReadTimes(times);
    MappedLecture(now, lec.subject, startTime, endTime, lec.room, color, DayMap(day))
  }

  /**
   * The day is the first character read through `dayMap`, and the name and
   * room are copied from the entry.
   */
  lemma SelectFinalDay(lec: CatalogEntry, color: string, now: int, d: Day)
    ensures var r := SelectFinal(lec, color, now);
            && (r.day == Some(d) <==> |lec.time| >= 1 && lec.time[0] == DayChar(d))
            && r.name == lec.subject && r.room == lec.room && r.color == color && r.id == now
  {
    var day := if |lec.time| >= 1 then lec.time[..1] else lec.time;
    DayMapIff(day, d);
    if |lec.time| >= 1 {
      assert day == [lec.time[0]];
    }
  }

  /**
   * For "<a>-<b><rest>" with no '-' in `a` or `b` the times are `a` and `b`
   * trimmed; whatever follows a second '-' is ignored.
   */
  lemma ReadTimesPieces(a: string, b: string, rest: string)
    requires '-' !in a && '-' !in b
    requires rest == [] || rest[0] == '-'
    ensures ReadTimes(a + ['-'] + b + rest) == (Text.Trim(a), Some(Text.Trim(b)))
  {
    assert a + ['-'] + b + rest == a + ['-'] + (b + rest);
    Text.SplitAround(a, b + rest, '-');
    if rest == [] {
      assert b + rest == b;
      Text.SplitNone(b, '-');
    } else {
      assert b + rest == b + ['-'] + rest[1..];
      Text.SplitAround(b, rest[1..], '-');
    }
  }

  /**
   * For a time text "<day><a>-<b><rest>" with no '-' in `a` or `b`, the times
   * are `a` and `b` trimmed, and whatever follows a second '-' is ignored.
   */
  lemma SelectFinalTimes(lec: CatalogEntry, color: string, now: int, d: Day, a: string, b: string, rest: string)
    requires lec.time == [DayChar(d)] + (a + ['-'] + b + rest)
    requires '-' !in a && '-' !in b
    requires rest == [] || rest[0] == '-'
    ensures var r := SelectFinal(lec, color, now);
            && r.day == Some(d)
            && r.startTime == Text.Trim(a)
            && r.endTime == Some(Text.Trim(b))
  {
    SelectFinalDay(lec, color, now, d);
    assert lec.time[1..] == a + ['-'] + b + rest;
    ReadTimesPieces(a, b, rest);
  }

  /** A time text without '-' gives no end time. */
  lemma SelectFinalNoDash(lec: CatalogEntry, color: string, now: int)
    requires |lec.time| >= 1 && '-' !in lec.time[1..]
    ensures SelectFinal(lec, color, now).endTime == None
    ensures SelectFinal(lec, color, now).startTime == Text.Trim(lec.time[1..])
  {
    Text.SplitNone(lec.time[1..], '-');
  }

  lemma FormatUntrimmed(h: nat, m: nat)
    requires h < 100 && m < 100
    ensures Text.Trim(Clock.Format(h, m)) == Clock.Format(h, m)
  {
    var s := Clock.Format(h, m);
    assert s[0] == Clock.DigitChar(h / 10) && s[4] == Clock.DigitChar(m % 10);
    Text.TrimUntouched(s);
  }

  /**
   * A well-formed catalog time "<day>HH:mm-HH:mm" reads back as that day and
   * the two times, which both parsers turn into the minute counts.
   */
  lemma SelectFinalRoundTrip(lec: CatalogEntry, color: string, now: int, d: Day, h1: nat, m1: nat, h2: nat, m2: nat)
    requires h1 < 100 && m1 < 100 && h2 < 100 && m2 < 100
    requires lec.time == [DayChar(d)] + Clock.Format(h1, m1) + ['-'] + Clock.Format(h2, m2)
    ensures var r := SelectFinal(lec, color, now);
            && r.day == Some(d)
            && r.endTime.Some?
            && Clock.ParseTime(r.startTime) == Some(h1 * 60 + m1)
            && Clock.ParseTime(r.endTime.value) == Some(h2 * 60 + m2)
  {
    var a, b := Clock.Format(h1, m1), Clock.Format(h2, m2);
    assert '-' !in a by {
      assert forall k :: 0 <= k < |a| ==> a[k] == ':' || Clock.IsDigit(a[k]);
    }
    assert '-' !in b by {
      assert forall k :: 0 <= k < |b| ==> b[k] == ':' || Clock.IsDigit(b[k]);
    }
    assert lec.time == [DayChar(d)] + (a + ['-'] + b + []);
    SelectFinalTimes(lec, color, now, d, a, b, []);
    FormatUntrimmed(h1, m1);
    FormatUntrimmed(h2, m2);
    Clock.FormatRoundTrip(h1, m1);
    Clock.FormatRoundTrip(h2, m2);
  }
}
