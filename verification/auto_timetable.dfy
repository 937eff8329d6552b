/**
 * The automatic-timetable screen (src/Timetable/AutoTimeTable.jsx): the list
 * of selected lectures and `handleGenerate`, which runs the generator and then
 * reduces its results. Empty timetables are dropped, the rest are sorted by
 * block count (largest first), every timetable whose names fit, day by day,
 * inside another one's is removed, and each day of the survivors is sorted by
 * start time.
 */
module AutoTimeTable {
  import opened Wrappers
  import opened Schedule
  import Seqs
  import TimeTableGenerator

  // ---------------------------------------------------------------------
  // Selecting lectures

  /** A lecture handed over by the selector; `day` is `None` when the day map had no entry. */
  datatype Candidate = Candidate(name: string, day: Option<Day>, start: int, end: int, room: Option<string>)

  /** A lecture in the selected list: a candidate that passed the check, with its id. */
  datatype Selected = Selected(name: string, day: Day, start: int, end: int, room: Option<string>, id: int)

  /** The test `l => l.id !== id` of the remove button. */
  function IdIsNot(id: int): Selected -> bool
  {
    (l: Selected) => l.id != id
  }

  function IdIs(id: int): Selected -> bool
  {
    (l: Selected) => l.id == id
  }

  /**
   * `prev.filter((l) => l.id !== lec.id)`: exactly the lectures with another
   * id stay, in their order and each as often as before, and the list
   * shrinks by the number of lectures with that id.
   */
  function RemoveById(sel: seq<Selected>, id: int): (r: seq<Selected>)
    ensures forall l :: l in r <==> l in sel && l.id != id
    ensures Seqs.IsSubsequence(r, sel)
    ensures |r| == |sel| - Seqs.Count(sel, IdIs(id))
  {
    Seqs.FilterMembers(sel, IdIsNot(id));
    Seqs.FilterIsSubsequence(sel, IdIsNot(id));
    Seqs.FilterLength(sel, IdIsNot(id));
    Seqs.CountComplement(sel, IdIs(id), IdIsNot(id));
    Seqs.Filter(sel, IdIsNot(id))
  }

  /** The generator's view of a selected lecture: one slot on its day. */
  function AsLecture(s: Selected): TimeTableGenerator.Lecture
  {
    TimeTableGenerator.Lecture(s.name, [TimeTableGenerator.Slot(s.day, s.start, s.end)])
  }

  function AsLectures(sel: seq<Selected>): (r: seq<TimeTableGenerator.Lecture>)
    ensures |r| == |sel| && forall k :: 0 <= k < |sel| ==> r[k] == AsLecture(sel[k])
  {
    seq(|sel|, k requires 0 <= k < |sel| => AsLecture(sel[k]))
  }

  // ---------------------------------------------------------------------
  // Dropping empty timetables and sorting by size

  /** The table holds at least one block over the five days. */
  predicate NonEmpty(w: Week)
  {
    TotalBlocks(w) > 0
  }

  /** The sort key of `(a, b) => countB - countA`: more blocks sort first. */
  function Weight(w: Week): int
  {
    -(TotalBlocks(w) as int)
  }

  // ---------------------------------------------------------------------
  // Name containment

  /** `new Set(table[day].map((lec) => lec.name))`. */
  function NamesOn(w: Week, d: Day): set<string>
  {
    set b | b in w.Get(d) :: b.name
  }

  predicate SubsetOn(small: Week, large: Week, d: Day)
  {
    NamesOn(small, d) <= NamesOn(large, d)
  }

  /** `isSubset(small, large)`: on every weekday, each name in `small` is also in `large`. */
  predicate IsSubset(small: Week, large: Week)
  {
    && SubsetOn(small, large, Mon) && SubsetOn(small, large, Tue) && SubsetOn(small, large, Wed)
    && SubsetOn(small, large, Thu) && SubsetOn(small, large, Fri)
  }

  /** The test spelled out block by block: every block of `small` has a namesake on the same day of `large`. */
  lemma IsSubsetIff(small: Week, large: Week)
    ensures IsSubset(small, large)
        <==> forall d, b :: b in small.Get(d) ==> exists c :: c in large.Get(d) && c.name == b.name
  {
    if IsSubset(small, large) {
      forall d, b | b in small.Get(d) ensures exists c :: c in large.Get(d) && c.name == b.name {
        assert SubsetOn(small, large, d);
        assert b.name in NamesOn(small, d);
      }
    }
    if forall d, b :: b in small.Get(d) ==> exists c :: c in large.Get(d) && c.name == b.name {
      forall d ensures SubsetOn(small, large, d) {
        forall n | n in NamesOn(small, d) ensures n in NamesOn(large, d) {
          var b :| b in small.Get(d) && b.name == n;
          var c :| c in large.Get(d) && c.name == b.name;
        }
      }
    }
  }

  lemma IsSubsetReflexive(w: Week)
    ensures IsSubset(w, w)
  {
  }

  lemma IsSubsetTransitive(a: Week, b: Week, c: Week)
    requires IsSubset(a, b) && IsSubset(b, c)
    ensures IsSubset(a, c)
  {
  }

  // ---------------------------------------------------------------------
  // Removing dominated timetables

  // The pruning is stated for any relation `sub` ("is contained in"); the
  // screen uses it with `IsSubset`.

  /** Some other position of `rs` holds a value that `rs[i]` is contained in. */
  predicate Dominated<T>(rs: seq<T>, i: nat, sub: (T, T) -> bool)
    requires i < |rs|
  {
    exists j :: 0 <= j < |rs| && j != i && sub(rs[i], rs[j])
  }

  /** What `filtered` holds after the outer loop has looked at the first `n` positions. */
  function Kept<T>(rs: seq<T>, n: nat, sub: (T, T) -> bool): (r: seq<T>)
    requires n <= |rs|
    ensures |r| <= n
  {
    if n == 0 then []
    else Kept(rs, n - 1, sub) + (if Dominated(rs, n - 1, sub) then [] else [rs[n - 1]])
  }

  /** The inner loop of the pruning: does some other position hold a value that `rs[i]` is contained in? */
  method FindSuperset<T>(rs: seq<T>, i: nat, sub: (T, T) -> bool) returns (subsetFound: bool)
    requires i < |rs|
    ensures subsetFound <==> Dominated(rs, i, sub)
  {
    subsetFound := false;
    var j := 0;
    while j < |rs|
      invariant 0 <= j <= |rs|
      invariant forall k :: 0 <= k < j && k != i ==> !sub(rs[i], rs[k])
    {
      if i != j && sub(rs[i], rs[j]) {
        subsetFound := true;
        return;
      }
      j := j + 1;
    }
  }

  /** One more position: `Kept` grows by that position's value exactly when it is not dominated. */
  lemma KeptStep<T>(rs: seq<T>, i: nat, sub: (T, T) -> bool, dominated: bool)
    requires i < |rs| && (dominated <==> Dominated(rs, i, sub))
    ensures Kept(rs, i + 1, sub) == if dominated then Kept(rs, i, sub) else Kept(rs, i, sub) + [rs[i]]
  {
  }

  /**
   * The nested loops of `handleGenerate`: position `i` is kept iff no other
   * position `j` holds a value that `sub` puts it in. The screen passes
   * `IsSubset`.
   */
  method PruneDominated<T>(rs: seq<T>, sub: (T, T) -> bool) returns (filtered: seq<T>)
    ensures filtered == Kept(rs, |rs|, sub)
  {
    filtered := [];
    var i := 0;
    while i < |rs|
      invariant 0 <= i <= |rs|
      invariant filtered == Kept(rs, i, sub)
    {
      var subsetFound := FindSuperset(rs, i, sub);
      KeptStep(rs, i, sub, subsetFound);
      if !subsetFound {
        filtered := filtered + [rs[i]];
      }
      i := i + 1;
    }
  }

  /** A value survives iff it sits at a position that is not dominated. */
  lemma {:induction false} KeptMembers<T>(rs: seq<T>, n: nat, sub: (T, T) -> bool, x: T)
    requires n <= |rs|
    ensures x in Kept(rs, n, sub) <==> exists i :: 0 <= i < n && rs[i] == x && !Dominated(rs, i, sub)
  {
    if n > 0 {
      KeptMembers(rs, n - 1, sub, x);
      var tail := if Dominated(rs, n - 1, sub) then [] else [rs[n - 1]];
      assert Kept(rs, n, sub) == Kept(rs, n - 1, sub) + tail;
      assert x in Kept(rs, n, sub) <==> x in Kept(rs, n - 1, sub) || x in tail;
    }
  }

  /** No two positions of the list hold values related by `sub`. */
  predicate Antichain<T>(s: seq<T>, sub: (T, T) -> bool)
  {
    forall p, q :: 0 <= p < |s| && 0 <= q < |s| && p != q ==> !sub(s[p], s[q])
  }

  lemma AntichainSnoc<T>(prev: seq<T>, x: T, sub: (T, T) -> bool)
    requires Antichain(prev, sub)
    requires forall p :: 0 <= p < |prev| ==> !sub(prev[p], x) && !sub(x, prev[p])
    ensures Antichain(prev + [x], sub)
  {
  }

  /** No survivor is contained in another survivor. */
  lemma {:induction false} KeptAntichain<T>(rs: seq<T>, n: nat, sub: (T, T) -> bool)
    requires n <= |rs|
    ensures Antichain(Kept(rs, n, sub), sub)
  {
    if n > 0 {
      KeptAntichain(rs, n - 1, sub);
      var prev := Kept(rs, n - 1, sub);
      if !Dominated(rs, n - 1, sub) {
        forall p | 0 <= p < |prev|
          ensures !sub(prev[p], rs[n - 1]) && !sub(rs[n - 1], prev[p])
        {
          KeptMembers(rs, n - 1, sub, prev[p]);
          var i :| 0 <= i < n - 1 && rs[i] == prev[p] && !Dominated(rs, i, sub);
        }
        AntichainSnoc(prev, rs[n - 1], sub);
      }
    }
  }

  /** The survivors come out in their original order. */
  lemma {:induction false} KeptSubsequence<T(!new)>(rs: seq<T>, n: nat, sub: (T, T) -> bool)
    requires n <= |rs|
    ensures Seqs.IsSubsequence(Kept(rs, n, sub), rs[..n])
  {
    if n > 0 {
      var prev := Kept(rs, n - 1, sub);
      KeptSubsequence(rs, n - 1, sub);
      Seqs.SubsequenceExtend(prev, rs[..n - 1], rs[n - 1]);
      assert rs[..n] == rs[..n - 1] + [rs[n - 1]];
      if Dominated(rs, n - 1, sub) {
        assert Kept(rs, n, sub) == prev;
      } else {
        assert Kept(rs, n, sub) == prev + [rs[n - 1]];
      }
    }
  }

  /** Dropping positions keeps a sorted list sorted. */
  lemma {:induction false} KeptSorted<T(!new)>(rs: seq<T>, n: nat, sub: (T, T) -> bool, key: T -> int)
    requires n <= |rs|
    requires Seqs.SortedBy(rs, key)
    ensures Seqs.SortedBy(Kept(rs, n, sub), key)
  {
    if n > 0 {
      KeptSorted(rs, n - 1, sub, key);
      var prev := Kept(rs, n - 1, sub);
      if !Dominated(rs, n - 1, sub) {
        forall p | 0 <= p < |prev| ensures key(prev[p]) <= key(rs[n - 1]) {
          KeptMembers(rs, n - 1, sub, prev[p]);
          var i :| 0 <= i < n - 1 && rs[i] == prev[p] && !Dominated(rs, i, sub);
        }
        Seqs.SortedSnoc(prev, rs[n - 1], key);
      }
    }
  }

  /** For a reflexive `sub`, two positions holding the same value remove each other: neither survives. */
  lemma EqualBothRemoved<T>(rs: seq<T>, i: nat, j: nat, sub: (T, T) -> bool)
    requires forall x :: sub(x, x)
    requires i < |rs| && j < |rs| && i != j && rs[i] == rs[j]
    ensures rs[i] !in Kept(rs, |rs|, sub)
  {
    KeptMembers(rs, |rs|, sub, rs[i]);
    forall k | 0 <= k < |rs| && rs[k] == rs[i] ensures Dominated(rs, k, sub) {
      if k == i {
        assert sub(rs[k], rs[j]);
      } else {
        assert sub(rs[k], rs[i]);
      }
    }
  }

  /** Two positions holding values contained in each other remove each other: neither value survives. */
  lemma MutualBothRemoved<T>(rs: seq<T>, i: nat, j: nat, sub: (T, T) -> bool)
    requires i < |rs| && j < |rs| && i != j
    requires sub(rs[i], rs[j]) && sub(rs[j], rs[i])
    ensures rs[i] !in Kept(rs, |rs|, sub) && rs[j] !in Kept(rs, |rs|, sub)
  {
    KeptMembers(rs, |rs|, sub, rs[i]);
    KeptMembers(rs, |rs|, sub, rs[j]);
    forall k | 0 <= k < |rs| && (rs[k] == rs[i] || rs[k] == rs[j]) ensures Dominated(rs, k, sub) {
      if rs[k] == rs[i] {
        if k == j {
          assert sub(rs[k], rs[i]);
        } else {
          assert sub(rs[k], rs[j]);
        }
      } else {
        if k == i {
          assert sub(rs[k], rs[j]);
        } else {
          assert sub(rs[k], rs[i]);
        }
      }
    }
  }

  /**
   * Two timetables with the same names on every day remove each other,
   * whatever their times: `i !== j` is the only tie-break.
   */
  lemma SameNamesBothRemoved(rs: seq<Week>, i: nat, j: nat)
    requires i < |rs| && j < |rs| && i != j
    requires forall d :: NamesOn(rs[i], d) == NamesOn(rs[j], d)
    ensures rs[i] !in Kept(rs, |rs|, IsSubset) && rs[j] !in Kept(rs, |rs|, IsSubset)
  {
    MutualBothRemoved(rs, i, j, IsSubset);
  }

  /** When every position is dominated, nothing survives. */
  lemma AllDominatedNoneKept<T>(rs: seq<T>, sub: (T, T) -> bool)
    requires forall i :: 0 <= i < |rs| ==> Dominated(rs, i, sub)
    ensures Kept(rs, |rs|, sub) == []
  {
    var k := Kept(rs, |rs|, sub);
    if k != [] {
      assert k[0] in k;
      KeptMembers(rs, |rs|, sub, k[0]);
    }
  }

  /** When any two positions are related, every position is dominated and nothing survives. */
  lemma AllRelatedNoneKept<T>(rs: seq<T>, sub: (T, T) -> bool)
    requires |rs| >= 2
    requires forall p, q :: 0 <= p < |rs| && 0 <= q < |rs| ==> sub(rs[p], rs[q])
    ensures Kept(rs, |rs|, sub) == []
  {
    forall i | 0 <= i < |rs| ensures Dominated(rs, i, sub) {
      var j := if i == 0 then 1 else 0;
      assert sub(rs[i], rs[j]);
    }
    AllDominatedNoneKept(rs, sub);
  }

  /** `BySize` holds the non-empty results, as many as there are. */
  lemma BySizeMembers(results: seq<Week>)
    ensures |BySize(results)| == |Seqs.Filter(results, NonEmpty)|
    ensures forall x :: x in BySize(results) ==> x in results && NonEmpty(x)
  {
    var nonEmpty := Seqs.Filter(results, NonEmpty);
    Seqs.FilterMembers(results, NonEmpty);
    Seqs.SortBySorted(nonEmpty, Weight);
    forall x | x in BySize(results) ensures x in results && NonEmpty(x) {
      assert x in multiset(BySize(results));
    }
  }

  /**
   * When at least two non-empty results exist and all of them carry the same
   * names on every day (two sections of one course, say), the reduction
   * removes them all and `handleGenerate` shows an empty list.
   */
  lemma SameNamesLeaveNothing(results: seq<Week>)
    requires |Seqs.Filter(results, NonEmpty)| >= 2
    requires forall x, y :: x in results && y in results && NonEmpty(x) && NonEmpty(y) ==> IsSubset(x, y)
    ensures Reduce(results) == Some([])
  {
    var sorted := BySize(results);
    BySizeMembers(results);
    forall p, q | 0 <= p < |sorted| && 0 <= q < |sorted| ensures IsSubset(sorted[p], sorted[q]) {
      assert sorted[p] in sorted && sorted[q] in sorted;
    }
    AllRelatedNoneKept(sorted, IsSubset);
  }

  /** The two Monday sections of course "A" used below: 9:00-10:00 and 11:00-12:00. */
  function TwoSections(): seq<Selected>
  {
    [Selected("A", Mon, 540, 600, None, 1), Selected("A", Mon, 660, 720, None, 2)]
  }

  function MondayOnly(day: seq<Block>): Week
  {
    Week(day, [], [], [], [])
  }

  /** The generator's results for the two sections: {}, {A@11}, {A@9}, {A@9, A@11}. */
  lemma TwoSectionsResults()
    ensures var b1, b2 := Block("A", 540, 600, "c", None, None), Block("A", 660, 720, "c", None, None);
            TimeTableGenerator.Enumerate(AsLectures(TwoSections()), 0, Empty, "c")
            == [Empty, MondayOnly([b2]), MondayOnly([b1]), MondayOnly([b1, b2])]
  {
    var lectures := AsLectures(TwoSections());
    var l1, l2 := lectures[0], lectures[1];
    var b1, b2 := Block("A", 540, 600, "c", None, None), Block("A", 660, 720, "c", None, None);
    assert TimeTableGenerator.Prefix(l1, 0).slots == [];
    assert TimeTableGenerator.Prefix(l2, 0).slots == [];
    var w1 := TimeTableGenerator.Placed(Empty, l1, "c");
    assert w1 == MondayOnly([b1]);
    assert TimeTableGenerator.Placed(Empty, l2, "c") == MondayOnly([b2]);
    assert TimeTableGenerator.Placed(w1, l2, "c") == MondayOnly([b1, b2]);
    assert TimeTableGenerator.CanPlaceLecture(Empty, l1.slots);
    assert TimeTableGenerator.CanPlaceLecture(Empty, l2.slots);
    assert TimeTableGenerator.CanPlaceLecture(w1, l2.slots) by {
      assert Fits(w1.Get(Mon), 660, 720);
    }
    TimeTableGenerator.EnumerateUnfold(lectures, 0, Empty, "c");
    TimeTableGenerator.EnumerateUnfold(lectures, 1, Empty, "c");
    TimeTableGenerator.EnumerateUnfold(lectures, 1, w1, "c");
  }

  /** Only the three non-empty results pass the first filter. */
  lemma TwoSectionsNonEmpty(w1: Week, w2: Week, w12: Week)
    requires NonEmpty(w1) && NonEmpty(w2) && NonEmpty(w12)
    ensures Seqs.Filter([Empty, w2, w1, w12], NonEmpty) == [w2, w1, w12]
  {
    assert [Empty, w2, w1, w12] == [Empty] + [w2, w1, w12] && [w2, w1, w12] == [w2] + [w1, w12];
    assert [w1, w12] == [w1] + [w12] && [w12] == [w12] + [];
    Seqs.FilterCons(Empty, [w2, w1, w12], NonEmpty);
    Seqs.FilterCons(w2, [w1, w12], NonEmpty);
    Seqs.FilterCons(w1, [w12], NonEmpty);
    Seqs.FilterCons(w12, [], NonEmpty);
  }

  /** A Monday-only table whose blocks all belong to course "A" names "A" on Monday and nothing else. */
  lemma OnlyANames(day: seq<Block>, d: Day)
    requires day != [] && forall b :: b in day ==> b.name == "A"
    ensures NamesOn(MondayOnly(day), d) == if d == Mon then {"A"} else {}
  {
    if d == Mon {
      assert day[0] in day;
    }
  }

  /** Any two of the three non-empty results contain each other. */
  lemma TwoSectionsRelated(results: seq<Week>, b1: Block, b2: Block)
    requires b1.name == "A" && b2.name == "A"
    requires results == [Empty, MondayOnly([b2]), MondayOnly([b1]), MondayOnly([b1, b2])]
    ensures forall x, y :: x in results && y in results && NonEmpty(x) && NonEmpty(y) ==> IsSubset(x, y)
  {
    forall x, d | x in results && NonEmpty(x) ensures NamesOn(x, d) == if d == Mon then {"A"} else {} {
      if x == MondayOnly([b2]) {
        OnlyANames([b2], d);
      } else if x == MondayOnly([b1]) {
        OnlyANames([b1], d);
      } else if x == MondayOnly([b1, b2]) {
        OnlyANames([b1, b2], d);
      }
    }
  }

  /** When the reduction leaves nothing, `handleGenerate` replaces the list with an empty one. */
  lemma GenerateReducesToNothing(sel: seq<Selected>, color: string, previous: seq<Week>, results: seq<Week>)
    requires sel != [] && TimeTableGenerator.Enumerate(AsLectures(sel), 0, Empty, color) == results
    requires Reduce(results) == Some([])
    ensures Generate(sel, color, previous) == []
  {
  }

  /**
   * Two Monday sections of course "A", 9:00-10:00 and 11:00-12:00: every
   * non-empty result holds only "A" on Monday, so the reduction removes all
   * three and `handleGenerate` shows an empty list.
   */
  lemma TwoSectionsLeaveNothing(previous: seq<Week>)
    ensures Generate(TwoSections(), "c", previous) == []
  {
    var b1, b2 := Block("A", 540, 600, "c", None, None), Block("A", 660, 720, "c", None, None);
    var w1, w2, w12 := MondayOnly([b1]), MondayOnly([b2]), MondayOnly([b1, b2]);
    var results := [Empty, w2, w1, w12];
    TwoSectionsResults();
    TwoSectionsNonEmpty(w1, w2, w12);
    TwoSectionsRelated(results, b1, b2);
    SameNamesLeaveNothing(results);
    GenerateReducesToNothing(TwoSections(), "c", previous, results);
  }

  /** In a list that is already an antichain nothing is dominated, so nothing is removed. */
  lemma {:induction false} KeptOfAntichain<T>(s: seq<T>, n: nat, sub: (T, T) -> bool)
    requires n <= |s| && Antichain(s, sub)
    ensures Kept(s, n, sub) == s[..n]
  {
    if n > 0 {
      KeptOfAntichain(s, n - 1, sub);
      assert !Dominated(s, n - 1, sub);
      assert s[..n] == s[..n - 1] + [s[n - 1]];
    }
  }

  /** Running the loop again on its own output keeps everything. */
  lemma PruneIdempotent<T>(rs: seq<T>, sub: (T, T) -> bool)
    ensures Kept(Kept(rs, |rs|, sub), |Kept(rs, |rs|, sub)|, sub) == Kept(rs, |rs|, sub)
  {
    var k := Kept(rs, |rs|, sub);
    KeptAntichain(rs, |rs|, sub);
    KeptOfAntichain(k, |k|, sub);
    assert k[..|k|] == k;
  }

  // ---------------------------------------------------------------------
  // Sorting each day by start time

  /** `aH * 60 + aM` for a block's start time. */
  function StartOf(b: Block): int
  {
    b.start
  }

  /** `days.forEach((day) => table[day].sort(...))` on one timetable. */
  function SortDays(w: Week): Week
  {
    Week(Seqs.SortBy(w.mon, StartOf), Seqs.SortBy(w.tue, StartOf), Seqs.SortBy(w.wed, StartOf),
         Seqs.SortBy(w.thu, StartOf), Seqs.SortBy(w.fri, StartOf))
  }

  lemma SortDaysGet(w: Week, d: Day)
    ensures SortDays(w).Get(d) == Seqs.SortBy(w.Get(d), StartOf)
  {
  }

  /** Lists holding the same blocks give the same name set. */
  lemma SameNames(s: seq<Block>, t: seq<Block>)
    requires multiset(s) == multiset(t)
    ensures (set b | b in s :: b.name) == (set b | b in t :: b.name)
  {
    forall b ensures b in s <==> b in t {
      assert b in s <==> b in multiset(s);
      assert b in t <==> b in multiset(t);
    }
  }

  /**
   * Sorting the days orders every day by start time, keeps the same blocks
   * on every day, and so keeps the block count and the name sets.
   */
  lemma SortDaysProperties(w: Week)
    ensures forall d :: Seqs.SortedBy(SortDays(w).Get(d), StartOf)
    ensures forall d :: multiset(SortDays(w).Get(d)) == multiset(w.Get(d))
    ensures TotalBlocks(SortDays(w)) == TotalBlocks(w)
    ensures forall d :: NamesOn(SortDays(w), d) == NamesOn(w, d)
  {
    forall d ensures Seqs.SortedBy(SortDays(w).Get(d), StartOf)
                && multiset(SortDays(w).Get(d)) == multiset(w.Get(d))
                && NamesOn(SortDays(w), d) == NamesOn(w, d)
    {
      SortDaysGet(w, d);
      Seqs.SortBySorted(w.Get(d), StartOf);
      SameNames(SortDays(w).Get(d), w.Get(d));
    }
  }

  /** Sorting the days does not change which timetables contain which. */
  lemma SortDaysIsSubset(a: Week, b: Week)
    ensures IsSubset(SortDays(a), SortDays(b)) <==> IsSubset(a, b)
  {
    SortDaysProperties(a);
    SortDaysProperties(b);
  }

  /** Every timetable of the list, sorted day by day. */
  function SortAll(tables: seq<Week>): (r: seq<Week>)
    ensures |r| == |tables|
  {
    seq(|tables|, k requires 0 <= k < |tables| => SortDays(tables[k]))
  }

  /** Sorting the days keeps every timetable's block count. */
  lemma SortAllBlocks(tables: seq<Week>)
    ensures forall t :: 0 <= t < |tables| ==> TotalBlocks(SortAll(tables)[t]) == TotalBlocks(tables[t])
  {
    forall t | 0 <= t < |tables| ensures TotalBlocks(SortAll(tables)[t]) == TotalBlocks(tables[t]) {
      SortDaysProperties(tables[t]);
    }
  }

  /** Sorting the days keeps a list ordered from most to fewest blocks. */
  lemma SortAllBySize(tables: seq<Week>)
    requires Seqs.SortedBy(tables, Weight)
    ensures Seqs.SortedBy(SortAll(tables), Weight)
  {
    SortAllBlocks(tables);
  }

  /** Sorting the days keeps an antichain an antichain. */
  lemma SortAllAntichain(tables: seq<Week>)
    requires Antichain(tables, IsSubset)
    ensures Antichain(SortAll(tables), IsSubset)
  {
    var g := SortAll(tables);
    forall p, q | 0 <= p < |g| && 0 <= q < |g| && p != q ensures !IsSubset(g[p], g[q]) {
      SortDaysIsSubset(tables[p], tables[q]);
    }
  }

  /** After sorting, every day of every timetable runs by start time. */
  lemma SortAllDays(tables: seq<Week>)
    ensures forall t, d :: 0 <= t < |tables| ==> Seqs.SortedBy(SortAll(tables)[t].Get(d), StartOf)
  {
    forall t, d | 0 <= t < |tables| ensures Seqs.SortedBy(SortAll(tables)[t].Get(d), StartOf) {
      SortDaysGet(tables[t], d);
      Seqs.SortBySorted(tables[t].Get(d), StartOf);
    }
  }

  lemma SortAllSnoc(tables: seq<Week>, w: Week)
    ensures SortAll(tables + [w]) == SortAll(tables) + [SortDays(w)]
  {
    var a, b := SortAll(tables + [w]), SortAll(tables) + [SortDays(w)];
    assert |a| == |b|;
    forall k | 0 <= k < |a| ensures a[k] == b[k] {
      if k < |tables| {
        assert (tables + [w])[k] == tables[k];
      }
    }
  }

  /** The `forEach` over the survivors, each sorted day by day. */
  method SortEveryDay(tables: seq<Week>) returns (out: seq<Week>)
    ensures out == SortAll(tables)
  {
    out := [];
    var k := 0;
    while k < |tables|
      invariant 0 <= k <= |tables|
      invariant out == SortAll(tables[..k])
    {
      assert tables[..k + 1] == tables[..k] + [tables[k]];
      SortAllSnoc(tables[..k], tables[k]);
      out := out + [SortDays(tables[k])];
      k := k + 1;
    }
    assert tables[..k] == tables;
  }

  // ---------------------------------------------------------------------
  // The whole reduction

  /** The non-empty results, from most to fewest blocks. */
  function BySize(results: seq<Week>): seq<Week>
  {
    Seqs.SortBy(Seqs.Filter(results, NonEmpty), Weight)
  }

  /** The timetables of `BySize` that no other one contains. */
  function Survivors(results: seq<Week>): seq<Week>
  {
    Kept(BySize(results), |BySize(results)|, IsSubset)
  }

  /**
   * What `handleGenerate` makes of the generator's results: `None` when no
   * non-empty timetable is left (the "no possible timetable" alert).
   */
  function Reduce(results: seq<Week>): Option<seq<Week>>
  {
    if Seqs.Filter(results, NonEmpty) == [] then None
    else Some(SortAll(Survivors(results)))
  }

  /** Every survivor is a non-empty generator result. */
  lemma SurvivorsFromResults(results: seq<Week>)
    ensures forall x :: x in Survivors(results) ==> x in results && NonEmpty(x)
  {
    var nonEmpty := Seqs.Filter(results, NonEmpty);
    var sorted := BySize(results);
    Seqs.FilterMembers(results, NonEmpty);
    Seqs.SortBySorted(nonEmpty, Weight);
    forall x | x in Survivors(results) ensures x in results && NonEmpty(x) {
      KeptMembers(sorted, |sorted|, IsSubset, x);
      var i :| 0 <= i < |sorted| && sorted[i] == x && !Dominated(sorted, i, IsSubset);
      assert x in multiset(sorted);
    }
  }

  /** Every timetable shown is non-empty and is, day by day, a reordering of a generator result. */
  lemma ReduceFromResults(results: seq<Week>)
    requires Reduce(results).Some?
    ensures var g := Reduce(results).value;
            forall t :: 0 <= t < |g| ==> NonEmpty(g[t]) && exists r :: r in results && g[t] == SortDays(r)
  {
    var kept := Survivors(results);
    var g := SortAll(kept);
    SurvivorsFromResults(results);
    forall t | 0 <= t < |g| ensures NonEmpty(g[t]) && exists r :: r in results && g[t] == SortDays(r) {
      assert kept[t] in kept;
      SortDaysProperties(kept[t]);
    }
  }

  /** The timetables shown run from most to fewest blocks. */
  lemma ReduceBySize(results: seq<Week>)
    requires Reduce(results).Some?
    ensures var g := Reduce(results).value;
            forall s, t :: 0 <= s < t < |g| ==> TotalBlocks(g[s]) >= TotalBlocks(g[t])
  {
    var sorted := BySize(results);
    var kept := Survivors(results);
    var g := SortAll(kept);
    Seqs.SortBySorted(Seqs.Filter(results, NonEmpty), Weight);
    KeptSorted(sorted, |sorted|, IsSubset, Weight);
    SortAllBySize(kept);
    forall s, t | 0 <= s < t < |g| ensures TotalBlocks(g[s]) >= TotalBlocks(g[t]) {
      assert Weight(g[s]) <= Weight(g[t]);
    }
  }

  /** No timetable shown has its names, day by day, inside those of another one shown. */
  lemma ReduceAntichain(results: seq<Week>)
    requires Reduce(results).Some?
    ensures Antichain(Reduce(results).value, IsSubset)
  {
    var sorted := BySize(results);
    KeptAntichain(sorted, |sorted|, IsSubset);
    SortAllAntichain(Survivors(results));
  }

  /** Every day of every timetable shown runs by start time. */
  lemma ReduceDaysSorted(results: seq<Week>)
    requires Reduce(results).Some?
    ensures var g := Reduce(results).value;
            forall t, d :: 0 <= t < |g| ==> Seqs.SortedBy(g[t].Get(d), StartOf)
  {
    SortAllDays(Survivors(results));
  }

  // ---------------------------------------------------------------------
  // The screen

  /** What `handleGenerate` leaves in `generated`. */
  function Generate(sel: seq<Selected>, color: string, previous: seq<Week>): seq<Week>
  {
    if sel == [] then previous
    else
      match Reduce(TimeTableGenerator.Enumerate(AsLectures(sel), 0, Empty, color))
      case None => previous
      case Some(g) => g
  }

  /** The state of the automatic-timetable screen that its handlers change. */
  class AutoTimeTablePage {
    /** `selectedLectures`. */
    var selected: seq<Selected>
    /** `generated`: the timetables offered for preview. */
    var generated: seq<Week>

    constructor ()
      ensures selected == [] && generated == []
    {
      selected := [];
      generated := [];
    }

    /** `handleLectureSelect`: a lecture without a name or a day is refused. */
    method SelectLecture(c: Candidate, id: int)
      modifies this
      ensures c.name == [] || c.day.None? ==> selected == old(selected)
      ensures c.name != [] && c.day.Some? ==>
                selected == old(selected) + [Selected(c.name, c.day.value, c.start, c.end, c.room, id)]
      ensures generated == old(generated)
    {
      if c.name == [] || c.day.None? {
        return;
      }
      selected := selected + [Selected(c.name, c.day.value, c.start, c.end, c.room, id)];
    }

    /** The remove button of a selected lecture. */
    method RemoveSelected(id: int)
      modifies this
      ensures selected == RemoveById(old(selected), id)
      ensures generated == old(generated)
    {
      selected := Seqs.Filter(selected, IdIsNot(id));
    }

    /** `handleGenerate`. */
    method HandleGenerate(color: string)
      modifies this
      ensures selected == old(selected)
      ensures generated == Generate(old(selected), color, old(generated))
    {
      if |selected| == 0 {
        return;
      }
      var lectures := AsLectures(selected);
      var results := TimeTableGenerator.GenerateAllValidTimetables(lectures, color);
      var nonEmpty := Seqs.Filter(results, NonEmpty);
      if |nonEmpty| == 0 {
        return;
      }
      var sorted := Seqs.SortBy(nonEmpty, Weight);
      var filtered := PruneDominated(sorted, IsSubset);
      assert sorted == BySize(results);
      var tables := SortEveryDay(filtered);
      generated := tables;
    }
  }
}
