/**
 * The screen that lists the saved timetables: choosing one by name, showing
 * it, and deleting it.
 */
module SavedTimeTable {
  import opened Wrappers
  import opened Schedule
  import Seqs

  /** `savedTables.find((t) => t.name === name)`: the first entry with that name. */
  function Find(entries: seq<SavedEntry>, name: string): (r: Option<SavedEntry>)
  {
    if entries == [] then None
    else if entries[0].name == name then Some(entries[0])
    else Find(entries[1..], name)
  }

  /**
   * `Find` answers the first entry carrying the name, and nothing exactly
   * when no entry carries it.
   */
  lemma {:induction false} FindFirst(entries: seq<SavedEntry>, name: string)
    ensures Find(entries, name).None? <==> forall k :: 0 <= k < |entries| ==> entries[k].name != name
    ensures Find(entries, name).Some? ==>
              exists k :: 0 <= k < |entries| && entries[k] == Find(entries, name).value
                          && entries[k].name == name
                          && forall j :: 0 <= j < k ==> entries[j].name != name
  {
    if entries != [] && entries[0].name != name {
      var rest := entries[1..];
      FindFirst(rest, name);
      if Find(rest, name).Some? {
        var k :| 0 <= k < |rest| && rest[k] == Find(rest, name).value && rest[k].name == name
                 && forall j :: 0 <= j < k ==> rest[j].name != name;
        assert entries[k + 1] == rest[k];
        forall j | 0 <= j < k + 1 ensures entries[j].name != name {
          if j > 0 {
            assert entries[j] == rest[j - 1];
          }
        }
      } else {
        forall k | 0 <= k < |entries| ensures entries[k].name != name {
          if k > 0 {
            assert entries[k] == rest[k - 1];
          }
        }
      }
    } else if entries != [] {
      assert entries[0].name == name;
    }
  }

  /** After the entries with a name are dropped, looking that name up finds nothing. */
  lemma DroppedNotFound(entries: seq<SavedEntry>, name: string)
    ensures Find(Seqs.Filter(entries, NameIsNot(name)), name) == None
  {
    var r := Seqs.Filter(entries, NameIsNot(name));
    DropNamed(entries, name);
    FindFirst(r, name);
    forall k | 0 <= k < |r| ensures r[k].name != name {
      assert r[k] in r;
    }
  }

  /** The screen's state: `savedTables` and `selectedName`. */
  class SavedPage {
    var tables: seq<SavedEntry>
    var selectedName: string

    /** The screen opens with the stored list and no selection. */
    constructor (saved: SavedStore)
      ensures tables == saved.entries && selectedName == []
    {
      tables := saved.entries;
      selectedName := [];
    }

    /** `selectedTable`: the first saved table carrying the selected name. */
    function SelectedTable(): (r: Option<SavedEntry>)
      reads this
      ensures r.Some? ==> r.value in tables && r.value.name == selectedName
      ensures r.Some? ==> exists k :: 0 <= k < |tables| && tables[k] == r.value
                                     && forall j :: 0 <= j < k ==> tables[j].name != selectedName
      ensures r.None? <==> forall k :: 0 <= k < |tables| ==> tables[k].name != selectedName
    {
      FindFirst(tables, selectedName);
      Find(tables, selectedName)
    }

    /** Choosing a name in the menu. */
    method Select(name: string)
      modifies this
      ensures selectedName == name && tables == old(tables)
    {
      selectedName := name;
    }

    /**
     * `handleDelete`: without a selection nothing happens; otherwise every
     * entry with the selected name is dropped from the list and from the
     * store, and the selection is cleared.
     */
    method HandleDelete(saved: SavedStore)
      modifies this, saved
      ensures old(selectedName) == [] ==>
                tables == old(tables) && selectedName == [] && saved.entries == old(saved.entries)
      ensures old(selectedName) != [] ==>
                && tables == Seqs.Filter(old(tables), NameIsNot(old(selectedName)))
                && saved.entries == tables
                && selectedName == []
                && Find(tables, old(selectedName)) == None
    {
      if selectedName == [] {
        return;
      }
      var updated := Seqs.Filter(tables, NameIsNot(selectedName));
      DroppedNotFound(tables, selectedName);
      tables := updated;
      saved.entries := updated;
      selectedName := [];
    }
  }
}
