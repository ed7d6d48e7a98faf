/** The docset's search index: the table `searchIndex(id, name, type, path)` with a
    unique index on `(name, type, path)`, kept in memory. `init_database` drops and
    recreates it (main.py:34-46); `insert_entry` is `INSERT OR IGNORE` (main.py:49-54).
    The row id is SQLite's integer primary key, which in a table that is never
    deleted from is the row's position counted from 1. */
module IndexStore {

  /** The values the crawler writes into the `type` column. */
  datatype EntryType = Module | Class | Event | Interface | Enum | Method

  /** The text stored in the `type` column for each kind of entry. */
  function TypeName(t: EntryType): string {
    match t
    case Module => "Module"
    case Class => "Class"
    case Event => "Event"
    case Interface => "Interface"
    case Enum => "Enum"
    case Method => "Method"
  }

  /** The `(name, type, path)` triple the unique index is built on. */
  datatype Entry = Entry(name: string, kind: EntryType, path: string)

  datatype Row = Row(id: nat, entry: Entry)

  /** The table's invariant: ids count up from 1 in insertion order, and no two rows
      share a `(name, type, path)` triple. */
  ghost predicate WellFormed(rows: seq<Row>) {
    (forall k :: 0 <= k < |rows| ==> rows[k].id == k + 1)
    && (forall i, j :: 0 <= i < j < |rows| ==> rows[i].entry != rows[j].entry)
  }

  /** Whether the unique index already holds the triple. */
  predicate Present(rows: seq<Row>, e: Entry) {
    exists k :: 0 <= k < |rows| && rows[k].entry == e
  }

  /** The triples the table holds. */
  ghost function Entries(rows: seq<Row>): set<Entry> {
    set k | 0 <= k < |rows| :: rows[k].entry
  }

  /** `INSERT OR IGNORE`: a triple already present is ignored; a new one becomes the
      next row. The table stays well formed and holds exactly one more triple, `e`. */
  function InsertOrIgnore(rows: seq<Row>, e: Entry): (r: seq<Row>)
    ensures WellFormed(rows) ==> WellFormed(r)
    ensures Entries(r) == Entries(rows) + {e}
    ensures Present(rows, e) ==> r == rows
    ensures !Present(rows, e) ==> |r| == |rows| + 1 && r[..|rows|] == rows && r[|rows|] == Row(|rows| + 1, e)
  {
    if Present(rows, e) then rows
    else
      var r := rows + [Row(|rows| + 1, e)];
      assert Entries(r) == Entries(rows) + {e} by {
        assert forall k :: 0 <= k < |rows| ==> r[k] == rows[k];
        assert r[|rows|].entry == e;
      }
      r
  }

  /** The inserts of a sequence of triples, in order. */
  function InsertAll(rows: seq<Row>, es: seq<Entry>): seq<Row> {
    if es == [] then rows else InsertOrIgnore(InsertAll(rows, es[..|es| - 1]), es[|es| - 1])
  }

  /** The in-memory table with the two operations the crawler performs on it. */
  class Store {
    var rows: seq<Row>

    ghost predicate Valid()
      reads this
    {
      WellFormed(rows)
    }

    /** Opening the index file; the table starts out empty. */
    constructor ()
      ensures Valid() && rows == []
    {
      rows := [];
    }

    /** `init_database`: whatever the table held, it is recreated empty. */
    method Reset()
      modifies this
      ensures Valid() && rows == []
    {
      rows := [];
    }

    /** `insert_entry(name, type, path)` */
    method Insert(e: Entry)
      requires Valid()
      modifies this
      ensures Valid() && rows == InsertOrIgnore(old(rows), e)
    {
      if !Present(rows, e) {
        rows := rows + [Row(|rows| + 1, e)];
      }
    }
  }

  // ---------------------------------------------------------------------------
  // Properties of the table.

  /** Inserting the same triple twice leaves the table as a single insert does. */
  lemma InsertIdempotent(rows: seq<Row>, e: Entry)
    ensures InsertOrIgnore(InsertOrIgnore(rows, e), e) == InsertOrIgnore(rows, e)
  {
    var r := InsertOrIgnore(rows, e);
    if !Present(rows, e) {
      assert r[|rows|].entry == e;
    }
  }

  /** Because of the unique index, the number of rows is the number of distinct triples. */
  lemma {:induction false} RowCountIsDistinctEntries(rows: seq<Row>)
    requires WellFormed(rows)
    ensures |rows| == |Entries(rows)|
    decreases |rows|
  {
    if rows != [] {
      var init := rows[..|rows| - 1];
      var last := rows[|rows| - 1];
      assert WellFormed(init);
      RowCountIsDistinctEntries(init);
      assert Entries(rows) == Entries(init) + {last.entry} by {
        assert forall k :: 0 <= k < |init| ==> init[k] == rows[k];
      }
      assert last.entry !in Entries(init) by {
        forall k | 0 <= k < |init| ensures init[k].entry != last.entry {
          assert rows[k].entry != rows[|rows| - 1].entry;
        }
      }
    }
  }

  /** A sequence of inserts keeps the table well formed and leaves in it exactly the
      triples it held before and the triples inserted. */
  lemma {:induction false} InsertAllContents(rows: seq<Row>, es: seq<Entry>)
    requires WellFormed(rows)
    ensures WellFormed(InsertAll(rows, es))
    ensures Entries(InsertAll(rows, es)) == Entries(rows) + (set k | 0 <= k < |es| :: es[k])
    decreases |es|
  {
    if es != [] {
      var init := es[..|es| - 1];
      InsertAllContents(rows, init);
      ListedSnoc(es);
    }
  }

  /** The triples of a non-empty sequence are those of all but its last, and its last. */
  lemma ListedSnoc(es: seq<Entry>)
    requires es != []
    ensures var init := es[..|es| - 1];
      (set k | 0 <= k < |es| :: es[k]) == (set k | 0 <= k < |init| :: init[k]) + {es[|es| - 1]}
  {
    var init := es[..|es| - 1];
    assert forall k :: 0 <= k < |init| ==> init[k] == es[k];
  }

  /** Two runs of inserts one after the other are one run of all of them. */
  lemma {:induction false} InsertAllConcat(rows: seq<Row>, a: seq<Entry>, b: seq<Entry>)
    ensures InsertAll(rows, a + b) == InsertAll(InsertAll(rows, a), b)
    decreases |b|
  {
    if b == [] {
      assert a + b == a;
    } else {
      assert (a + b)[..|a + b| - 1] == a + b[..|b| - 1];
      assert (a + b)[|a + b| - 1] == b[|b| - 1];
      InsertAllConcat(rows, a, b[..|b| - 1]);
    }
  }
}
