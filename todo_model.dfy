/**
 The values of the todo service: the stored row, the record it is exposed as,
 the request record for creation, the handlers' result type, and the meaning of
 a listing of the table.
 */
module TodoModel {

  datatype Option<T> = None | Some(value: T)

  /** A row of the table `todo(id, title, description, done, created_at)`;
      the id is the key under which the row is stored. `done` is the INTEGER column. */
  datatype Row = Row(title: string, description: string, done: int, createdAt: int)

  /** The record a handler returns (`TodoItem`). */
  datatype TodoItem = TodoItem(id: int, title: string, done: bool, description: string, createdAt: int)

  /** The request body of creation (`NewTodoItem`). */
  datatype NewTodoItem = NewTodoItem(title: string, description: string)

  /** The two kinds of failure a handler reports: 404 with the id, or 500. */
  datatype Error = NotFound(id: int) | InternalError(message: string)

  datatype Result<T> = Ok(value: T) | Err(error: Error)

  /** The table, keyed by id (the INTEGER PRIMARY KEY). */
  type Table = map<int, Row>

  /** The value a `done` column has when it was written from a boolean. */
  predicate IsBoolColumn(c: int) {
    c == 0 || c == 1
  }

  /** How a stored `done` is exposed: `done != 0` in the listing, `bool(done)`
      elsewhere, which agree on every integer. On a column written from a
      boolean, the exposed boolean gives the column back. */
  function DoneFromColumn(c: int): (b: bool)
    ensures IsBoolColumn(c) ==> c == (if b then 1 else 0)
  {
    c != 0
  }

  /** How a boolean is stored: `int(b)`, which is also what the database
      adapter stores for a bound boolean. */
  function BoolToColumn(b: bool): (c: int)
    ensures IsBoolColumn(c)
    ensures DoneFromColumn(c) == b
  {
    if b then 1 else 0
  }

  /** The conversion of a fetched row into the record a handler returns. It
      keeps the id, and on a row whose `done` came from a boolean it loses
      nothing: storing the record's fields again gives the same row. */
  function ItemOf(id: int, row: Row): (item: TodoItem)
    ensures item.id == id
    ensures IsBoolColumn(row.done) ==>
              Row(item.title, item.description, BoolToColumn(item.done), item.createdAt) == row
  {
    TodoItem(id, row.title, DoneFromColumn(row.done), row.description, row.createdAt)
  }

  /** The WHERE clause of the listing: no filter, or `done = int(b)`. On a
      column written from a boolean it selects exactly the rows exposed with
      `done == b`. */
  function Selects(filter: Option<bool>, column: int): (selected: bool)
    ensures filter.None? ==> selected
    ensures filter.Some? && IsBoolColumn(column) ==> (selected <==> DoneFromColumn(column) == filter.value)
  {
    filter.None? || column == BoolToColumn(filter.value)
  }

  /** The bounds of a SQLite INTEGER: the database adapter refuses to bind an
      integer outside them. */
  const MinInteger: int := -0x8000_0000_0000_0000
  const MaxInteger: int := 0x7FFF_FFFF_FFFF_FFFF

  predicate FitsInteger(x: int) {
    MinInteger <= x <= MaxInteger
  }

  /** The text of the exception the adapter raises for such an integer. */
  const BindOverflow: string := "Python int too large to convert to SQLite INTEGER"

  /** What a handler reports when no row can be found under `id`: NotFound
      with the id, or, when `id` cannot even be bound, the internal error the
      failed statement turns into. */
  function LookupError(id: int): (e: Error)
  {
    if FitsInteger(id) then NotFound(id) else InternalError(BindOverflow)
  }

  /** The ids of the rows the listing selects. */
  ghost function SelectedIds(table: Table, filter: Option<bool>): set<int> {
    set id | id in table && Selects(filter, table[id].done)
  }

  /** The ids carried by a sequence of records. */
  ghost function IdSet(values: seq<TodoItem>): set<int> {
    set i | 0 <= i < |values| :: values[i].id
  }

  ghost predicate StrictlyAscending(values: seq<TodoItem>) {
    forall i, j | 0 <= i < j < |values| :: values[i].id < values[j].id
  }

  /** `values` is what listing `table` with `filter` yields: each selected row
      exactly once, converted, in increasing id order. */
  ghost predicate IsListing(table: Table, filter: Option<bool>, values: seq<TodoItem>) {
    && StrictlyAscending(values)
    && IdSet(values) == SelectedIds(table, filter)
    && ConvertedFrom(table, values)
  }

  /** The invariant the service keeps: every stored `done` came from a boolean. */
  ghost predicate AllBoolColumns(table: Table) {
    forall id | id in table :: IsBoolColumn(table[id].done)
  }

  /** Every key of the table is a SQLite INTEGER. */
  ghost predicate KeysFit(table: Table) {
    forall id | id in table :: FitsInteger(id)
  }

  /** Every non-empty finite set of ids has a least element. */
  lemma {:induction false} MinimumExists(s: set<int>)
    requires s != {}
    ensures exists m :: m in s && forall j | j in s :: m <= j
  {
    if forall y :: y !in s {
      assert false;
    }
    var x :| x in s;
    var rest := s - {x};
    if rest == {} {
      forall j | j in s ensures x <= j {
        assert j == x || j in rest;
      }
      assert x in s && forall j | j in s :: x <= j;
    } else {
      MinimumExists(rest);
      var m :| m in rest && forall j | j in rest :: m <= j;
      var least := if x < m then x else m;
      forall j | j in s ensures least <= j {
        assert j == x || j in rest;
      }
      assert least in s && forall j | j in s :: least <= j;
    }
  }

  /** Dropping the first record of an ascending sequence drops exactly its id. */
  lemma IdSetTail(values: seq<TodoItem>)
    requires values != [] && StrictlyAscending(values)
    ensures values[0].id !in IdSet(values[1..])
    ensures IdSet(values) == IdSet(values[1..]) + {values[0].id}
  {
    var tail := values[1..];
    forall x | x in IdSet(tail) ensures x != values[0].id && x in IdSet(values) {
      var i :| 0 <= i < |tail| && tail[i].id == x;
      assert values[i + 1].id == x;
    }
    forall x | x in IdSet(values) ensures x == values[0].id || x in IdSet(tail) {
      var i :| 0 <= i < |values| && values[i].id == x;
      if i > 0 {
        assert tail[i - 1].id == x;
      }
    }
  }

  /** In an ascending sequence no id repeats, so there are as many ids as records. */
  lemma {:induction false} AscendingIdCount(values: seq<TodoItem>)
    requires StrictlyAscending(values)
    ensures |IdSet(values)| == |values|
  {
    if values != [] {
      IdSetTail(values);
      AscendingIdCount(values[1..]);
    }
  }

  /** The first record of an ascending sequence carries its least id. */
  lemma AscendingHeadLeast(values: seq<TodoItem>, x: int)
    requires values != [] && StrictlyAscending(values)
    requires x in IdSet(values)
    ensures values[0].id <= x
  {
    var i :| 0 <= i < |values| && values[i].id == x;
    assert i == 0 || values[0].id < values[i].id;
  }

  /** Removing the same id from two equal id sets leaves equal sets. */
  lemma SameRest(a: set<int>, b: set<int>, x: int)
    requires a + {x} == b + {x} && x !in a && x !in b
    ensures a == b
  {
    forall y ensures y in a <==> y in b {
      assert y in a + {x} <==> y in b + {x};
    }
  }

  /** Each record of `values` is the conversion of the row stored under its id. */
  ghost predicate ConvertedFrom(table: Table, values: seq<TodoItem>) {
    forall i | 0 <= i < |values| ::
      values[i].id in table && values[i] == ItemOf(values[i].id, table[values[i].id])
  }

  lemma TailKeepsOrder(table: Table, values: seq<TodoItem>)
    requires values != [] && StrictlyAscending(values) && ConvertedFrom(table, values)
    ensures StrictlyAscending(values[1..]) && ConvertedFrom(table, values[1..])
  {
    var tail := values[1..];
    forall i, j | 0 <= i < j < |tail| ensures tail[i].id < tail[j].id {
      assert tail[i] == values[i + 1] && tail[j] == values[j + 1];
    }
    forall i | 0 <= i < |tail|
      ensures tail[i].id in table && tail[i] == ItemOf(tail[i].id, table[tail[i].id])
    {
      assert tail[i] == values[i + 1];
    }
  }

  /** Two ascending sequences with the same ids, each record the conversion of
      the row under its id: both are empty, or they agree on the first record and
      their tails are again such a pair. */
  lemma SameHeadAndTails(table: Table, a: seq<TodoItem>, b: seq<TodoItem>)
    requires StrictlyAscending(a) && StrictlyAscending(b)
    requires ConvertedFrom(table, a) && ConvertedFrom(table, b)
    requires IdSet(a) == IdSet(b)
    ensures a == [] <==> b == []
    ensures a != [] ==>
              && a[0] == b[0]
              && StrictlyAscending(a[1..]) && StrictlyAscending(b[1..])
              && ConvertedFrom(table, a[1..]) && ConvertedFrom(table, b[1..])
              && IdSet(a[1..]) == IdSet(b[1..])
  {
    if a != [] {
      assert a[0].id in IdSet(a);
    }
    if b != [] {
      assert b[0].id in IdSet(b);
    }
    if a != [] && b != [] {
      AscendingHeadLeast(a, b[0].id);
      AscendingHeadLeast(b, a[0].id);
      IdSetTail(a);
      IdSetTail(b);
      SameRest(IdSet(a[1..]), IdSet(b[1..]), a[0].id);
      TailKeepsOrder(table, a);
      TailKeepsOrder(table, b);
    }
  }

  /** Two ascending sequences with the same ids, whose records are each the
      conversion of the row under their id, are the same sequence. */
  lemma {:induction false} AscendingUnique(table: Table, a: seq<TodoItem>, b: seq<TodoItem>)
    requires StrictlyAscending(a) && StrictlyAscending(b)
    requires ConvertedFrom(table, a) && ConvertedFrom(table, b)
    requires IdSet(a) == IdSet(b)
    ensures a == b
  {
    SameHeadAndTails(table, a, b);
    if a != [] {
      AscendingUnique(table, a[1..], b[1..]);
      assert a == [a[0]] + a[1..] && b == [b[0]] + b[1..];
    }
  }

  /** Appending a record adds exactly its id. */
  lemma AppendId(values: seq<TodoItem>, item: TodoItem)
    ensures IdSet(values + [item]) == IdSet(values) + {item.id}
  {
    var extended := values + [item];
    forall x ensures x in IdSet(extended) <==> x in IdSet(values) + {item.id} {
      if x in IdSet(values) {
        var i :| 0 <= i < |values| && values[i].id == x;
        assert extended[i].id == x;
      }
      if x in IdSet(extended) {
        var i :| 0 <= i < |extended| && extended[i].id == x;
        if i < |values| {
          assert values[i].id == x;
        }
      }
      assert extended[|values|] == item;
    }
  }

  /** A scan of `table` in increasing id order that has visited every row
      outside `remaining` and collected, converted, the rows `filter` selects. */
  ghost predicate ScannedExcept(table: Table, filter: Option<bool>, values: seq<TodoItem>, remaining: set<int>) {
    && remaining <= table.Keys
    && StrictlyAscending(values)
    && ConvertedFrom(table, values)
    && (forall i, k | 0 <= i < |values| && k in remaining :: values[i].id < k)
    && IdSet(values) == SelectedIds(table, filter) - remaining
  }

  /** Before the scan nothing is visited and nothing collected. */
  lemma ScanStart(table: Table, filter: Option<bool>)
    ensures ScannedExcept(table, filter, [], table.Keys)
  {
    assert IdSet([]) == {};
    forall id ensures id !in SelectedIds(table, filter) - table.Keys {
    }
    assert SelectedIds(table, filter) - table.Keys == {};
  }

  /** Visiting the least remaining row keeps the scan consistent. */
  lemma ScanStep(table: Table, filter: Option<bool>, values: seq<TodoItem>, remaining: set<int>, id: int)
    requires ScannedExcept(table, filter, values, remaining)
    requires id in remaining && forall j | j in remaining :: id <= j
    ensures Selects(filter, table[id].done) ==>
              ScannedExcept(table, filter, values + [ItemOf(id, table[id])], remaining - {id})
    ensures !Selects(filter, table[id].done) ==>
              ScannedExcept(table, filter, values, remaining - {id})
  {
    var rest := remaining - {id};
    var selected := SelectedIds(table, filter);
    if Selects(filter, table[id].done) {
      var item := ItemOf(id, table[id]);
      var extended := values + [item];
      AppendId(values, item);
      forall x ensures x in IdSet(extended) <==> x in selected - rest {
      }
      forall i, j | 0 <= i < j < |extended| ensures extended[i].id < extended[j].id {
        if j == |values| {
          assert extended[i] == values[i];
        } else {
          assert extended[i] == values[i] && extended[j] == values[j];
        }
      }
      forall i | 0 <= i < |extended|
        ensures extended[i].id in table && extended[i] == ItemOf(extended[i].id, table[extended[i].id])
      {
        if i < |values| {
          assert extended[i] == values[i];
        }
      }
      forall i, k | 0 <= i < |extended| && k in rest ensures extended[i].id < k {
        if i < |values| {
          assert extended[i] == values[i];
        }
      }
      assert IdSet(extended) == selected - rest;
    } else {
      forall x ensures x in IdSet(values) <==> x in selected - rest {
      }
      assert IdSet(values) == selected - rest;
    }
  }

  /** A scan that has visited every row has produced the listing. */
  lemma ScanDone(table: Table, filter: Option<bool>, values: seq<TodoItem>)
    requires ScannedExcept(table, filter, values, {})
    ensures IsListing(table, filter, values)
  {
    assert SelectedIds(table, filter) - {} == SelectedIds(table, filter);
  }

  /** Every row the filter selects is in the listing, as its conversion. */
  lemma ListingHas(table: Table, filter: Option<bool>, values: seq<TodoItem>, id: int)
    requires IsListing(table, filter, values)
    requires id in table && Selects(filter, table[id].done)
    ensures ItemOf(id, table[id]) in values
  {
    assert id in SelectedIds(table, filter);
    var i :| 0 <= i < |values| && values[i].id == id;
    assert values[i] == ItemOf(id, table[id]);
  }

  /** A listing is determined by the table and the filter. */
  lemma ListingUnique(table: Table, filter: Option<bool>, a: seq<TodoItem>, b: seq<TodoItem>)
    requires IsListing(table, filter, a) && IsListing(table, filter, b)
    ensures a == b
  {
    AscendingUnique(table, a, b);
  }

  /** Without a filter the listing holds every row of the table, once. */
  lemma ListingUnfiltered(table: Table, values: seq<TodoItem>)
    requires IsListing(table, None, values)
    ensures IdSet(values) == table.Keys
    ensures |values| == |table|
  {
    forall id ensures id in SelectedIds(table, None) <==> id in table.Keys {
    }
    assert SelectedIds(table, None) == table.Keys;
    AscendingIdCount(values);
  }

  /** When every stored `done` came from a boolean, the SQL filter `done = int(b)`
      selects exactly the rows that are exposed with `done == b`. */
  lemma ListingFiltered(table: Table, b: bool, values: seq<TodoItem>)
    requires AllBoolColumns(table)
    requires IsListing(table, Some(b), values)
    ensures IdSet(values) == set id | id in table && ItemOf(id, table[id]).done == b
    ensures forall i | 0 <= i < |values| :: values[i].done == b
  {
    forall i | 0 <= i < |values| ensures values[i].done == b {
      assert values[i].id in IdSet(values);
    }
  }

  /** No filter selects the whole table, and "only done" and "only not done"
      split it: they are disjoint and together make up what no filter selects. */
  lemma FiltersPartition(table: Table)
    requires AllBoolColumns(table)
    ensures SelectedIds(table, None) == table.Keys
    ensures SelectedIds(table, Some(true)) !! SelectedIds(table, Some(false))
    ensures SelectedIds(table, Some(true)) + SelectedIds(table, Some(false)) == table.Keys
  {
    var all, yes, no := SelectedIds(table, None), SelectedIds(table, Some(true)), SelectedIds(table, Some(false));
    forall id ensures (id in all <==> id in table) && (id in yes + no <==> id in table) && !(id in yes && id in no) {
      if id in table {
        assert IsBoolColumn(table[id].done);
      }
    }
    assert all == table.Keys;
    assert yes + no == table.Keys;
  }

  /** Filter absent and filter false differ as soon as one row is done: the
      absent filter also selects that row, which the false filter leaves out. */
  lemma AbsentFilterKeepsDoneRows(table: Table, id: int)
    requires AllBoolColumns(table)
    requires id in table && table[id].done == 1
    ensures id in SelectedIds(table, None) && id !in SelectedIds(table, Some(false))
    ensures SelectedIds(table, None) != SelectedIds(table, Some(false))
  {
    FiltersPartition(table);
    assert id in SelectedIds(table, Some(true));
  }
}
