/**
 The six todo handlers over the shared `todo` table. The table is the field
 `table` of a `TodoStore`; every handler that runs an INSERT, UPDATE or DELETE
 changes it in place. The clock reading of creation and the row id the engine
 assigns are parameters.
 */
module TodoService {
  import opened TodoModel

  class TodoStore {
    /** The rows of the `todo` table, keyed by id. */
    var table: Table

    /** What every handler keeps: each stored `done` came from a boolean, and
        each id is a SQLite INTEGER. */
    ghost predicate Valid()
      reads this
    {
      AllBoolColumns(table) && KeysFit(table)
    }

    /** A table created by `CREATE TABLE IF NOT EXISTS` on an empty database. */
    constructor ()
      ensures Valid() && table == map[]
    {
      table := map[];
    }

    /** GET /todos: every row, or with `done` given only the rows whose column
        equals `int(done)`, converted to records, in increasing id order. */
    method GetTodos(done: Option<bool>) returns (values: seq<TodoItem>)
      ensures IsListing(table, done, values)
      ensures done.None? ==> IdSet(values) == table.Keys && |values| == |table|
      ensures Valid() && done.Some? ==> forall i | 0 <= i < |values| :: values[i].done == done.value
    {
      var remaining := table.Keys;
      values := [];
      ScanStart(table, done);
      while remaining != {}
        invariant ScannedExcept(table, done, values, remaining)
        decreases remaining
      {
        MinimumExists(remaining);
        var id :| id in remaining && forall j | j in remaining :: id <= j;
        ScanStep(table, done, values, remaining, id);
        var row := table[id];
        if Selects(done, row.done) {
          values := values + [ItemOf(id, row)];
        }
        remaining := remaining - {id};
      }
      ScanDone(table, done, values);
      if done.None? {
        ListingUnfiltered(table, values);
      } else if Valid() {
        ListingFiltered(table, done.value, values);
      }
    }

    /** GET /todos/{id}: the stored row under `id`, converted, or NotFound
        carrying `id` when no row has it; an id the adapter cannot bind makes
        the SELECT fail with the overflow error. */
    function GetTodoById(id: int): (r: Result<TodoItem>)
      reads this
      ensures r.Err? <==> !FitsInteger(id) || id !in table
      ensures r.Err? ==> r.error == LookupError(id)
      ensures r.Ok? ==> && r.value.id == id
                        && r.value.title == table[id].title
                        && r.value.description == table[id].description
                        && r.value.done == (table[id].done != 0)
                        && r.value.createdAt == table[id].createdAt
    {
      if !FitsInteger(id) then Err(InternalError(BindOverflow))
      else if id !in table then Err(NotFound(id))
      else Ok(ItemOf(id, table[id]))
    }

    /** POST /todos: inserts `(title, description, int(False), ts)` under the
        fresh id the engine assigns, and returns that row as a record. A
        timestamp the adapter cannot bind makes the INSERT fail. */
    method CreateTodo(todoItem: NewTodoItem, ts: int, rowId: int) returns (r: Result<TodoItem>)
      requires Valid()
      requires rowId !in table && FitsInteger(rowId)
      modifies this
      ensures Valid()
      ensures !FitsInteger(ts) ==> table == old(table) && r == Err(InternalError(BindOverflow))
      ensures FitsInteger(ts) ==>
                && table == old(table)[rowId := Row(todoItem.title, todoItem.description, 0, ts)]
                && r == Ok(TodoItem(rowId, todoItem.title, false, todoItem.description, ts))
      ensures r.Ok? ==> r.value == ItemOf(rowId, table[rowId])
    {
      if !FitsInteger(ts) {
        r := Err(InternalError(BindOverflow));
        return;
      }
      table := table[rowId := Row(todoItem.title, todoItem.description, BoolToColumn(false), ts)];
      r := Ok(TodoItem(rowId, todoItem.title, false, todoItem.description, ts));
    }

    /** PUT /todos/{id}: overwrites title, description and done of the row
        under the path `id`; the body's own id and created_at are not used. An
        id the adapter cannot bind makes the UPDATE fail. */
    method UpdateTodo(id: int, todoItem: TodoItem) returns (r: Result<TodoItem>)
      requires Valid()
      modifies this
      ensures Valid()
      ensures id !in old(table) ==> table == old(table) && r == Err(LookupError(id))
      ensures id in old(table) ==>
                && table == old(table)[id := Row(todoItem.title, todoItem.description,
                                                 BoolToColumn(todoItem.done), old(table)[id].createdAt)]
                && r == Ok(TodoItem(id, todoItem.title, todoItem.done, todoItem.description,
                                    old(table)[id].createdAt))
      ensures r.Ok? ==> r.value == ItemOf(id, table[id])
    {
      if !FitsInteger(id) {
        r := Err(InternalError(BindOverflow));
      } else if id in table {
        var updated := table[id].(title := todoItem.title, description := todoItem.description,
                                  done := BoolToColumn(todoItem.done));
        table := table[id := updated];
        r := Ok(ItemOf(id, updated));
      } else {
        r := Err(NotFound(id));
      }
    }

    /** PATCH /todos/{id}/done: sets only the done column of the row under `id`
        to `int(done)` and returns the value read back from it, failing as the
        other handlers do on an id the adapter cannot bind. */
    method UpdateTodoStatus(id: int, done: bool) returns (r: Result<bool>)
      requires Valid()
      modifies this
      ensures Valid()
      ensures id !in old(table) ==> table == old(table) && r == Err(LookupError(id))
      ensures id in old(table) ==>
                && table == old(table)[id := old(table)[id].(done := BoolToColumn(done))]
                && r == Ok(done)
    {
      if !FitsInteger(id) {
        r := Err(InternalError(BindOverflow));
      } else if id in table {
        var returned := BoolToColumn(done);
        table := table[id := table[id].(done := returned)];
        r := Ok(DoneFromColumn(returned));
      } else {
        r := Err(NotFound(id));
      }
    }

    /** DELETE /todos/{id}: removes the row under `id`; NotFound when no row
        was affected, the overflow error when `id` cannot be bound. */
    method DeleteTodo(id: int) returns (r: Result<string>)
      requires Valid()
      modifies this
      ensures Valid()
      ensures r.Ok? <==> id in old(table)
      ensures r.Ok? ==> r.value == "ok"
      ensures r.Err? ==> r.error == LookupError(id)
      ensures table == old(table) - {id}
    {
      if !FitsInteger(id) {
        r := Err(InternalError(BindOverflow));
        return;
      }
      var rowCount := if id in table then 1 else 0;
      table := table - {id};
      if rowCount < 1 {
        r := Err(NotFound(id));
      } else {
        r := Ok("ok");
      }
    }
  }

  /** The example exchange on a fresh table: create, mark done, read back,
      delete, read again. The engine assigns id 1 to the first row. */
  method BuyMilkExchange(ts: int)
    returns (created: Result<TodoItem>, patched: Result<bool>, fetched: Result<TodoItem>,
             deleted: Result<string>, gone: Result<TodoItem>)
    requires FitsInteger(ts)
    ensures created == Ok(TodoItem(1, "buy milk", false, "2%", ts))
    ensures patched == Ok(true)
    ensures fetched == Ok(TodoItem(1, "buy milk", true, "2%", ts))
    ensures deleted == Ok("ok")
    ensures gone == Err(NotFound(1))
  {
    var store := new TodoStore();
    created := store.CreateTodo(NewTodoItem("buy milk", "2%"), ts, 1);
    patched := store.UpdateTodoStatus(1, true);
    fetched := store.GetTodoById(1);
    deleted := store.DeleteTodo(1);
    gone := store.GetTodoById(1);
  }

  /** Reading a record back right after creating it gives the created record. */
  method CreateThenGet(store: TodoStore, todoItem: NewTodoItem, ts: int, rowId: int)
    returns (created: Result<TodoItem>, fetched: Result<TodoItem>)
    requires store.Valid() && rowId !in store.table && FitsInteger(rowId) && FitsInteger(ts)
    modifies store
    ensures store.Valid()
    ensures created.Ok? && fetched == created
    ensures && fetched.value.id == rowId
            && fetched.value.title == todoItem.title
            && fetched.value.description == todoItem.description
            && !fetched.value.done
            && fetched.value.createdAt == ts
  {
    created := store.CreateTodo(todoItem, ts, rowId);
    fetched := store.GetTodoById(rowId);
  }

  /** A created record is listed, both without a filter and among the records
      not yet done, and the unfiltered listing has grown by one. */
  method CreateThenList(store: TodoStore, todoItem: NewTodoItem, ts: int, rowId: int)
    returns (created: Result<TodoItem>, all: seq<TodoItem>, open: seq<TodoItem>)
    requires store.Valid() && rowId !in store.table && FitsInteger(rowId) && FitsInteger(ts)
    modifies store
    ensures store.Valid()
    ensures created.Ok? && created.value in all && created.value in open
    ensures |all| == |old(store.table)| + 1
  {
    created := store.CreateTodo(todoItem, ts, rowId);
    all := store.GetTodos(None);
    open := store.GetTodos(Some(false));
    ListingHas(store.table, None, all, rowId);
    ListingHas(store.table, Some(false), open, rowId);
    ListingUnfiltered(store.table, all);
  }

  /** After a status update the record reads back with the new `done` and
      everything else as before; on a missing id both calls report the
      lookup error. */
  method PatchThenGet(store: TodoStore, id: int, done: bool)
    returns (patched: Result<bool>, fetched: Result<TodoItem>)
    requires store.Valid()
    modifies store
    ensures store.Valid()
    ensures id in old(store.table) ==>
              && patched == Ok(done)
              && fetched == Ok(old(store.GetTodoById(id)).value.(done := done))
    ensures id !in old(store.table) ==>
              && patched == Err(LookupError(id))
              && fetched == Err(LookupError(id))
              && store.table == old(store.table)
  {
    patched := store.UpdateTodoStatus(id, done);
    fetched := store.GetTodoById(id);
  }

  /** After a full update the record reads back as the update returned it,
      with the path id and the original creation time. */
  method UpdateThenGet(store: TodoStore, id: int, todoItem: TodoItem)
    returns (updated: Result<TodoItem>, fetched: Result<TodoItem>)
    requires store.Valid()
    modifies store
    ensures store.Valid()
    ensures id in old(store.table) ==>
              && updated.Ok? && fetched == updated
              && updated.value == todoItem.(id := id, createdAt := old(store.table)[id].createdAt)
    ensures id !in old(store.table) ==>
              && updated == Err(LookupError(id))
              && fetched == Err(LookupError(id))
              && store.table == old(store.table)
  {
    updated := store.UpdateTodo(id, todoItem);
    fetched := store.GetTodoById(id);
  }

  /** Once deleted, a record is gone: reading it and deleting it again both
      report NotFound (or the overflow error for an id that cannot be bound). */
  method DeleteTwice(store: TodoStore, id: int)
    returns (first: Result<string>, fetched: Result<TodoItem>, second: Result<string>)
    requires store.Valid()
    modifies store
    ensures store.Valid()
    ensures first == if id in old(store.table) then Ok("ok") else Err(LookupError(id))
    ensures fetched == Err(LookupError(id))
    ensures second == Err(LookupError(id))
    ensures store.table == old(store.table) - {id}
  {
    first := store.DeleteTodo(id);
    fetched := store.GetTodoById(id);
    second := store.DeleteTodo(id);
  }
}
