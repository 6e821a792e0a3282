/** What synchronizing one directory does to the rows of the file index. */
module DirectorySync {
  import opened Wrappers
  import opened FileRows

  /** An entry found in the directory, with the identifier its row gets if it is new. */
  datatype Item = Item(
    id: RowId, user: string, path: string, parent: string, name: string, isDir: bool, size: int,
    fileUpdated: Option<int>, location: Location, createdAt: int, updatedAt: int)

  function FreshRow(item: Item): Row {
    Row(item.user, item.path, item.parent, item.name, item.isDir, item.size, 0,
        item.fileUpdated, None, None, item.location, item.createdAt, item.updatedAt, None)
  }

  /** The columns an upsert overwrites; the others stay. */
  function Merge(row: Row, item: Item): Row {
    row.(parent := item.parent, name := item.name, isDir := item.isDir, size := item.size,
         fileUpdated := item.fileUpdated, updatedAt := item.updatedAt, deletedAt := None)
  }

  ghost predicate At(t: Table, id: RowId, user: string, path: string) {
    id in t && t[id].user == user && t[id].path == path
  }

  /** The item is merged into the row at its path, if there is one, and is a new row otherwise. */
  ghost function Upsert(t: Table, item: Item): Table {
    if exists id :: At(t, id, item.user, item.path) then
      var id :| At(t, id, item.user, item.path);
      t[id := Merge(t[id], item)]
    else
      t[item.id := FreshRow(item)]
  }

  ghost function UpsertAll(t: Table, items: seq<Item>): Table {
    if items == [] then t else Upsert(UpsertAll(t, items[..|items| - 1]), items[|items| - 1])
  }

  /** Upserting piece by piece is upserting all. */
  lemma {:induction false} UpsertConcat(t: Table, a: seq<Item>, b: seq<Item>)
    ensures UpsertAll(t, a + b) == UpsertAll(UpsertAll(t, a), b)
  {
    if b == [] {
      assert a + b == a;
    } else {
      UpsertConcat(t, a, b[..|b| - 1]);
      assert (a + b)[..|a + b| - 1] == a + b[..|b| - 1];
    }
  }

  predicate Stale(row: Row, user: string, parent: string, start: int) {
    row.user == user && row.parent == parent && row.updatedAt < start
  }

  ghost function Prune(t: Table, user: string, parent: string, start: int): Table {
    map id | id in t && !Stale(t[id], user, parent, start) :: t[id]
  }

  // ---- what is in the table afterwards ----

  /**
   * `row` is what upserting the item into `t` makes of the row `id`. An old row at the item's path keeps
   * identity, favourite, trash fields, location and creation time; a new row has none of the first two.
   */
  ghost predicate Outcome(t: Table, item: Item, id: RowId, row: Row) {
    && row.user == item.user && row.path == item.path
    && row.parent == item.parent && row.name == item.name && row.isDir == item.isDir && row.size == item.size
    && row.fileUpdated == item.fileUpdated && row.updatedAt == item.updatedAt && row.deletedAt == None
    && if id in t then
         && At(t, id, item.user, item.path)
         && row.favorite == t[id].favorite && row.trashedAt == t[id].trashedAt
         && row.originalPath == t[id].originalPath && row.location == t[id].location
         && row.createdAt == t[id].createdAt
       else
         && id == item.id && (forall other :: !At(t, other, item.user, item.path))
         && row.favorite == 0 && row.trashedAt == None && row.originalPath == None
         && row.location == item.location && row.createdAt == item.createdAt
  }

  ghost predicate HasOutcome(t: Table, item: Item, after: Table) {
    exists id :: id in after && Outcome(t, item, id, after[id])
  }

  ghost predicate NoItemAt(items: seq<Item>, user: string, path: string) {
    forall k :: 0 <= k < |items| ==> !(items[k].user == user && items[k].path == path)
  }

  ghost predicate OutcomeOfSome(t: Table, items: seq<Item>, id: RowId, row: Row) {
    exists k :: 0 <= k < |items| && Outcome(t, items[k], id, row)
  }

  ghost predicate Untouched(t: Table, items: seq<Item>, id: RowId, row: Row) {
    id in t && row == t[id] && NoItemAt(items, row.user, row.path)
  }

  /** Every item has its outcome, and every row is the outcome of an item or untouched. */
  ghost predicate Upserted(t: Table, items: seq<Item>, after: Table) {
    && t.Keys <= after.Keys
    && (forall k :: 0 <= k < |items| ==> HasOutcome(t, items[k], after))
    && (forall id :: id in after ==> Untouched(t, items, id, after[id]) || OutcomeOfSome(t, items, id, after[id]))
  }

  /** The items have different paths, and identifiers that are new and different. */
  ghost predicate GoodItems(t: Table, items: seq<Item>) {
    && (forall k :: 0 <= k < |items| ==> items[k].id !in t)
    && (forall k, l :: 0 <= k < l < |items| ==>
          items[k].id != items[l].id && !(items[k].user == items[l].user && items[k].path == items[l].path))
  }

  lemma OutcomePlace(t: Table, item: Item, id: RowId, row: Row)
    requires Outcome(t, item, id, row)
    ensures row.user == item.user && row.path == item.path && (id !in t ==> id == item.id)
  {}

  lemma {:induction false} UpsertAllUpserts(t: Table, items: seq<Item>)
    requires Unique(t) && GoodItems(t, items)
    ensures Unique(UpsertAll(t, items)) && Upserted(t, items, UpsertAll(t, items))
  {
    if items != [] {
      hide Unique, GoodItems, Upserted, Upsert;
      var n := |items| - 1;
      assert items == items[..n] + [items[n]];
      GoodInit(t, items[..n], items[n]);
      UpsertAllUpserts(t, items[..n]);
      UpsertOneMore(t, items[..n], items[n], UpsertAll(t, items[..n]));
    } else {
      NothingUpserted(t);
    }
  }

  lemma NothingUpserted(t: Table)
    ensures Upserted(t, [], t)
  {
    assert forall id :: id in t ==> Untouched(t, [], id, t[id]);
  }

  lemma GoodInit(t: Table, items: seq<Item>, item: Item)
    requires GoodItems(t, items + [item])
    ensures GoodItems(t, items)
  {
    var all := items + [item];
    assert forall k :: 0 <= k < |items| ==> items[k] == all[k];
  }

  lemma UpsertOneMore(t: Table, items: seq<Item>, item: Item, before: Table)
    requires Unique(t) && Unique(before) && GoodItems(t, items + [item]) && Upserted(t, items, before)
    ensures Unique(Upsert(before, item)) && Upserted(t, items + [item], Upsert(before, item))
  {
    var after := Upsert(before, item);
    if exists id :: At(before, id, item.user, item.path) {
      var id :| At(before, id, item.user, item.path) && after == before[id := Merge(before[id], item)];
      ExistingRowMerged(t, items, item, before, id);
    } else {
      NewRowInserted(t, items, item, before);
    }
  }

  lemma NotYetThere(t: Table, items: seq<Item>, item: Item, id: RowId, row: Row)
    requires GoodItems(t, items + [item]) && OutcomeOfSome(t, items, id, row)
    ensures id != item.id && !(row.user == item.user && row.path == item.path)
  {
    var k :| 0 <= k < |items| && Outcome(t, items[k], id, row);
    OutcomePlace(t, items[k], id, row);
    assert (items + [item])[k] == items[k] && (items + [item])[|items|] == item;
  }

  /** One more upsert that changes only the row `id` to the outcome of the item keeps the account. */
  lemma AccountKept(t: Table, items: seq<Item>, item: Item, before: Table, id: RowId, row: Row)
    requires GoodItems(t, items + [item]) && Upserted(t, items, before) && Unique(before)
    requires Outcome(t, item, id, row) && forall k :: k in before && k != id ==> !At(before, k, item.user, item.path)
    requires id in before ==> At(before, id, item.user, item.path)
    ensures Unique(before[id := row]) && Upserted(t, items + [item], before[id := row])
  {
    var after, all := before[id := row], items + [item];
    OutcomePlace(t, item, id, row);
    assert Unique(after) by {
      hide Outcome, Upserted, GoodItems;
    }
    hide Unique;
    forall k | 0 <= k < |all|
      ensures HasOutcome(t, all[k], after)
    {
      if k < |items| {
        OutcomeStays(t, items, item, before, id, row, k);
      } else {
        assert id in after && Outcome(t, all[k], id, after[id]);
      }
    }
    forall l | l in after
      ensures Untouched(t, all, l, after[l]) || OutcomeOfSome(t, all, l, after[l])
    {
      if l == id {
        assert Outcome(t, all[|items|], l, after[l]);
      } else {
        OtherAccounted(t, items, item, before, l);
      }
    }
  }

  lemma OutcomeStays(t: Table, items: seq<Item>, item: Item, before: Table, id: RowId, row: Row, k: nat)
    requires GoodItems(t, items + [item]) && Upserted(t, items, before) && k < |items|
    requires id in before ==> At(before, id, item.user, item.path)
    ensures HasOutcome(t, items[k], before[id := row])
  {
    hide Outcome, Untouched, GoodItems;
    assert HasOutcome(t, items[k], before);
    var l :| l in before && Outcome(t, items[k], l, before[l]);
    assert OutcomeOfSome(t, items, l, before[l]);
    NotYetThere(t, items, item, l, before[l]);
    var after := before[id := row];
    assert l in after && Outcome(t, items[k], l, after[l]);
  }

  lemma OtherAccounted(t: Table, items: seq<Item>, item: Item, before: Table, l: RowId)
    requires Upserted(t, items, before) && l in before && !At(before, l, item.user, item.path)
    ensures var all := items + [item];
            Untouched(t, all, l, before[l]) || OutcomeOfSome(t, all, l, before[l])
  {
    var all := items + [item];
    if OutcomeOfSome(t, items, l, before[l]) {
      var k :| 0 <= k < |items| && Outcome(t, items[k], l, before[l]);
      assert Outcome(t, all[k], l, before[l]);
    }
  }

  lemma ExistingRowMerged(t: Table, items: seq<Item>, item: Item, before: Table, id: RowId)
    requires Unique(before) && GoodItems(t, items + [item]) && Upserted(t, items, before)
    requires At(before, id, item.user, item.path)
    ensures var after := before[id := Merge(before[id], item)];
            Unique(after) && Upserted(t, items + [item], after)
  {
    if OutcomeOfSome(t, items, id, before[id]) {
      NotYetThere(t, items, item, id, before[id]);
    } else {
      AccountKept(t, items, item, before, id, Merge(before[id], item));
    }
  }

  lemma NewRowInserted(t: Table, items: seq<Item>, item: Item, before: Table)
    requires Unique(before) && GoodItems(t, items + [item]) && Upserted(t, items, before)
    requires forall id :: !At(before, id, item.user, item.path)
    ensures var after := before[item.id := FreshRow(item)];
            Unique(after) && Upserted(t, items + [item], after)
  {
    assert (items + [item])[|items|] == item;
    if item.id in before {
      NotYetThere(t, items, item, item.id, before[item.id]);
    } else {
      forall other
        ensures !At(t, other, item.user, item.path)
      {
        if At(t, other, item.user, item.path) {
          StillThere(t, items, before, other);
        }
      }
      AccountKept(t, items, item, before, item.id, FreshRow(item));
    }
  }

  /** An upsert moves no row. */
  lemma StillThere(t: Table, items: seq<Item>, after: Table, id: RowId)
    requires Upserted(t, items, after) && id in t
    ensures At(after, id, t[id].user, t[id].path)
  {
    if OutcomeOfSome(t, items, id, after[id]) {
      var k :| 0 <= k < |items| && Outcome(t, items[k], id, after[id]);
    }
  }

  // ---- the directory ----

  ghost predicate InDirectory(row: Row, user: string, parent: string) {
    row.user == user && row.parent == parent
  }

  /** The items of one directory, each named by it, stamped no earlier than the start. */
  ghost predicate ItemsOf(items: seq<Item>, user: string, parent: string, start: int) {
    forall k :: 0 <= k < |items| ==>
      items[k].user == user && items[k].parent == parent && ParentOf(items[k].path) == parent
          && items[k].updatedAt >= start
  }

  /**
   * After the directory was synchronized its rows are the items' and the old rows stamped since the
   * start; an item's row keeps what the upsert does not overwrite; no other row changed.
   */
  lemma DirectoryAfterSync(t: Table, items: seq<Item>, user: string, parent: string, start: int, id: RowId)
    requires Unique(t) && AllWellNamed(t) && GoodItems(t, items) && ItemsOf(items, user, parent, start)
    ensures var after := Prune(UpsertAll(t, items), user, parent, start);
            && Unique(after)
            && (forall k :: 0 <= k < |items| ==> HasOutcome(t, items[k], after))
            && (id in after && InDirectory(after[id], user, parent) ==>
                  OutcomeOfSome(t, items, id, after[id]) || (id in t && after[id] == t[id] && t[id].updatedAt >= start))
            && (id in t && !InDirectory(t[id], user, parent) ==> id in after && after[id] == t[id])
            && (id in t && InDirectory(t[id], user, parent) && NoItemAt(items, user, t[id].path) ==>
                  (id in after <==> t[id].updatedAt >= start) && (id in after ==> after[id] == t[id]))
            && (id in after && id !in t ==> OutcomeOfSome(t, items, id, after[id]))
  {
    UpsertAllUpserts(t, items);
    hide GoodItems;
    var upserted := UpsertAll(t, items);
    hide UpsertAll;
    forall k | 0 <= k < |items|
      ensures HasOutcome(t, items[k], Prune(upserted, user, parent, start))
    {
      OutcomeSurvives(t, items, upserted, user, parent, start, k);
    }
    if id in t && OutcomeOfSome(t, items, id, upserted[id]) {
      OutcomeInDirectory(t, items, user, parent, start, id, upserted[id]);
    }
  }

  lemma OutcomeSurvives(t: Table, items: seq<Item>, upserted: Table, user: string, parent: string, start: int, k: nat)
    requires ItemsOf(items, user, parent, start) && Upserted(t, items, upserted) && k < |items|
    ensures HasOutcome(t, items[k], Prune(upserted, user, parent, start))
  {
    assert HasOutcome(t, items[k], upserted);
    var l :| l in upserted && Outcome(t, items[k], l, upserted[l]);
    var after := Prune(upserted, user, parent, start);
    assert l in after && Outcome(t, items[k], l, after[l]);
  }

  /** An old row that an item was merged into was in the directory, at the item's path. */
  lemma OutcomeInDirectory(t: Table, items: seq<Item>, user: string, parent: string, start: int, id: RowId, row: Row)
    requires AllWellNamed(t) && ItemsOf(items, user, parent, start)
    requires id in t && OutcomeOfSome(t, items, id, row)
    ensures InDirectory(t[id], user, parent) && !NoItemAt(items, user, t[id].path)
  {
    var k :| 0 <= k < |items| && Outcome(t, items[k], id, row);
  }
}
