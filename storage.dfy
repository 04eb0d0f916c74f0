/** The item store: table `items` keyed by `id`, written by an
    insert-or-ignore loop that counts real insertions, and read back
    filtered by type, newest first, up to a limit. */
module Storage {
  import opened Builtins

  /** One dict handed to `save_items`. `id`, `item_type`, `topic`,
      `headline` and `source` are read with `item[...]`, the rest with
      `item.get(...)`; the normalisers always supply all ten keys. */
  datatype Item = Item(
    id: string,
    itemType: string,
    topic: string,
    headline: Option<string>,
    source: Option<string>,
    publishedDate: Option<string>,
    summary: Option<string>,
    url: Option<string>,
    tone: Option<real>,
    createdAt: Option<string>)

  /** One row of table `items`; headline, source and created_at are NOT NULL. */
  datatype Row = Row(
    id: string,
    itemType: string,
    topic: string,
    headline: string,
    source: string,
    publishedDate: Option<string>,
    summary: Option<string>,
    url: Option<string>,
    tone: Option<real>,
    createdAt: string)

  /** The NOT NULL columns headline and source have values (created_at
      always has one); otherwise INSERT OR IGNORE skips the row (IGNORE
      covers NOT NULL violations). */
  predicate Insertable(item: Item)
  {
    item.headline.Some? && item.source.Some?
  }

  /** The row `save_items` offers for `item`; `now` is the current time,
      used when `created_at` is missing or empty. None when the row violates
      a NOT NULL constraint. */
  function ToRow(item: Item, now: string): (row: Option<Row>)
    ensures row.Some? <==> Insertable(item)
    ensures row.Some? ==>
              row.value.id == item.id && row.value.itemType == item.itemType &&
              row.value.topic == item.topic && row.value.headline == item.headline.value &&
              row.value.source == item.source.value && row.value.publishedDate == item.publishedDate &&
              row.value.summary == item.summary && row.value.url == item.url && row.value.tone == item.tone
    ensures row.Some? && Truthy(item.createdAt) ==> row.value.createdAt == item.createdAt.value
    ensures row.Some? && !Truthy(item.createdAt) ==> row.value.createdAt == now
  {
    if !Insertable(item) then None
    else
      Some(Row(item.id, item.itemType, item.topic, item.headline.value, item.source.value,
               item.publishedDate, item.summary, item.url, item.tone, Or(item.createdAt, now)))
  }

  /** `INSERT OR IGNORE` of one item. */
  function InsertOrIgnore(rows: map<string, Row>, item: Item, now: string): map<string, Row>
  {
    match ToRow(item, now)
    case None => rows
    case Some(row) => if row.id in rows then rows else rows[row.id := row]
  }

  /** Saving `item` into `rows` adds a row (`cursor.rowcount == 1`). */
  predicate Inserts(rows: map<string, Row>, item: Item)
  {
    Insertable(item) && item.id !in rows
  }

  /** The table after inserting-or-ignoring `items` in order; item `i` reads
      the clock as `clock(i)`. */
  function Saved(rows: map<string, Row>, items: seq<Item>, clock: nat -> string): map<string, Row>
  {
    if items == [] then rows
    else
      var n := |items| - 1;
      InsertOrIgnore(Saved(rows, items[..n], clock), items[n], clock(n))
  }

  /** The ids the loop actually inserts, in order. */
  function NewIds(rows: map<string, Row>, items: seq<Item>, clock: nat -> string): seq<string>
  {
    if items == [] then []
    else
      var n := |items| - 1;
      NewIds(rows, items[..n], clock) +
        (if Inserts(Saved(rows, items[..n], clock), items[n]) then [items[n].id] else [])
  }

  /** The ids of the items of a batch that satisfy the NOT NULL constraints. */
  function BatchIds(items: seq<Item>): set<string>
  {
    set i | 0 <= i < |items| && Insertable(items[i]) :: items[i].id
  }

  lemma BatchIdsLast(items: seq<Item>)
    requires items != []
    ensures BatchIds(items) ==
              BatchIds(items[..|items| - 1]) +
              (if Insertable(items[|items| - 1]) then {items[|items| - 1].id} else {})
  {
    var n := |items| - 1;
    forall id | id in BatchIds(items)
      ensures id in BatchIds(items[..n]) + (if Insertable(items[n]) then {items[n].id} else {})
    {
      var i :| 0 <= i < |items| && Insertable(items[i]) && items[i].id == id;
      if i < n {
        assert items[..n][i] == items[i];
      }
    }
    forall id | id in BatchIds(items[..n])
      ensures id in BatchIds(items)
    {
      var i :| 0 <= i < n && Insertable(items[..n][i]) && items[..n][i].id == id;
      assert items[i] == items[..n][i];
    }
  }

  /** One more item: the table and the new ids of `items[..i + 1]` extend
      those of `items[..i]` by that item's insert-or-ignore. */
  lemma SavedStep(rows: map<string, Row>, items: seq<Item>, clock: nat -> string, i: nat)
    requires i < |items|
    ensures Saved(rows, items[..i + 1], clock) ==
              InsertOrIgnore(Saved(rows, items[..i], clock), items[i], clock(i))
    ensures NewIds(rows, items[..i + 1], clock) ==
              NewIds(rows, items[..i], clock) +
                (if Inserts(Saved(rows, items[..i], clock), items[i]) then [items[i].id] else [])
  {
    assert items[..i + 1][..i] == items[..i];
  }

  /** Saving never overwrites or removes a row; the ids it adds are those of
      the insertable items of the batch. */
  lemma {:induction false} SavedKeys(rows: map<string, Row>, items: seq<Item>, clock: nat -> string)
    ensures Saved(rows, items, clock).Keys == rows.Keys + BatchIds(items)
    ensures forall id :: id in rows ==> Saved(rows, items, clock)[id] == rows[id]
  {
    if items != [] {
      SavedKeys(rows, items[..|items| - 1], clock);
      BatchIdsLast(items);
    }
  }

  /** `NewIds` lists exactly the ids the batch adds to the table. */
  lemma {:induction false} NewIdsAdded(rows: map<string, Row>, items: seq<Item>, clock: nat -> string)
    ensures forall id :: id in NewIds(rows, items, clock) <==>
              id in Saved(rows, items, clock) && id !in rows
  {
    if items != [] {
      var n := |items| - 1;
      NewIdsAdded(rows, items[..n], clock);
      SavedKeys(rows, items[..n], clock);
    }
  }

  /** ... once each, and one per row added. */
  lemma {:induction false} NewIdsDistinct(rows: map<string, Row>, items: seq<Item>, clock: nat -> string)
    ensures forall i, j :: 0 <= i < j < |NewIds(rows, items, clock)| ==>
              NewIds(rows, items, clock)[i] != NewIds(rows, items, clock)[j]
    ensures |NewIds(rows, items, clock)| == |Saved(rows, items, clock)| - |rows|
  {
    if items != [] {
      var n := |items| - 1;
      var before := Saved(rows, items[..n], clock);
      var prev := NewIds(rows, items[..n], clock);
      NewIdsDistinct(rows, items[..n], clock);
      if Inserts(before, items[n]) {
        NewIdsAdded(rows, items[..n], clock);
        var row := ToRow(items[n], clock(n)).value;
        assert Saved(rows, items, clock) == before[row.id := row];
        assert NewIds(rows, items, clock) == prev + [items[n].id];
        assert items[n].id !in prev;
      } else {
        assert Saved(rows, items, clock) == before;
        assert NewIds(rows, items, clock) == prev;
      }
    }
  }

  /** Saving adds exactly one row per distinct new id of the batch: those
      ids are `NewIds`; none was in the table before,
      none repeats, and the count is the number of distinct ids of the
      batch's insertable items that were not yet stored. */
  lemma SavedTable(rows: map<string, Row>, items: seq<Item>, clock: nat -> string)
    ensures Saved(rows, items, clock).Keys == rows.Keys + BatchIds(items)
    ensures forall id :: id in rows ==> Saved(rows, items, clock)[id] == rows[id]
    ensures forall id :: id in NewIds(rows, items, clock) <==> id in BatchIds(items) && id !in rows
    ensures forall i, j :: 0 <= i < j < |NewIds(rows, items, clock)| ==>
              NewIds(rows, items, clock)[i] != NewIds(rows, items, clock)[j]
    ensures |NewIds(rows, items, clock)| == |BatchIds(items) - rows.Keys|
  {
    var after := Saved(rows, items, clock);
    var ids := NewIds(rows, items, clock);
    SavedKeys(rows, items, clock);
    NewIdsAdded(rows, items, clock);
    NewIdsDistinct(rows, items, clock);
    assert BatchIds(items) - rows.Keys == after.Keys - rows.Keys;
    SubsetDifference(after.Keys, rows.Keys);
    assert |after.Keys| == |after| && |rows.Keys| == |rows|;
  }

  lemma SubsetDifference<T>(a: set<T>, b: set<T>)
    requires b <= a
    ensures |a - b| == |a| - |b|
  {
    assert a == (a - b) + b;
    assert (a - b) * b == {};
  }

  /** Saving a batch whose every insertable id is already stored changes nothing. */
  lemma {:induction false} SavedCovered(rows: map<string, Row>, items: seq<Item>, clock: nat -> string)
    requires BatchIds(items) <= rows.Keys
    ensures Saved(rows, items, clock) == rows
    ensures NewIds(rows, items, clock) == []
  {
    if items != [] {
      var n := |items| - 1;
      BatchIdsLast(items);
      SavedCovered(rows, items[..n], clock);
    }
  }

  /** `save_items` is idempotent: saving the same batch again, at any later
      time, inserts nothing and leaves the table as it was. */
  lemma SaveIdempotent(rows: map<string, Row>, items: seq<Item>, clock: nat -> string, later: nat -> string)
    ensures Saved(Saved(rows, items, clock), items, later) == Saved(rows, items, clock)
    ensures NewIds(Saved(rows, items, clock), items, later) == []
  {
    SavedTable(rows, items, clock);
    SavedCovered(Saved(rows, items, clock), items, later);
  }

  /** The count `save_items` returns lies between 0 and the batch size. */
  lemma {:induction false} NewIdsBound(rows: map<string, Row>, items: seq<Item>, clock: nat -> string)
    ensures |NewIds(rows, items, clock)| <= |items|
  {
    if items != [] {
      NewIdsBound(rows, items[..|items| - 1], clock);
    }
  }

  // ---------------------------------------------------------------------
  // Reading: filter, order by created_at descending, limit
  // ---------------------------------------------------------------------

  /** The `WHERE item_type = ?` filter, applied only when `item_type` is truthy. */
  predicate Selected(row: Row, itemType: Option<string>)
  {
    !Truthy(itemType) || row.itemType == itemType.value
  }

  /** The selected rows, in the order of `order`. */
  function Matching(rows: map<string, Row>, order: seq<string>, itemType: Option<string>): seq<Row>
    requires forall i :: 0 <= i < |order| ==> order[i] in rows
  {
    if order == [] then []
    else
      var row := rows[order[|order| - 1]];
      Matching(rows, order[..|order| - 1], itemType) + (if Selected(row, itemType) then [row] else [])
  }

  predicate DistinctIds(s: seq<Row>)
  {
    forall i, j :: 0 <= i < j < |s| ==> s[i].id != s[j].id
  }

  /** The selected rows are exactly the selected rows of the table, once each. */
  lemma {:induction false} MatchingRows(rows: map<string, Row>, order: seq<string>, itemType: Option<string>)
    requires forall i :: 0 <= i < |order| ==> order[i] in rows
    requires forall id :: id in rows ==> rows[id].id == id
    requires forall i, j :: 0 <= i < j < |order| ==> order[i] != order[j]
    ensures forall x :: x in Matching(rows, order, itemType) ==>
              x.id in order && x.id in rows && rows[x.id] == x && Selected(x, itemType)
    ensures forall i :: 0 <= i < |order| && Selected(rows[order[i]], itemType) ==>
              rows[order[i]] in Matching(rows, order, itemType)
    ensures DistinctIds(Matching(rows, order, itemType))
  {
    if order != [] {
      var n := |order| - 1;
      MatchingRows(rows, order[..n], itemType);
      var prefix := Matching(rows, order[..n], itemType);
      forall x | x in prefix ensures x.id != order[n] {
        var k :| 0 <= k < n && order[..n][k] == x.id;
      }
      forall i | 0 <= i < |order| && Selected(rows[order[i]], itemType)
        ensures rows[order[i]] in Matching(rows, order, itemType)
      {
        if i < n {
          assert order[..n][i] == order[i];
        }
      }
    }
  }

  /** Places `x` before the first row that is not newer than it. */
  function InsertNewestFirst(x: Row, s: seq<Row>): seq<Row>
  {
    if s == [] then [x]
    else if LexLe(s[0].createdAt, x.createdAt) then [x] + s
    else [s[0]] + InsertNewestFirst(x, s[1..])
  }

  /** `ORDER BY created_at DESC` (the order among equal timestamps is not fixed by SQL). */
  function NewestFirst(s: seq<Row>): seq<Row>
  {
    if s == [] then [] else InsertNewestFirst(s[|s| - 1], NewestFirst(s[..|s| - 1]))
  }

  predicate SortedNewestFirst(s: seq<Row>)
  {
    forall i, j :: 0 <= i < j < |s| ==> LexLe(s[j].createdAt, s[i].createdAt)
  }

  lemma {:induction false} InsertNewestFirstPermutes(x: Row, s: seq<Row>)
    ensures multiset(InsertNewestFirst(x, s)) == multiset(s) + multiset{x}
  {
    if s != [] && !LexLe(s[0].createdAt, x.createdAt) {
      InsertNewestFirstPermutes(x, s[1..]);
      assert s == [s[0]] + s[1..];
    }
  }

  lemma {:induction false} InsertNewestFirstSorted(x: Row, s: seq<Row>)
    requires SortedNewestFirst(s)
    ensures SortedNewestFirst(InsertNewestFirst(x, s))
  {
    if s == [] {
    } else if LexLe(s[0].createdAt, x.createdAt) {
      forall j | 0 <= j < |s| ensures LexLe(s[j].createdAt, x.createdAt) {
        if j > 0 {
          LexLeTransitive(s[j].createdAt, s[0].createdAt, x.createdAt);
        }
      }
    } else {
      LexLeTotal(s[0].createdAt, x.createdAt);
      var rest := InsertNewestFirst(x, s[1..]);
      InsertNewestFirstSorted(x, s[1..]);
      InsertNewestFirstPermutes(x, s[1..]);
      forall k | 0 <= k < |rest| ensures LexLe(rest[k].createdAt, s[0].createdAt) {
        assert rest[k] in multiset(rest);
        assert rest[k] == x || rest[k] in multiset(s[1..]);
      }
    }
  }

  lemma {:induction false} InsertNewestFirstDistinct(x: Row, s: seq<Row>)
    requires DistinctIds(s)
    requires forall y :: y in s ==> y.id != x.id
    ensures DistinctIds(InsertNewestFirst(x, s))
  {
    if s != [] && !LexLe(s[0].createdAt, x.createdAt) {
      var rest := InsertNewestFirst(x, s[1..]);
      InsertNewestFirstDistinct(x, s[1..]);
      InsertNewestFirstPermutes(x, s[1..]);
      forall k | 0 <= k < |rest| ensures rest[k].id != s[0].id {
        assert rest[k] in multiset(rest);
        assert rest[k] == x || rest[k] in multiset(s[1..]);
      }
    }
  }

  /** `NewestFirst` only reorders its input ... */
  lemma {:induction false} NewestFirstPermutes(s: seq<Row>)
    ensures multiset(NewestFirst(s)) == multiset(s)
  {
    if s != [] {
      var n := |s| - 1;
      var prefix := NewestFirst(s[..n]);
      NewestFirstPermutes(s[..n]);
      InsertNewestFirstPermutes(s[n], prefix);
      assert NewestFirst(s) == InsertNewestFirst(s[n], prefix);
      MultisetLast(s);
    }
  }

  lemma MultisetLast<T>(s: seq<T>)
    requires s != []
    ensures multiset(s) == multiset(s[..|s| - 1]) + multiset{s[|s| - 1]}
  {
    assert s == s[..|s| - 1] + [s[|s| - 1]];
  }

  /** ... into descending `created_at` order. */
  lemma {:induction false} NewestFirstSorted(s: seq<Row>)
    ensures SortedNewestFirst(NewestFirst(s))
  {
    if s != [] {
      var n := |s| - 1;
      NewestFirstSorted(s[..n]);
      InsertNewestFirstSorted(s[n], NewestFirst(s[..n]));
    }
  }

  lemma {:induction false} NewestFirstDistinct(s: seq<Row>)
    requires DistinctIds(s)
    ensures DistinctIds(NewestFirst(s))
  {
    if s != [] {
      var n := |s| - 1;
      var prefix := NewestFirst(s[..n]);
      NewestFirstDistinct(s[..n]);
      NewestFirstPermutes(s[..n]);
      forall y | y in prefix ensures y.id != s[n].id {
        assert y in multiset(prefix);
        var k :| 0 <= k < n && s[..n][k] == y;
      }
      InsertNewestFirstDistinct(s[n], prefix);
    }
  }

  /** The table is keyed by id, and `order` lists each stored id exactly once. */
  predicate Keyed(rows: map<string, Row>, order: seq<string>)
  {
    && (forall id :: id in rows ==> rows[id].id == id)
    && (forall i :: 0 <= i < |order| ==> order[i] in rows)
    && (forall id :: id in rows ==> id in order)
    && (forall i, j :: 0 <= i < j < |order| ==> order[i] != order[j])
  }

  /** Inserting a row under a new id, at the end of the order, keeps the table keyed. */
  lemma KeyedInsert(rows: map<string, Row>, order: seq<string>, row: Row)
    requires Keyed(rows, order) && row.id !in rows
    ensures Keyed(rows[row.id := row], order + [row.id])
  {
    var order' := order + [row.id];
    forall i, j | 0 <= i < j < |order'| ensures order'[i] != order'[j] {
      if j == |order| {
        assert order'[i] == order[i] && order[i] in rows;
      } else {
        assert order'[i] == order[i] && order'[j] == order[j];
      }
    }
  }

  /** The table behind one database path. `rows` maps each id to its row;
      `order` lists the ids in insertion (rowid) order. */
  class Store {
    var rows: map<string, Row>
    var order: seq<string>

    ghost predicate Valid()
      reads this
    {
      Keyed(rows, order)
    }

    /** A freshly initialised database: the table exists and is empty. */
    constructor ()
      ensures Valid() && rows == map[] && order == []
    {
      rows := map[];
      order := [];
    }

    /** `save_items`: insert-or-ignore each item in turn and count the rows
        actually inserted. */
    method SaveItems(items: seq<Item>, clock: nat -> string) returns (inserted: nat)
      requires Valid()
      modifies this
      ensures Valid()
      ensures rows == Saved(old(rows), items, clock)
      ensures order == old(order) + NewIds(old(rows), items, clock)
      ensures inserted == |NewIds(old(rows), items, clock)| == |rows| - |old(rows)|
    {
      inserted := 0;
      var i := 0;
      while i < |items|
        invariant 0 <= i <= |items|
        invariant Valid()
        invariant rows == Saved(old(rows), items[..i], clock)
        invariant order == old(order) + NewIds(old(rows), items[..i], clock)
        invariant inserted == |NewIds(old(rows), items[..i], clock)|
      {
        SavedStep(old(rows), items, clock, i);
        ghost var added := NewIds(old(rows), items[..i], clock);
        var row := ToRow(items[i], clock(i));
        if row.Some? && row.value.id !in rows {
          assert Inserts(rows, items[i]);
          KeyedInsert(rows, order, row.value);
          rows := rows[row.value.id := row.value];
          order := order + [row.value.id];
          inserted := inserted + 1;
          assert order == old(order) + (added + [items[i].id]);
        } else {
          assert !Inserts(rows, items[i]);
          assert added + [] == added;
        }
        i := i + 1;
      }
      assert items[..i] == items;
      NewIdsDistinct(old(rows), items, clock);
    }

    /** `list_items`: at most `limit` rows of the table, each once, only of
        type `itemType` when that is truthy, newest first; fewer than `limit`
        only when every selected row is returned, and no selected row left
        out is newer than one returned. */
    function ListItems(limit: nat, itemType: Option<string>): (result: seq<Row>)
      reads this
      requires Valid()
      ensures |result| <= limit
      ensures forall i :: 0 <= i < |result| ==> result[i].id in rows && rows[result[i].id] == result[i]
      ensures forall i :: 0 <= i < |result| ==> Selected(result[i], itemType)
      ensures Truthy(itemType) ==> forall i :: 0 <= i < |result| ==> result[i].itemType == itemType.value
      ensures SortedNewestFirst(result)
      ensures DistinctIds(result)
      ensures |result| < limit ==>
                forall id :: id in rows && Selected(rows[id], itemType) ==> rows[id] in result
      ensures forall id :: id in rows && Selected(rows[id], itemType) && rows[id] !in result ==>
                forall i :: 0 <= i < |result| ==> LexLe(rows[id].createdAt, result[i].createdAt)
    {
      Listing(rows, order, itemType, limit);
      Take(NewestFirst(Matching(rows, order, itemType)), limit)
    }
  }

  /** A prefix of a sequence sorted newest first with distinct ids is too. */
  lemma TakeSorted(s: seq<Row>, limit: nat)
    requires SortedNewestFirst(s) && DistinctIds(s)
    ensures SortedNewestFirst(Take(s, limit)) && DistinctIds(Take(s, limit))
  {
    var t := Take(s, limit);
    assert forall i :: 0 <= i < |t| ==> t[i] == s[i];
  }

  /** A row left out of a prefix of a sequence sorted newest first is no
      newer than any row of the prefix. */
  lemma TakeRest(s: seq<Row>, limit: nat, x: Row)
    requires SortedNewestFirst(s)
    requires x in s && x !in Take(s, limit)
    ensures forall i :: 0 <= i < |Take(s, limit)| ==> LexLe(x.createdAt, Take(s, limit)[i].createdAt)
  {
    var t := Take(s, limit);
    var j :| 0 <= j < |s| && s[j] == x;
    assert forall k :: 0 <= k < |t| ==> s[k] == t[k] != x;
  }

  /** The rows of the table `Matching` and `NewestFirst` arrange. */
  lemma SortedSelection(rows: map<string, Row>, order: seq<string>, itemType: Option<string>)
    requires forall id :: id in rows ==> rows[id].id == id
    requires forall i :: 0 <= i < |order| ==> order[i] in rows
    requires forall id :: id in rows ==> id in order
    requires forall i, j :: 0 <= i < j < |order| ==> order[i] != order[j]
    ensures var sorted := NewestFirst(Matching(rows, order, itemType));
            && SortedNewestFirst(sorted) && DistinctIds(sorted)
            && (forall x :: x in sorted ==> x.id in rows && rows[x.id] == x && Selected(x, itemType))
            && (forall id :: id in rows && Selected(rows[id], itemType) ==> rows[id] in sorted)
  {
    var selected := Matching(rows, order, itemType);
    var sorted := NewestFirst(selected);
    MatchingRows(rows, order, itemType);
    NewestFirstPermutes(selected);
    NewestFirstSorted(selected);
    NewestFirstDistinct(selected);
    forall x | x in sorted ensures x in selected {
      assert x in multiset(sorted);
    }
    forall id | id in rows && Selected(rows[id], itemType)
      ensures rows[id] in sorted
    {
      var k :| 0 <= k < |order| && order[k] == id;
      assert rows[id] in multiset(selected);
    }
  }

  /** The selected rows, newest first, cut at `limit`: the rows of the
      table that `list_items` may return. */
  lemma Listing(rows: map<string, Row>, order: seq<string>, itemType: Option<string>, limit: nat)
    requires forall id :: id in rows ==> rows[id].id == id
    requires forall i :: 0 <= i < |order| ==> order[i] in rows
    requires forall id :: id in rows ==> id in order
    requires forall i, j :: 0 <= i < j < |order| ==> order[i] != order[j]
    ensures var result := Take(NewestFirst(Matching(rows, order, itemType)), limit);
            && |result| <= limit
            && (forall i :: 0 <= i < |result| ==> result[i].id in rows && rows[result[i].id] == result[i])
            && (forall i :: 0 <= i < |result| ==> Selected(result[i], itemType))
            && SortedNewestFirst(result)
            && DistinctIds(result)
            && (|result| < limit ==>
                  forall id :: id in rows && Selected(rows[id], itemType) ==> rows[id] in result)
            && (forall id :: id in rows && Selected(rows[id], itemType) && rows[id] !in result ==>
                  forall i :: 0 <= i < |result| ==> LexLe(rows[id].createdAt, result[i].createdAt))
  {
    var sorted := NewestFirst(Matching(rows, order, itemType));
    var result := Take(sorted, limit);
    SortedSelection(rows, order, itemType);
    TakeSorted(sorted, limit);
    assert forall i :: 0 <= i < |result| ==> result[i] == sorted[i];
    assert |result| < limit ==> result == sorted;
    forall id | id in rows && Selected(rows[id], itemType) && rows[id] !in result
      ensures forall i :: 0 <= i < |result| ==> LexLe(rows[id].createdAt, result[i].createdAt)
    {
      TakeRest(sorted, limit, rows[id]);
    }
  }
}
