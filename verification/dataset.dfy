/**
 * `get_database_dataset_items` of the solution report: the dataset items of
 * one calculated-question dataset definition.
 *
 * The query returns the definition's item records ordered by `id`
 * descending.  Walking them in that order, the first record seen for an
 * item number is kept and later ones are ignored, so when several records
 * share an item number the newest one (the greatest id) wins.  The result
 * is then sorted by item number (`ksort`).
 */
module DatasetItems {
  import opened Filtering

  /** One row of `question_dataset_items`. */
  datatype ItemRecord = ItemRecord(id: int, itemNumber: int, definition: int, value: string)

  /** The query's `WHERE definition = $definition`, keeping the row order. */
  function ForDefinition(rows: seq<ItemRecord>, definition: int): (r: seq<ItemRecord>)
    ensures forall x :: x in r <==> x in rows && x.definition == definition
  {
    if |rows| == 0 then []
    else if rows[0].definition == definition then [rows[0]] + ForDefinition(rows[1..], definition)
    else ForDefinition(rows[1..], definition)
  }

  /**
   * `ForDefinition` is the order-preserving filter: its records are the
   * matching rows, each of them, at strictly increasing positions.
   */
  lemma {:induction false} ForDefinitionInOrder(rows: seq<ItemRecord>, definition: int) returns (idx: seq<nat>)
    ensures PicksAt(rows, ForDefinition(rows, definition), idx) && Ascending(idx)
    ensures Covers(rows, (x: ItemRecord) => x.definition == definition, idx)
  {
    if |rows| == 0 {
      idx := [];
    } else {
      var tailIdx := ForDefinitionInOrder(rows[1..], definition);
      idx := FilterStep(rows, (x: ItemRecord) => x.definition == definition, ForDefinition(rows, definition),
                        ForDefinition(rows[1..], definition), tailIdx);
    }
  }

  /** Ids never increase along the rows: the query's `ORDER BY id DESC`. */
  ghost predicate IdsDescending(rows: seq<ItemRecord>) {
    forall i, j :: 0 <= i < j < |rows| ==> rows[i].id >= rows[j].id
  }

  /** Putting a record with an id at least every other id in front keeps the order. */
  lemma IdsCons(y: ItemRecord, rows: seq<ItemRecord>)
    requires IdsDescending(rows)
    requires forall z :: z in rows ==> z.id <= y.id
    ensures IdsDescending([y] + rows)
  {
    var r := [y] + rows;
    forall i, j | 0 <= i < j < |r| ensures r[i].id >= r[j].id {
      if i > 0 {
        assert r[i] == rows[i - 1] && r[j] == rows[j - 1];
      } else {
        assert r[j] in rows;
      }
    }
  }

  /** The first of id-descending rows has the greatest id, and the rest stay in order. */
  lemma IdsSplitFirst(rows: seq<ItemRecord>)
    requires IdsDescending(rows) && |rows| > 0
    ensures IdsDescending(rows[1..])
    ensures forall z :: z in rows[1..] ==> z.id <= rows[0].id
    ensures multiset(rows) == multiset{rows[0]} + multiset(rows[1..])
  {
    assert rows == [rows[0]] + rows[1..];
    forall z | z in rows[1..] ensures z.id <= rows[0].id {
      var k :| 0 <= k < |rows[1..]| && rows[1..][k] == z;
      assert rows[k + 1] == z;
    }
  }

  /** Adds a record at its place in id-descending rows. */
  function InsertById(rows: seq<ItemRecord>, x: ItemRecord): (r: seq<ItemRecord>)
    requires IdsDescending(rows)
    ensures IdsDescending(r)
    ensures multiset(r) == multiset(rows) + multiset{x}
  {
    if |rows| == 0 then [x]
    else if rows[0].id <= x.id then
      IdsSplitFirst(rows);
      IdsCons(x, rows);
      [x] + rows
    else
      IdsSplitFirst(rows);
      var rest := InsertById(rows[1..], x);
      InsertBehindGreatest(rows, x, rest);
      [rows[0]] + rest
  }

  /** The first row stays in front of a smaller-id insertion into the rest. */
  lemma InsertBehindGreatest(rows: seq<ItemRecord>, x: ItemRecord, rest: seq<ItemRecord>)
    requires |rows| > 0 && x.id < rows[0].id
    requires forall z :: z in rows[1..] ==> z.id <= rows[0].id
    requires multiset(rows) == multiset{rows[0]} + multiset(rows[1..])
    requires IdsDescending(rest) && multiset(rest) == multiset(rows[1..]) + multiset{x}
    ensures IdsDescending([rows[0]] + rest)
    ensures multiset([rows[0]] + rest) == multiset(rows) + multiset{x}
  {
    forall z | z in rest ensures z.id <= rows[0].id {
      assert z in multiset(rest);
    }
    IdsCons(rows[0], rest);
  }

  /** The rows in the query's `ORDER BY id DESC`. */
  function SortByIdDescending(rows: seq<ItemRecord>): (r: seq<ItemRecord>)
    ensures IdsDescending(r)
    ensures multiset(r) == multiset(rows)
  {
    if |rows| == 0 then []
    else
      assert rows == [rows[0]] + rows[1..];
      InsertById(SortByIdDescending(rows[1..]), rows[0])
  }

  /**
   * The rows `get_records_sql` returns: the definition's records of the
   * item table, newest (greatest id) first.
   */
  function QueryRows(table: seq<ItemRecord>, definition: int): (r: seq<ItemRecord>)
    ensures IdsDescending(r)
    ensures multiset(r) == multiset(ForDefinition(table, definition))
    ensures forall x :: x in r <==> x in table && x.definition == definition
  {
    var r := SortByIdDescending(ForDefinition(table, definition));
    assert forall x :: x in r <==> x in multiset(ForDefinition(table, definition));
    r
  }

  /** Item numbers strictly ascending, hence each at most once. */
  ghost predicate StrictlySorted(items: seq<ItemRecord>) {
    forall i, j :: 0 <= i < j < |items| ==> items[i].itemNumber < items[j].itemNumber
  }

  ghost function ItemNumbers(items: seq<ItemRecord>): set<int> {
    set x | x in items :: x.itemNumber
  }

  /** `rows[i]` is the first row with its item number. */
  ghost predicate FirstOfItem(rows: seq<ItemRecord>, i: int) {
    0 <= i < |rows| && forall j :: 0 <= j < i ==> rows[j].itemNumber != rows[i].itemNumber
  }

  /** Prepending a record below every item number keeps the order strict. */
  lemma SortedCons(y: ItemRecord, items: seq<ItemRecord>)
    requires StrictlySorted(items)
    requires forall z :: z in items ==> y.itemNumber < z.itemNumber
    ensures StrictlySorted([y] + items)
  {
    var r := [y] + items;
    forall i, j | 0 <= i < j < |r| ensures r[i].itemNumber < r[j].itemNumber {
      if i > 0 {
        assert r[i] == items[i - 1] && r[j] == items[j - 1];
      } else {
        assert r[j] in items;
      }
    }
  }

  /** The first record of a sorted list lies below the rest, which is sorted too. */
  lemma SplitFirst(items: seq<ItemRecord>)
    requires StrictlySorted(items) && |items| > 0
    ensures StrictlySorted(items[1..])
    ensures forall z :: z in items[1..] ==> items[0].itemNumber < z.itemNumber
    ensures forall y :: y in items <==> y == items[0] || y in items[1..]
    ensures ItemNumbers(items) == {items[0].itemNumber} + ItemNumbers(items[1..])
  {
    var tail := items[1..];
    assert items == [items[0]] + tail;
    forall z | z in tail ensures items[0].itemNumber < z.itemNumber {
      var k :| 0 <= k < |tail| && tail[k] == z;
      assert items[k + 1] == z;
    }
  }

  /** A record below the first of a sorted list is below all of it. */
  lemma BelowFirst(x: ItemRecord, items: seq<ItemRecord>)
    requires StrictlySorted(items) && |items| > 0 && x.itemNumber < items[0].itemNumber
    ensures forall z :: z in items ==> x.itemNumber < z.itemNumber
    ensures x.itemNumber !in ItemNumbers(items)
  {
    SplitFirst(items);
  }

  /**
   * Adds `x` at its sorted place unless its item number is already there,
   * in which case the earlier record stays.
   */
  function InsertIfAbsent(items: seq<ItemRecord>, x: ItemRecord): (r: seq<ItemRecord>)
    requires StrictlySorted(items)
    ensures StrictlySorted(r)
    ensures x.itemNumber in ItemNumbers(items) ==> r == items
    ensures forall y :: y in r <==> y in items || (y == x && x.itemNumber !in ItemNumbers(items))
  {
    if |items| == 0 then [x]
    else if items[0].itemNumber == x.itemNumber then
      assert items[0] in items;
      items
    else if x.itemNumber < items[0].itemNumber then
      BelowFirst(x, items);
      SortedCons(x, items);
      [x] + items
    else
      SplitFirst(items);
      var rest := InsertIfAbsent(items[1..], x);
      InsertBehindFirst(items, x, rest);
      [items[0]] + rest
  }

  /** Inserting behind the first record: the first record stays in front. */
  lemma InsertBehindFirst(items: seq<ItemRecord>, x: ItemRecord, rest: seq<ItemRecord>)
    requires StrictlySorted(items) && |items| > 0 && items[0].itemNumber < x.itemNumber
    requires StrictlySorted(rest)
    requires x.itemNumber in ItemNumbers(items[1..]) ==> rest == items[1..]
    requires forall y :: y in rest <==> y in items[1..] || (y == x && x.itemNumber !in ItemNumbers(items[1..]))
    ensures StrictlySorted([items[0]] + rest)
    ensures x.itemNumber in ItemNumbers(items) ==> [items[0]] + rest == items
    ensures forall y :: y in [items[0]] + rest <==> y in items || (y == x && x.itemNumber !in ItemNumbers(items))
  {
    SplitFirst(items);
    BehindFirstSorted(items, x, rest);
    BehindFirstKeeps(items, x, rest);
    BehindFirstMembers(items, x, rest);
  }

  lemma BehindFirstSorted(items: seq<ItemRecord>, x: ItemRecord, rest: seq<ItemRecord>)
    requires StrictlySorted(items) && |items| > 0 && items[0].itemNumber < x.itemNumber
    requires StrictlySorted(rest)
    requires forall y :: y in rest ==> y in items[1..] || y == x
    ensures StrictlySorted([items[0]] + rest)
  {
    SplitFirst(items);
    SortedCons(items[0], rest);
  }

  lemma BehindFirstKeeps(items: seq<ItemRecord>, x: ItemRecord, rest: seq<ItemRecord>)
    requires |items| > 0 && items[0].itemNumber < x.itemNumber
    requires ItemNumbers(items) == {items[0].itemNumber} + ItemNumbers(items[1..])
    requires x.itemNumber in ItemNumbers(items[1..]) ==> rest == items[1..]
    ensures x.itemNumber in ItemNumbers(items) ==> [items[0]] + rest == items
  {
    assert items == [items[0]] + items[1..];
  }

  lemma BehindFirstMembers(items: seq<ItemRecord>, x: ItemRecord, rest: seq<ItemRecord>)
    requires |items| > 0 && items[0].itemNumber < x.itemNumber
    requires ItemNumbers(items) == {items[0].itemNumber} + ItemNumbers(items[1..])
    requires forall y :: y in items <==> y == items[0] || y in items[1..]
    requires forall y :: y in rest <==> y in items[1..] || (y == x && x.itemNumber !in ItemNumbers(items[1..]))
    ensures forall y :: y in [items[0]] + rest <==> y in items || (y == x && x.itemNumber !in ItemNumbers(items))
  {
    assert x.itemNumber in ItemNumbers(items) <==> x.itemNumber in ItemNumbers(items[1..]);
  }

  /** The item numbers after an insertion. */
  lemma InsertItemNumbers(items: seq<ItemRecord>, x: ItemRecord)
    requires StrictlySorted(items)
    ensures ItemNumbers(InsertIfAbsent(items, x)) == ItemNumbers(items) + {x.itemNumber}
  {
    var r := InsertIfAbsent(items, x);
    if x.itemNumber !in ItemNumbers(items) {
      assert x in r;
    }
  }

  /**
   * The loop of `get_database_dataset_items` over the query rows, followed
   * by `ksort`: one record per item number, item numbers ascending, and each
   * kept record the first row carrying its item number.
   */
  function KeepFirstPerItem(rows: seq<ItemRecord>): (r: seq<ItemRecord>)
    ensures StrictlySorted(r)
    ensures ItemNumbers(r) == ItemNumbers(rows)
    ensures forall x :: x in r ==> exists i :: FirstOfItem(rows, i) && rows[i] == x
  {
    if |rows| == 0 then []
    else
      var kept := KeepFirstPerItem(rows[..|rows| - 1]);
      KeepStep(rows, rows[..|rows| - 1], rows[|rows| - 1], kept);
      InsertIfAbsent(kept, rows[|rows| - 1])
  }

  /** One step of the loop: the next row is kept only when its item number is new. */
  lemma KeepStep(rows: seq<ItemRecord>, front: seq<ItemRecord>, last: ItemRecord, kept: seq<ItemRecord>)
    requires rows == front + [last] && StrictlySorted(kept)
    requires ItemNumbers(kept) == ItemNumbers(front)
    requires forall x :: x in kept ==> exists i :: FirstOfItem(front, i) && front[i] == x
    ensures ItemNumbers(InsertIfAbsent(kept, last)) == ItemNumbers(rows)
    ensures forall x :: x in InsertIfAbsent(kept, last) ==> exists i :: FirstOfItem(rows, i) && rows[i] == x
  {
    assert ItemNumbers(rows) == ItemNumbers(front) + {last.itemNumber};
    InsertItemNumbers(kept, last);
    forall x | x in InsertIfAbsent(kept, last) ensures exists i :: FirstOfItem(rows, i) && rows[i] == x {
      if x in kept {
        var i :| FirstOfItem(front, i) && front[i] == x;
        assert FirstOfItem(rows, i);
      } else {
        assert x == last && last.itemNumber !in ItemNumbers(front);
        assert forall j :: 0 <= j < |front| ==> front[j].itemNumber in ItemNumbers(front);
        assert FirstOfItem(rows, |rows| - 1);
      }
    }
  }

  /**
   * `get_database_dataset_items($definition)` over the whole item table:
   * one record per item number of the definition, item numbers ascending,
   * and for each item number the record with the greatest id.
   */
  function DatasetItemsOf(table: seq<ItemRecord>, definition: int): (r: seq<ItemRecord>)
    ensures StrictlySorted(r)
    ensures forall x :: x in r ==> x in table && x.definition == definition
    ensures ItemNumbers(r) == ItemNumbers(ForDefinition(table, definition))
    ensures forall x, y :: x in r && y in table && y.definition == definition && y.itemNumber == x.itemNumber ==>
              y.id <= x.id
  {
    var rows := QueryRows(table, definition);
    var r := KeepFirstPerItem(rows);
    KeptRowsAreRows(rows, r);
    SameMembersSameNumbers(rows, ForDefinition(table, definition));
    forall x, y | x in r && y in table && y.definition == definition && y.itemNumber == x.itemNumber
      ensures y.id <= x.id
    {
      NewestRecordWins(rows, x, y);
    }
    r
  }

  /** Every kept record is one of the rows. */
  lemma KeptRowsAreRows(rows: seq<ItemRecord>, r: seq<ItemRecord>)
    requires r == KeepFirstPerItem(rows)
    ensures forall x :: x in r ==> x in rows
  {
    forall x | x in r ensures x in rows {
      var i :| FirstOfItem(rows, i) && rows[i] == x;
    }
  }

  /** Lists with the same records have the same item numbers. */
  lemma SameMembersSameNumbers(a: seq<ItemRecord>, b: seq<ItemRecord>)
    requires forall x :: x in a <==> x in b
    ensures ItemNumbers(a) == ItemNumbers(b)
  {
  }

  /**
   * With the rows in the query's id-descending order, the record kept for
   * an item number has the greatest id among the rows with that number.
   */
  lemma NewestRecordWins(rows: seq<ItemRecord>, x: ItemRecord, y: ItemRecord)
    requires IdsDescending(rows)
    requires x in KeepFirstPerItem(rows)
    requires y in rows && y.itemNumber == x.itemNumber
    ensures y.id <= x.id
  {
    var i :| FirstOfItem(rows, i) && rows[i] == x;
    var j :| 0 <= j < |rows| && rows[j] == y;
    assert !(j < i);
  }

  /** Each item number of the rows appears exactly once in the result. */
  lemma EachItemNumberOnce(rows: seq<ItemRecord>, n: int)
    requires n in ItemNumbers(rows)
    ensures exists i :: 0 <= i < |KeepFirstPerItem(rows)| && KeepFirstPerItem(rows)[i].itemNumber == n
    ensures forall i, j :: 0 <= i < j < |KeepFirstPerItem(rows)| ==>
              KeepFirstPerItem(rows)[i].itemNumber != KeepFirstPerItem(rows)[j].itemNumber
  {
    var r := KeepFirstPerItem(rows);
    assert n in ItemNumbers(r);
    var x :| x in r && x.itemNumber == n;
    var i :| 0 <= i < |r| && r[i] == x;
  }
}
