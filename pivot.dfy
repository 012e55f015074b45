/**
 * The pivot of `processJsonData`: a left-to-right fold over the price-book
 * entries that keeps one row per product code. The first entry of a product
 * creates its row, with a cell for every discovered currency; every later
 * entry of that product overwrites the one cell its own price key names.
 *
 * `Pivot` is the fold as a function; `ProcessJsonData` is the loop that the
 * source runs, proved equal to it. The lemmas say what the fold computes:
 * one row per distinct code in first-seen order, the active flag of the first
 * entry, and in every cell the price of the last entry that wrote it.
 */
module PivotTable {
  import opened Records
  import opened Sequences

  /** The product codes of the entries, in input order. */
  function ProductCodes<P>(records: seq<Record<P>>): seq<string>
  {
    seq(|records|, i requires 0 <= i < |records| => records[i].code)
  }

  /** The product codes of the rows, in row order. */
  function RowCodes<P>(rows: seq<Row<P>>): seq<string>
  {
    seq(|rows|, i requires 0 <= i < |rows| => rows[i].code)
  }

  /** Every entry's currency is one of `currencies`. */
  ghost predicate CoversCurrencies<P>(records: seq<Record<P>>, currencies: seq<string>)
  {
    forall i :: 0 <= i < |records| ==> records[i].currency in currencies
  }

  /** All entries carry the book id of the first one. */
  ghost predicate SingleBook<P>(records: seq<Record<P>>)
  {
    forall i :: 0 <= i < |records| ==> records[i].bookId == records[0].bookId
  }

  /** The price keys of one book over a list of currencies. */
  function PriceKeys(bookId: string, currencies: seq<string>): set<string>
  {
    set c | c in currencies :: PriceKey(bookId, c)
  }

  /** The value of a row at a key, if the row has that key. */
  function CellAt<P>(row: Row<P>, key: string): Option<Cell<P>>
  {
    if key in row.cells then Some(row.cells[key]) else None
  }

  // ---------------------------------------------------------------------------
  // The fold, as functions

  /** `acc.find(...)`: the index of the first row with the given code, if any. */
  function Lookup<P>(rows: seq<Row<P>>, code: string): (found: Option<nat>)
    ensures found.Some? ==>
      found.value < |rows| && rows[found.value].code == code &&
      forall k :: 0 <= k < found.value ==> rows[k].code != code
    ensures found.None? ==> forall k :: 0 <= k < |rows| ==> rows[k].code != code
  {
    if rows == [] then None
    else if rows[0].code == code then Some(0)
    else
      match Lookup(rows[1..], code)
      case Some(j) => Some(j + 1)
      case None => None
  }

  /**
   * The cells a new row starts with: the `forEach` over the currencies, in
   * order, writing the entry's price under its own currency and `''` under
   * every other, all keyed with the entry's own book id.
   */
  function InitialCells<P>(item: Record<P>, currencies: seq<string>): (cells: map<string, Cell<P>>)
    ensures cells.Keys == PriceKeys(item.bookId, currencies)
    ensures forall c :: c in currencies ==>
      cells[PriceKey(item.bookId, c)] == if c == item.currency then Price(item.price) else Blank
  {
    if currencies == [] then map[]
    else
      var n := |currencies| - 1;
      var c := currencies[n];
      var previous := InitialCells(item, currencies[..n]);
      var cells := previous[PriceKey(item.bookId, c) := if item.currency == c then Price(item.price) else Blank];
      assert currencies == currencies[..n] + [c];
      assert PriceKeys(item.bookId, currencies) == PriceKeys(item.bookId, currencies[..n]) + {PriceKey(item.bookId, c)};
      assert forall d :: d in currencies[..n] && d != c ==> cells[PriceKey(item.bookId, d)] == previous[PriceKey(item.bookId, d)] by {
        forall d | d in currencies[..n] && d != c
          ensures PriceKey(item.bookId, d) != PriceKey(item.bookId, c)
        {
          if PriceKey(item.bookId, d) == PriceKey(item.bookId, c) {
            PriceKeyInjective(item.bookId, d, c);
          }
        }
      }
      cells
  }

  /**
   * The row the first entry of a product creates: its code, its flag, and one
   * cell per currency under its own book id.
   */
  function InitialRow<P>(item: Record<P>, currencies: seq<string>): (row: Row<P>)
    ensures row.code == item.code && row.isActive == item.isActive
    ensures row.cells.Keys == PriceKeys(item.bookId, currencies)
    ensures forall c :: c in currencies ==>
      row.cells[PriceKey(item.bookId, c)] == if c == item.currency then Price(item.price) else Blank
  {
    Row(item.code, item.isActive, InitialCells(item, currencies))
  }

  /**
   * One step of the reduce: overwrite the entry's cell in its product's row,
   * or append a new row. No other row changes, and no row changes its code or
   * its flag.
   */
  function Upsert<P>(rows: seq<Row<P>>, item: Record<P>, currencies: seq<string>): (updated: seq<Row<P>>)
    ensures Lookup(rows, item.code).Some? ==> |updated| == |rows|
    ensures Lookup(rows, item.code).None? ==> |updated| == |rows| + 1 && updated[|rows|] == InitialRow(item, currencies)
    ensures forall k :: 0 <= k < |rows| ==> updated[k].code == rows[k].code && updated[k].isActive == rows[k].isActive
    ensures forall k :: 0 <= k < |rows| && Lookup(rows, item.code) != Some(k) ==> updated[k] == rows[k]
    ensures Lookup(rows, item.code).Some? ==>
      var j := Lookup(rows, item.code).value;
      updated[j].cells == rows[j].cells[KeyOf(item) := Price(item.price)]
  {
    match Lookup(rows, item.code)
    case Some(j) => rows[j := rows[j].(cells := rows[j].cells[KeyOf(item) := Price(item.price)])]
    case None => rows + [InitialRow(item, currencies)]
  }

  /** The reduce over all entries, left to right, from no rows: at most one row per entry. */
  function Pivot<P>(records: seq<Record<P>>, currencies: seq<string>): (rows: seq<Row<P>>)
    ensures |rows| <= |records|
  {
    if records == [] then []
    else Upsert(Pivot(records[..|records| - 1], currencies), records[|records| - 1], currencies)
  }

  // ---------------------------------------------------------------------------
  // What the fold computes, stated without the fold

  /** The first entry of a product, the one that created its row. */
  function FirstRecord<P>(records: seq<Record<P>>, code: string): (first: Record<P>)
    requires code in ProductCodes(records)
    ensures first.code == code
  {
    records[IndexOf(ProductCodes(records), code)]
  }

  /** Entry `r` writes the cell `key` of product `code`. */
  predicate Writes<P>(r: Record<P>, code: string, key: string)
  {
    r.code == code && KeyOf(r) == key
  }

  /** No entry after position `m` writes the cell `key` of product `code`. */
  predicate NoLaterWrite<P>(records: seq<Record<P>>, m: nat, code: string, key: string)
  {
    forall k :: m < k < |records| ==> !Writes(records[k], code, key)
  }

  /**
   * The price of the last entry of product `code` whose price key is `key`,
   * if there is one.
   */
  function LastPrice<P>(records: seq<Record<P>>, code: string, key: string): (p: Option<P>)
    ensures p.Some? ==>
      exists m :: 0 <= m < |records| && Writes(records[m], code, key) &&
                  records[m].price == p.value && NoLaterWrite(records, m, code, key)
    ensures p.None? ==> forall m :: 0 <= m < |records| ==> !Writes(records[m], code, key)
  {
    if records == [] then None
    else
      var n := |records| - 1;
      if Writes(records[n], code, key) then Some(records[n].price)
      else
        var p := LastPrice(records[..n], code, key);
        assert forall m :: 0 <= m < n ==> records[..n][m] == records[m];
        assert forall m :: 0 <= m < n && NoLaterWrite(records[..n], m, code, key) ==> NoLaterWrite(records, m, code, key);
        p
  }

  /**
   * The cell the pivot leaves under `key` in the row of `code`: the last price
   * written there; otherwise `''` if the first entry's `forEach` created the
   * key; otherwise no cell.
   */
  function ExpectedCell<P>(records: seq<Record<P>>, currencies: seq<string>, code: string, key: string): Option<Cell<P>>
    requires code in ProductCodes(records)
  {
    match LastPrice(records, code, key)
    case Some(p) => Some(Price(p))
    case None => if key in PriceKeys(FirstRecord(records, code).bookId, currencies) then Some(Blank) else None
  }

  // ---------------------------------------------------------------------------
  // The loops of the source

  /** The linear `find` over the accumulated rows. */
  method FindRow<P>(rows: seq<Row<P>>, code: string) returns (found: Option<nat>)
    ensures found == Lookup(rows, code)
    ensures found.Some? ==> found.value < |rows| && rows[found.value].code == code
    ensures found.None? ==> code !in RowCodes(rows)
  {
    var j := 0;
    while j < |rows|
      invariant 0 <= j <= |rows|
      invariant forall k :: 0 <= k < j ==> rows[k].code != code
    {
      if rows[j].code == code {
        return Some(j);
      }
      j := j + 1;
    }
    return None;
  }

  /** A new row: the code, the active flag and one cell per currency, filled by a loop. */
  method NewRow<P>(item: Record<P>, currencies: seq<string>) returns (row: Row<P>)
    ensures row == InitialRow(item, currencies)
    ensures row.code == item.code && row.isActive == item.isActive
    ensures row.cells.Keys == PriceKeys(item.bookId, currencies)
    ensures forall c :: c in currencies ==>
      row.cells[PriceKey(item.bookId, c)] == if c == item.currency then Price(item.price) else Blank
  {
    var cells: map<string, Cell<P>> := map[];
    for k := 0 to |currencies|
      invariant cells == InitialCells(item, currencies[..k])
    {
      var c := currencies[k];
      assert currencies[..k + 1][..k] == currencies[..k];
      cells := cells[PriceKey(item.bookId, c) := if item.currency == c then Price(item.price) else Blank];
    }
    assert currencies[..|currencies|] == currencies;
    row := Row(item.code, item.isActive, cells);
  }

  /**
   * `processJsonData`: the reduce over the entries, growing and updating the
   * row sequence in place of the accumulator array.
   */
  method ProcessJsonData<P>(records: seq<Record<P>>, currencies: seq<string>) returns (rows: seq<Row<P>>)
    ensures rows == Pivot(records, currencies)
    ensures RowCodes(rows) == Distinct(ProductCodes(records))
    ensures forall i :: 0 <= i < |rows| ==>
      rows[i].code in ProductCodes(records) && rows[i].isActive == FirstRecord(records, rows[i].code).isActive
    ensures CoversCurrencies(records, currencies) ==> CellsExpected(records, currencies, rows)
  {
    rows := [];
    var n := 0;
    while n < |records|
      invariant 0 <= n <= |records|
      invariant rows == Pivot(records[..n], currencies)
    {
      var item := records[n];
      assert records[..n + 1][..n] == records[..n];
      var found := FindRow(rows, item.code);
      match found {
        case Some(j) =>
          var priceKey := PriceKey(item.bookId, item.currency);
          rows := rows[j := rows[j].(cells := rows[j].cells[priceKey := Price(item.price)])];
        case None =>
          var newRow := NewRow(item, currencies);
          rows := rows + [newRow];
      }
      n := n + 1;
    }
    assert records[..|records|] == records;
    PivotFacts(records, currencies);
  }

  /** What the reduce's result means: row codes, first-wins flags and, with every currency listed, every cell. */
  lemma PivotFacts<P>(records: seq<Record<P>>, currencies: seq<string>)
    ensures var rows := Pivot(records, currencies);
      RowCodes(rows) == Distinct(ProductCodes(records)) &&
      (forall i :: 0 <= i < |rows| ==>
        rows[i].code in ProductCodes(records) && rows[i].isActive == FirstRecord(records, rows[i].code).isActive) &&
      (CoversCurrencies(records, currencies) ==> CellsExpected(records, currencies, rows))
  {
    PivotRowCodes(records, currencies);
    PivotIsActiveFirstWins(records, currencies);
    if CoversCurrencies(records, currencies) {
      PivotCells(records, currencies);
    }
  }

  // ---------------------------------------------------------------------------
  // Lemmas

  /** The rows are the distinct product codes in first-seen order. */
  lemma {:induction false} PivotRowCodes<P>(records: seq<Record<P>>, currencies: seq<string>)
    ensures RowCodes(Pivot(records, currencies)) == Distinct(ProductCodes(records))
  {
    if records != [] {
      var n := |records| - 1;
      var item := records[n];
      var rows := Pivot(records[..n], currencies);
      PivotRowCodes(records[..n], currencies);
      var codes := ProductCodes(records);
      assert codes[..n] == ProductCodes(records[..n]);
      assert codes[n] == item.code;
      UpsertRowCodes(rows, item, currencies);
    }
  }

  /** One step of the reduce appends the entry's code exactly when no row has it yet. */
  lemma UpsertRowCodes<P>(rows: seq<Row<P>>, item: Record<P>, currencies: seq<string>)
    ensures RowCodes(Upsert(rows, item, currencies)) ==
      if item.code in RowCodes(rows) then RowCodes(rows) else RowCodes(rows) + [item.code]
  {
    var updated := Upsert(rows, item, currencies);
    match Lookup(rows, item.code)
    case Some(j) =>
      assert RowCodes(rows)[j] == item.code;
      assert RowCodes(updated) == RowCodes(rows);
    case None =>
      assert item.code !in RowCodes(rows);
      assert RowCodes(updated) == RowCodes(rows) + [item.code];
  }

  /** Appending an entry leaves the first entry of an already seen product unchanged. */
  lemma FirstRecordOfPrefix<P>(records: seq<Record<P>>, n: nat, code: string)
    requires n <= |records| && code in ProductCodes(records[..n])
    ensures code in ProductCodes(records)
    ensures FirstRecord(records[..n], code) == FirstRecord(records, code)
  {
    assert ProductCodes(records[..n]) == ProductCodes(records)[..n];
    IndexOfPrefix(ProductCodes(records), n, code);
  }

  /** The first entry of a product not seen before is the entry itself. */
  lemma FirstRecordIsNew<P>(records: seq<Record<P>>)
    requires records != []
    requires records[|records| - 1].code !in ProductCodes(records[..|records| - 1])
    ensures records[|records| - 1].code in ProductCodes(records)
    ensures FirstRecord(records, records[|records| - 1].code) == records[|records| - 1]
  {
    var n := |records| - 1;
    var codes := ProductCodes(records);
    assert codes[..n] == ProductCodes(records[..n]);
    assert codes[n] == records[n].code;
    IndexOfUnique(codes, records[n].code, n);
  }

  /** `IsActive` is first-wins: a row keeps the flag of its product's first entry. */
  lemma {:induction false} PivotIsActiveFirstWins<P>(records: seq<Record<P>>, currencies: seq<string>)
    ensures var rows := Pivot(records, currencies);
      forall i :: 0 <= i < |rows| ==>
        rows[i].code in ProductCodes(records) &&
        rows[i].isActive == FirstRecord(records, rows[i].code).isActive
  {
    if records != [] {
      var n := |records| - 1;
      var item := records[n];
      var rows := Pivot(records[..n], currencies);
      PivotIsActiveFirstWins(records[..n], currencies);
      PivotRowCodes(records[..n], currencies);
      var rows' := Pivot(records, currencies);
      forall i | 0 <= i < |rows'|
        ensures rows'[i].code in ProductCodes(records)
        ensures rows'[i].isActive == FirstRecord(records, rows'[i].code).isActive
      {
        if i < |rows| {
          assert rows'[i].code == rows[i].code && rows'[i].isActive == rows[i].isActive;
          FirstRecordOfPrefix(records, n, rows[i].code);
        } else {
          assert Lookup(rows, item.code).None?;
          assert item.code !in RowCodes(rows);
          FirstRecordIsNew(records);
        }
      }
    }
  }

  /** A product without entries has no price written anywhere. */
  lemma LastPriceOfUnseen<P>(records: seq<Record<P>>, code: string, key: string)
    requires code !in ProductCodes(records)
    ensures LastPrice(records, code, key) == None
  {
    forall m | 0 <= m < |records|
      ensures records[m].code != code
    {
      assert ProductCodes(records)[m] == records[m].code;
    }
  }

  /** An entry that writes another product or another key leaves this expected cell as it was. */
  lemma ExpectedCellOfPrefix<P>(records: seq<Record<P>>, currencies: seq<string>, code: string, key: string)
    requires records != [] && code in ProductCodes(records[..|records| - 1])
    requires records[|records| - 1].code != code || KeyOf(records[|records| - 1]) != key
    ensures code in ProductCodes(records)
    ensures ExpectedCell(records, currencies, code, key) == ExpectedCell(records[..|records| - 1], currencies, code, key)
  {
    FirstRecordOfPrefix(records, |records| - 1, code);
  }

  /** The update of an existing row's cell by the entry that comes next. */
  lemma UpdatedCell<P>(records: seq<Record<P>>, currencies: seq<string>, row: Row<P>, key: string)
    requires records != [] && row.code == records[|records| - 1].code
    requires row.code in ProductCodes(records[..|records| - 1])
    requires CellAt(row, key) == ExpectedCell(records[..|records| - 1], currencies, row.code, key)
    ensures row.code in ProductCodes(records)
    ensures var item := records[|records| - 1];
      CellAt(row.(cells := row.cells[KeyOf(item) := Price(item.price)]), key) ==
      ExpectedCell(records, currencies, row.code, key)
  {
    var item := records[|records| - 1];
    if key == KeyOf(item) {
      FirstRecordOfPrefix(records, |records| - 1, item.code);
    } else {
      ExpectedCellOfPrefix(records, currencies, item.code, key);
    }
  }

  /** The cells of the row created by the first entry of a product. */
  lemma CreatedCell<P>(records: seq<Record<P>>, currencies: seq<string>, key: string)
    requires records != [] && records[|records| - 1].currency in currencies
    requires records[|records| - 1].code !in ProductCodes(records[..|records| - 1])
    ensures records[|records| - 1].code in ProductCodes(records)
    ensures var item := records[|records| - 1];
      CellAt(InitialRow(item, currencies), key) == ExpectedCell(records, currencies, item.code, key)
  {
    var n := |records| - 1;
    var item := records[n];
    FirstRecordIsNew(records);
    LastPriceOfUnseen(records[..n], item.code, key);
    if key != KeyOf(item) && key in PriceKeys(item.bookId, currencies) {
      var c :| c in currencies && key == PriceKey(item.bookId, c);
    }
  }

  /**
   * Every row's code is a product code and every cell of every row is the
   * expected one.
   */
  ghost predicate CellsExpected<P>(records: seq<Record<P>>, currencies: seq<string>, rows: seq<Row<P>>)
  {
    && (forall i :: 0 <= i < |rows| ==> rows[i].code in ProductCodes(records))
    && (forall i, key :: 0 <= i < |rows| ==>
          CellAt(rows[i], key) == ExpectedCell(records, currencies, rows[i].code, key))
  }

  /** One row of Upsert(rows, item) has the expected cells when all rows of `rows` had them before `item`. */
  lemma UpsertRowCells<P>(records: seq<Record<P>>, currencies: seq<string>, rows: seq<Row<P>>, i: nat, key: string)
    requires records != [] && records[|records| - 1].currency in currencies
    requires CellsExpected(records[..|records| - 1], currencies, rows)
    requires RowCodes(rows) == Distinct(ProductCodes(records[..|records| - 1]))
    requires i < |Upsert(rows, records[|records| - 1], currencies)|
    ensures var row := Upsert(rows, records[|records| - 1], currencies)[i];
      row.code in ProductCodes(records) &&
      CellAt(row, key) == ExpectedCell(records, currencies, row.code, key)
  {
    var n := |records| - 1;
    var item := records[n];
    var rows' := Upsert(rows, item, currencies);
    if i < |rows| {
      assert RowCodes(rows)[i] == rows[i].code;
      assert CellAt(rows[i], key) == ExpectedCell(records[..n], currencies, rows[i].code, key);
      if rows[i].code != item.code {
        assert rows'[i] == rows[i];
        ExpectedCellOfPrefix(records, currencies, rows[i].code, key);
      } else {
        var found := Lookup(rows, item.code);
        assert found.Some? && RowCodes(rows)[found.value] == item.code;
        assert found.value == i;
        UpdatedCell(records, currencies, rows[i], key);
      }
    } else {
      assert Lookup(rows, item.code).None?;
      assert item.code !in RowCodes(rows);
      CreatedCell(records, currencies, key);
    }
  }

  /** Upsert keeps every row's cells as expected. */
  lemma UpsertCells<P>(records: seq<Record<P>>, currencies: seq<string>, rows: seq<Row<P>>)
    requires records != [] && records[|records| - 1].currency in currencies
    requires CellsExpected(records[..|records| - 1], currencies, rows)
    requires RowCodes(rows) == Distinct(ProductCodes(records[..|records| - 1]))
    ensures CellsExpected(records, currencies, Upsert(rows, records[|records| - 1], currencies))
  {
    var rows' := Upsert(rows, records[|records| - 1], currencies);
    forall i | 0 <= i < |rows'|
      ensures rows'[i].code in ProductCodes(records)
    {
      UpsertRowCells(records, currencies, rows, i, "");
    }
    forall i, key | 0 <= i < |rows'|
      ensures CellAt(rows'[i], key) == ExpectedCell(records, currencies, rows'[i].code, key)
    {
      UpsertRowCells(records, currencies, rows, i, key);
    }
  }

  /**
   * Every cell of every row is the expected one: the price of the last entry
   * of that product with that key (last write wins, no aggregation); failing
   * that, `''` for a key the first entry created; no cell for any other key.
   */
  lemma {:induction false} PivotCells<P>(records: seq<Record<P>>, currencies: seq<string>)
    requires CoversCurrencies(records, currencies)
    ensures CellsExpected(records, currencies, Pivot(records, currencies))
  {
    if records != [] {
      var n := |records| - 1;
      var rows := Pivot(records[..n], currencies);
      PivotCells(records[..n], currencies);
      PivotRowCodes(records[..n], currencies);
      assert Pivot(records, currencies) == Upsert(rows, records[n], currencies);
      UpsertCells(records, currencies, rows);
    }
  }

  /**
   * One row per distinct product code: as many rows as distinct codes, no
   * code twice, every entry's code has a row, and rows appear in the order in
   * which their codes are first seen.
   */
  lemma RowsOnePerProduct<P>(records: seq<Record<P>>, currencies: seq<string>)
    ensures var rows := Pivot(records, currencies);
      && |rows| == |Distinct(ProductCodes(records))|
      && NoDuplicates(RowCodes(rows))
      && (forall m :: 0 <= m < |records| ==> records[m].code in RowCodes(rows))
      && (forall i :: 0 <= i < |rows| ==> rows[i].code in ProductCodes(records))
      && (forall i, j :: 0 <= i < j < |rows| ==>
            IndexOf(ProductCodes(records), rows[i].code) < IndexOf(ProductCodes(records), rows[j].code))
  {
    var rows := Pivot(records, currencies);
    var codes := ProductCodes(records);
    PivotRowCodes(records, currencies);
    DistinctFirstSeen(codes);
    forall m | 0 <= m < |records|
      ensures records[m].code in RowCodes(rows)
    {
      assert codes[m] == records[m].code;
    }
    forall i | 0 <= i < |rows|
      ensures rows[i].code == RowCodes(rows)[i] && rows[i].code in codes
    {
    }
  }

  /**
   * Last write wins: an entry that no later entry of the same product
   * overwrites (same price key) leaves its own price in its product's row.
   */
  lemma LastWriteWins<P>(records: seq<Record<P>>, currencies: seq<string>, m: nat)
    requires CoversCurrencies(records, currencies)
    requires m < |records|
    requires forall k :: m < k < |records| ==>
      !(records[k].code == records[m].code && KeyOf(records[k]) == KeyOf(records[m]))
    ensures var rows := Pivot(records, currencies);
      forall i :: 0 <= i < |rows| && rows[i].code == records[m].code ==>
        KeyOf(records[m]) in rows[i].cells && rows[i].cells[KeyOf(records[m])] == Price(records[m].price)
  {
    var rows := Pivot(records, currencies);
    var code, key := records[m].code, KeyOf(records[m]);
    PivotCells(records, currencies);
    var last := LastPrice(records, code, key);
    assert last == Some(records[m].price);
    forall i | 0 <= i < |rows| && rows[i].code == code
      ensures key in rows[i].cells && rows[i].cells[key] == Price(records[m].price)
    {
      assert CellAt(rows[i], key) == ExpectedCell(records, currencies, code, key);
    }
  }

  /**
   * Column completeness in a single-book file: a product never priced in a
   * discovered currency still has that currency's cell, and it is `''`.
   */
  lemma UnpricedCurrencyIsBlank<P>(records: seq<Record<P>>, currencies: seq<string>, i: nat, c: string)
    requires CoversCurrencies(records, currencies) && SingleBook(records)
    requires i < |Pivot(records, currencies)| && c in currencies
    requires forall m :: 0 <= m < |records| && records[m].code == Pivot(records, currencies)[i].code ==>
      records[m].currency != c
    ensures records != []
    ensures var row := Pivot(records, currencies)[i];
      PriceKey(records[0].bookId, c) in row.cells && row.cells[PriceKey(records[0].bookId, c)] == Blank
  {
    var rows := Pivot(records, currencies);
    var code := rows[i].code;
    RowsOnePerProduct(records, currencies);
    PivotCells(records, currencies);
    var key := PriceKey(records[0].bookId, c);
    var first := FirstRecord(records, code);
    assert first.bookId == records[0].bookId;
    forall m | 0 <= m < |records| && records[m].code == code
      ensures KeyOf(records[m]) != key
    {
      if KeyOf(records[m]) == key {
        PriceKeyInjective(records[0].bookId, records[m].currency, c);
      }
    }
    assert LastPrice(records, code, key).None?;
    assert CellAt(rows[i], key) == ExpectedCell(records, currencies, code, key);
  }

  /** In a single-book file, the cell under `key` exists exactly when `key` is the book's key of a listed currency. */
  lemma SingleBookCellKey<P>(records: seq<Record<P>>, currencies: seq<string>, row: Row<P>, key: string)
    requires CoversCurrencies(records, currencies) && SingleBook(records)
    requires row.code in ProductCodes(records)
    requires CellAt(row, key) == ExpectedCell(records, currencies, row.code, key)
    ensures records != []
    ensures key in row.cells <==> key in PriceKeys(records[0].bookId, currencies)
  {
    var b := records[0].bookId;
    var first := FirstRecord(records, row.code);
    assert first == records[IndexOf(ProductCodes(records), row.code)];
    assert first.bookId == b;
    if LastPrice(records, row.code, key).Some? {
      var m :| 0 <= m < |records| && records[m].code == row.code && KeyOf(records[m]) == key;
      assert records[m].bookId == b && records[m].currency in currencies;
    }
  }

  /**
   * In a single-book file every row carries exactly the keys of that book over
   * the currencies: the first entry creates them all and a later entry only
   * overwrites one of them.
   */
  lemma SingleBookRowKeys<P>(records: seq<Record<P>>, currencies: seq<string>, i: nat)
    requires CoversCurrencies(records, currencies) && SingleBook(records)
    requires i < |Pivot(records, currencies)|
    ensures records != []
    ensures Pivot(records, currencies)[i].cells.Keys == PriceKeys(records[0].bookId, currencies)
  {
    var row := Pivot(records, currencies)[i];
    PivotCells(records, currencies);
    assert row.code in ProductCodes(records);
    forall key
      ensures key in row.cells <==> key in PriceKeys(records[0].bookId, currencies)
    {
      assert CellAt(row, key) == ExpectedCell(records, currencies, row.code, key);
      SingleBookCellKey(records, currencies, row, key);
    }
  }
}
