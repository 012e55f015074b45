/**
 * `convertJsonToCsv` without its file I/O: discover the currencies of the
 * parsed entries, pivot the entries, derive the header. The lemmas relate the
 * three: the header's price columns are exactly the keys every row carries
 * when the file has one book id, and not when it has several.
 */
module Convert {
  import opened Records
  import opened Sequences
  import opened PivotTable
  import opened Header

  /** The currencies of the entries, in input order (`records.map(...)`). */
  function CurrencyCodes<P>(records: seq<Record<P>>): (codes: seq<string>)
    ensures |codes| == |records|
    ensures forall m :: 0 <= m < |records| ==> codes[m] == records[m].currency
  {
    seq(|records|, i requires 0 <= i < |records| => records[i].currency)
  }

  /**
   * `Array.from(new Set(records.map(item => item.CurrencyIsoCode)))`: every
   * currency of the file once, and nothing else.
   */
  function UniqueCurrencies<P>(records: seq<Record<P>>): (currencies: seq<string>)
    ensures NoDuplicates(currencies)
    ensures CoversCurrencies(records, currencies)
    ensures forall c :: c in currencies ==> exists m :: 0 <= m < |records| && records[m].currency == c
  {
    var codes := CurrencyCodes(records);
    assert forall m :: 0 <= m < |records| ==> codes[m] == records[m].currency;
    Distinct(codes)
  }

  /** The discovered currencies are listed in the order of their first occurrence. */
  lemma UniqueCurrenciesFirstSeen<P>(records: seq<Record<P>>)
    ensures var currencies := UniqueCurrencies(records);
      forall i, j :: 0 <= i < j < |currencies| ==>
        IndexOf(CurrencyCodes(records), currencies[i]) < IndexOf(CurrencyCodes(records), currencies[j])
  {
    DistinctFirstSeen(CurrencyCodes(records));
  }

  /** A file without entries has no currencies and a header of the two fixed columns only. */
  lemma EmptyFileHeader<P>(records: seq<Record<P>>)
    requires records == []
    ensures UniqueCurrencies(records) == []
    ensures CsvHeader(records, UniqueCurrencies(records)) ==
      [Column(ArticleSapCode, ProductTitle), Column(IsActiveColumn, IsActiveColumn)]
  {
    assert CurrencyCodes(records) == [];
  }

  /**
   * Header/row key agreement: when every entry has the first entry's book id,
   * the price keys of every row are exactly the header's price-column ids,
   * so later entries never add a key and no price falls outside the header.
   */
  lemma HeaderMatchesRowKeys<P>(records: seq<Record<P>>)
    requires SingleBook(records)
    ensures var currencies := UniqueCurrencies(records);
      var rows := Pivot(records, currencies);
      forall i :: 0 <= i < |rows| ==> rows[i].cells.Keys == PriceColumnIds(CsvHeader(records, currencies))
  {
    var currencies := UniqueCurrencies(records);
    var rows := Pivot(records, currencies);
    forall i | 0 <= i < |rows|
      ensures rows[i].cells.Keys == PriceColumnIds(CsvHeader(records, currencies))
    {
      SingleBookRowKeys(records, currencies, i);
      HeaderPriceIds(records, currencies);
    }
  }

  /** Two entries in the same currency give that one currency. */
  lemma TwoEntriesOneCurrency<P>(r1: Record<P>, r2: Record<P>)
    requires r1.currency == r2.currency
    ensures UniqueCurrencies([r1, r2]) == [r1.currency]
  {
    assert CurrencyCodes([r1, r2]) == [r1.currency, r1.currency];
  }

  /** With a single currency the header has one price column, keyed with the first entry's book. */
  lemma OnePriceColumn<P>(records: seq<Record<P>>, currency: string)
    requires records != []
    ensures PriceColumnIds(CsvHeader(records, [currency])) == {PriceKey(records[0].bookId, currency)}
  {
    HeaderPriceIds(records, [currency]);
    assert PriceKeys(records[0].bookId, [currency]) == {PriceKey(records[0].bookId, currency)};
  }

  /** Within one currency, entries of two book ids have different price keys. */
  lemma KeysOfTwoBooksDiffer<P>(r1: Record<P>, r2: Record<P>)
    requires r1.currency == r2.currency && r1.bookId != r2.bookId
    ensures KeyOf(r1) != KeyOf(r2)
  {
    if KeyOf(r1) == KeyOf(r2) {
      PriceKeyBookInjective(r1.bookId, r2.bookId, r1.currency);
    }
  }

  /** With one currency, a new row of another book has no cell under the first book's key. */
  lemma NewRowLacksOtherBookKey<P>(r1: Record<P>, r2: Record<P>)
    requires r1.currency == r2.currency && r1.bookId != r2.bookId
    ensures KeyOf(r1) !in InitialRow(r2, [r1.currency]).cells
  {
    KeysOfTwoBooksDiffer(r1, r2);
    assert PriceKeys(r2.bookId, [r1.currency]) == {KeyOf(r2)};
  }

  /** Two entries of one product give one row: the first entry's, with the second entry's price written under its key. */
  lemma PivotOfOneProduct<P>(r1: Record<P>, r2: Record<P>, currencies: seq<string>)
    requires r1.code == r2.code
    ensures var row := InitialRow(r1, currencies);
      Pivot([r1, r2], currencies) == [row.(cells := row.cells[KeyOf(r2) := Price(r2.price)])]
  {
    var records := [r1, r2];
    assert records[..1] == [r1] && records[..1][..0] == [];
    assert records[..|records| - 1] == records[..1];
    assert Lookup([InitialRow(r1, currencies)], r2.code) == Some(0);
  }

  /** Two entries of different products give one new row each, in order. */
  lemma PivotOfTwoProducts<P>(r1: Record<P>, r2: Record<P>, currencies: seq<string>)
    requires r1.code != r2.code
    ensures Pivot([r1, r2], currencies) == [InitialRow(r1, currencies), InitialRow(r2, currencies)]
  {
    var records := [r1, r2];
    assert records[..1] == [r1] && records[..1][..0] == [];
    assert records[..|records| - 1] == records[..1];
    assert Lookup([InitialRow(r1, currencies)], r2.code) == None;
  }

  /**
   * With two book ids in one file the header labels every price column with
   * the first book, so a later entry of the second book writes its price
   * under a key the header does not have, and it is never printed.
   */
  lemma MixedBooksLosePrices<P>(r1: Record<P>, r2: Record<P>)
    requires r1.code == r2.code && r1.currency == r2.currency && r1.bookId != r2.bookId
    ensures var records := [r1, r2];
      var currencies := UniqueCurrencies(records);
      var rows := Pivot(records, currencies);
      && |rows| == 1
      && PriceColumnIds(CsvHeader(records, currencies)) == {KeyOf(r1)}
      && KeyOf(r2) !in PriceColumnIds(CsvHeader(records, currencies))
      && KeyOf(r2) in rows[0].cells
      && rows[0].cells[KeyOf(r2)] == Price(r2.price)
  {
    TwoEntriesOneCurrency(r1, r2);
    OnePriceColumn([r1, r2], r1.currency);
    KeysOfTwoBooksDiffer(r1, r2);
    PivotOfOneProduct(r1, r2, [r1.currency]);
  }

  /**
   * The other half of a mixed-book file: a product whose first entry has
   * another book id than the file's first entry gets no cell under the
   * header's price key at all.
   */
  lemma MixedBooksMissHeaderKeys<P>(r1: Record<P>, r2: Record<P>)
    requires r1.code != r2.code && r1.currency == r2.currency && r1.bookId != r2.bookId
    ensures var records := [r1, r2];
      var currencies := UniqueCurrencies(records);
      var rows := Pivot(records, currencies);
      && |rows| == 2
      && PriceColumnIds(CsvHeader(records, currencies)) == {KeyOf(r1)}
      && rows[1].code == r2.code
      && KeyOf(r1) !in rows[1].cells
  {
    var records := [r1, r2];
    TwoEntriesOneCurrency(r1, r2);
    OnePriceColumn(records, r1.currency);
    PivotOfTwoProducts(r1, r2, [r1.currency]);
    NewRowLacksOtherBookKey(r1, r2);
  }

  /**
   * `convertJsonToCsv` on parsed entries: the header and the rows handed to
   * the CSV writer.
   */
  method ConvertJsonToCsv<P>(records: seq<Record<P>>) returns (header: seq<Column>, rows: seq<Row<P>>)
    ensures header == CsvHeader(records, UniqueCurrencies(records))
    ensures rows == Pivot(records, UniqueCurrencies(records))
    ensures |header| == |UniqueCurrencies(records)| + 2 && |rows| == |Distinct(ProductCodes(records))|
    ensures SingleBook(records) ==> forall i :: 0 <= i < |rows| ==> rows[i].cells.Keys == PriceColumnIds(header)
  {
    var currencies := UniqueCurrencies(records);
    rows := ProcessJsonData(records, currencies);
    header := CsvHeader(records, currencies);
    if SingleBook(records) {
      HeaderMatchesRowKeys(records);
    }
  }

  /**
   * A product's later entry does not change its row's `IsActive`, whatever
   * its own flag: two entries of one product give one row, flagged as the first.
   */
  lemma IsActiveNotOverwritten<P>(r1: Record<P>, r2: Record<P>)
    requires r1.code == r2.code
    ensures var rows := Pivot([r1, r2], UniqueCurrencies([r1, r2]));
      |rows| == 1 && rows[0].isActive == r1.isActive
  {
    PivotOfOneProduct(r1, r2, UniqueCurrencies([r1, r2]));
  }


  /** Three entries, two products, two currencies, one book. */
  function ExampleRecords(): seq<Record<int>>
  {
    [Record("SKU1", "PB1", "USD", 10, true), Record("SKU1", "PB1", "EUR", 9, true),
     Record("SKU2", "PB1", "USD", 5, false)]
  }

  lemma ExampleCurrencies()
    ensures UniqueCurrencies(ExampleRecords()) == ["USD", "EUR"]
  {
    var codes := CurrencyCodes(ExampleRecords());
    assert codes == ["USD", "EUR", "USD"];
    assert codes[..2][..1] == ["USD"] && codes[..2] == ["USD", "EUR"];
    assert Distinct(codes[..2]) == ["USD", "EUR"];
  }

  lemma ExampleFirstRow()
    ensures Pivot(ExampleRecords()[..1], ["USD", "EUR"]) ==
      [Row("SKU1", true, map["Price (PB1) USD" := Price(10), "Price (PB1) EUR" := Blank])]
  {
    var records, currencies := ExampleRecords(), ["USD", "EUR"];
    assert PriceKey("PB1", "USD") == "Price (PB1) USD" && PriceKey("PB1", "EUR") == "Price (PB1) EUR";
    assert records[..1][..0] == [] && records[..1][0] == records[0];
    assert currencies[..1] == ["USD"] && currencies[..1][..0] == [];
    assert InitialCells(records[0], currencies[..1]) == map["Price (PB1) USD" := Price(10)];
    assert InitialCells(records[0], currencies) == map["Price (PB1) USD" := Price(10), "Price (PB1) EUR" := Blank];
  }

  lemma ExampleSecondEntry()
    ensures Pivot(ExampleRecords()[..2], ["USD", "EUR"]) ==
      [Row("SKU1", true, map["Price (PB1) USD" := Price(10), "Price (PB1) EUR" := Price(9)])]
  {
    var records := ExampleRecords();
    assert records[..2][..1] == records[..1] && records[..2][1] == records[1];
    assert KeyOf(records[1]) == "Price (PB1) EUR";
    ExampleFirstRow();
    var rows1 := [Row("SKU1", true, map["Price (PB1) USD" := Price(10), "Price (PB1) EUR" := Blank])];
    assert Lookup(rows1, "SKU1") == Some(0);
    assert map["Price (PB1) USD" := Price(10), "Price (PB1) EUR" := Blank]["Price (PB1) EUR" := Price(9)]
      == map["Price (PB1) USD" := Price(10), "Price (PB1) EUR" := Price(9)];
  }

  lemma ExampleThirdEntryRow()
    ensures InitialRow(ExampleRecords()[2], ["USD", "EUR"]) ==
      Row("SKU2", false, map["Price (PB1) USD" := Price(5), "Price (PB1) EUR" := Blank])
  {
    var item, currencies := ExampleRecords()[2], ["USD", "EUR"];
    assert PriceKey("PB1", "USD") == "Price (PB1) USD" && PriceKey("PB1", "EUR") == "Price (PB1) EUR";
    assert currencies[..1] == ["USD"] && currencies[..1][..0] == [];
    assert InitialCells(item, currencies[..1]) == map["Price (PB1) USD" := Price(5)];
  }

  /**
   * The pivot of the example: SKU1 priced in both currencies, SKU2 in USD only
   * with a blank EUR cell, each with its own active flag.
   */
  lemma ExamplePivot()
    ensures Pivot(ExampleRecords(), UniqueCurrencies(ExampleRecords())) ==
      [Row("SKU1", true, map["Price (PB1) USD" := Price(10), "Price (PB1) EUR" := Price(9)]),
       Row("SKU2", false, map["Price (PB1) USD" := Price(5), "Price (PB1) EUR" := Blank])]
  {
    var records, currencies := ExampleRecords(), ["USD", "EUR"];
    ExampleCurrencies();
    var rows2 := Pivot(records[..2], currencies);
    assert rows2 == [Row("SKU1", true, map["Price (PB1) USD" := Price(10), "Price (PB1) EUR" := Price(9)])] by {
      ExampleSecondEntry();
    }
    assert Pivot(records, currencies) == rows2 + [InitialRow(records[2], currencies)] by {
      assert records[..|records| - 1] == records[..2];
      assert Lookup(rows2, "SKU2") == None;
    }
    ExampleThirdEntryRow();
  }

  /** The header of the example: the two USD and EUR price columns between the fixed ones. */
  lemma ExampleHeader()
    ensures CsvHeader(ExampleRecords(), UniqueCurrencies(ExampleRecords())) ==
      [Column(ArticleSapCode, ProductTitle), Column("Price (PB1) USD", "Price (PB1) USD"),
       Column("Price (PB1) EUR", "Price (PB1) EUR"), Column(IsActiveColumn, IsActiveColumn)]
  {
    ExampleCurrencies();
    assert PriceKey("PB1", "USD") == "Price (PB1) USD" && PriceKey("PB1", "EUR") == "Price (PB1) EUR";
    assert PriceColumns("PB1", ["USD", "EUR"]) ==
      [Column("Price (PB1) USD", "Price (PB1) USD"), Column("Price (PB1) EUR", "Price (PB1) EUR")];
  }
}
