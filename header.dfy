/**
 * The CSV header of `convertJsonToCsv`: the product-code column, one price
 * column per discovered currency labelled with the book id of the FIRST
 * entry, and the active-flag column. Each column's id is the row property it
 * prints and its title is the header text.
 */
module Header {
  import opened Records
  import opened Sequences
  import opened PivotTable

  datatype Column = Column(id: string, title: string)

  /** One price column per currency, id and title both the price key of `bookId`. */
  function PriceColumns(bookId: string, currencies: seq<string>): (columns: seq<Column>)
    ensures |columns| == |currencies|
    ensures forall i :: 0 <= i < |columns| ==> columns[i].id == columns[i].title == PriceKey(bookId, currencies[i])
  {
    seq(|currencies|, i requires 0 <= i < |currencies| =>
      Column(PriceKey(bookId, currencies[i]), PriceKey(bookId, currencies[i])))
  }

  /**
   * The header. `records[0]` is read only inside the map over the currencies,
   * so a file with no entries (and so no currencies) never reads it.
   */
  function CsvHeader<P>(records: seq<Record<P>>, currencies: seq<string>): (header: seq<Column>)
    requires currencies != [] ==> records != []
    ensures |header| == |currencies| + 2
    ensures header[0] == Column(ArticleSapCode, ProductTitle)
    ensures header[|header| - 1] == Column(IsActiveColumn, IsActiveColumn)
    ensures forall j :: 1 <= j < |header| - 1 ==>
      header[j].id == header[j].title == PriceKey(records[0].bookId, currencies[j - 1])
  {
    [Column(ArticleSapCode, ProductTitle)]
    + (if currencies == [] then [] else PriceColumns(records[0].bookId, currencies))
    + [Column(IsActiveColumn, IsActiveColumn)]
  }

  /** The ids of the price columns: every column but the first and the last. */
  function PriceColumnIds(header: seq<Column>): set<string>
  {
    set j | 1 <= j < |header| - 1 :: header[j].id
  }

  /** With distinct currencies, no two header columns share an id. */
  lemma HeaderIdsDistinct<P>(records: seq<Record<P>>, currencies: seq<string>)
    requires currencies != [] ==> records != []
    requires NoDuplicates(currencies)
    ensures var header := CsvHeader(records, currencies);
      forall i, j :: 0 <= i < j < |header| ==> header[i].id != header[j].id
  {
    var header := CsvHeader(records, currencies);
    forall i, j | 0 <= i < j < |header|
      ensures header[i].id != header[j].id
    {
      if j == |header| - 1 {
        if 0 < i {
          PriceKeyIsNotFixed(records[0].bookId, currencies[i - 1]);
        }
      } else if i == 0 {
        PriceKeyIsNotFixed(records[0].bookId, currencies[j - 1]);
      } else {
        var b := records[0].bookId;
        assert currencies[i - 1] != currencies[j - 1];
        if header[i].id == header[j].id {
          PriceKeyInjective(b, currencies[i - 1], currencies[j - 1]);
        }
      }
    }
  }

  /** The price-column ids are the price keys of the first entry's book over the currencies. */
  lemma HeaderPriceIds<P>(records: seq<Record<P>>, currencies: seq<string>)
    requires records != []
    ensures PriceColumnIds(CsvHeader(records, currencies)) == PriceKeys(records[0].bookId, currencies)
  {
    var header := CsvHeader(records, currencies);
    var b := records[0].bookId;
    forall k | k in PriceKeys(b, currencies)
      ensures k in PriceColumnIds(header)
    {
      var c :| c in currencies && k == PriceKey(b, c);
      var i :| 0 <= i < |currencies| && currencies[i] == c;
      assert header[i + 1].id == k;
    }
  }
}
