/**
 * The data of the pricebook pivot: the flat price-book entries of a JSON
 * export, the cells and rows of the pivoted table, and the key under which a
 * row stores a price.
 */
module Records {

  datatype Option<T> = None | Some(value: T)

  /** Row property holding the product code; also the id of the first CSV column. */
  const ArticleSapCode: string := "Article_SAP_Code__c"
  /** Title of the first CSV column. */
  const ProductTitle: string := "Product StockKeepingUnit"
  /** Row property holding the active flag; id and title of the last CSV column. */
  const IsActiveColumn: string := "IsActive"

  /**
   * One price-book entry: `Product2.Article_SAP_Code__c`, `Pricebook2Id`,
   * `CurrencyIsoCode`, `UnitPrice` and `IsActive`. Prices are only copied,
   * never computed with, so their type is a parameter.
   */
  datatype Record<P> = Record(code: string, bookId: string, currency: string, price: P, isActive: bool)

  /** A price cell of an output row: the empty string `''`, or a copied price. */
  datatype Cell<P> = Blank | Price(value: P)

  /**
   * One output row: the product code, the active flag and the price cells by
   * key. Every price key starts with "Price (", so it never clashes with the
   * two fixed properties (PriceKeyIsNotFixed).
   */
  datatype Row<P> = Row(code: string, isActive: bool, cells: map<string, Cell<P>>)

  /** The property name (and CSV column id and title) of a price. */
  function PriceKey(bookId: string, currency: string): (key: string)
  {
    "Price (" + bookId + ") " + currency
  }

  /** The price key a record writes: its own book id and its own currency. */
  function KeyOf<P>(r: Record<P>): string
  {
    PriceKey(r.bookId, r.currency)
  }

  /** A price key is `Price (`, the book id, `) ` and the currency, nine characters longer than the two. */
  lemma PriceKeyShape(bookId: string, currency: string)
    ensures var key := PriceKey(bookId, currency);
      |key| == |bookId| + |currency| + 9 &&
      key[..7] == "Price (" && key[7..7 + |bookId|] == bookId &&
      key[7 + |bookId|..9 + |bookId|] == ") " && key[|key| - |currency|..] == currency
  {
  }

  /** Within one currency, distinct book ids give distinct keys. */
  lemma PriceKeyBookInjective(b1: string, b2: string, currency: string)
    requires PriceKey(b1, currency) == PriceKey(b2, currency)
    ensures b1 == b2
  {
    var k1, k2 := PriceKey(b1, currency), PriceKey(b2, currency);
    assert k1[7..|k1| - |currency| - 2] == b1;
    assert k2[7..|k2| - |currency| - 2] == b2;
  }

  /** Within one book, distinct currencies give distinct keys. */
  lemma PriceKeyInjective(bookId: string, c1: string, c2: string)
    requires PriceKey(bookId, c1) == PriceKey(bookId, c2)
    ensures c1 == c2
  {
    var n := |"Price (" + bookId + ") "|;
    assert PriceKey(bookId, c1)[n..] == c1;
    assert PriceKey(bookId, c2)[n..] == c2;
  }

  /** A price key is never one of the two fixed row properties. */
  lemma PriceKeyIsNotFixed(bookId: string, currency: string)
    ensures PriceKey(bookId, currency) != ArticleSapCode
    ensures PriceKey(bookId, currency) != IsActiveColumn
  {
    assert PriceKey(bookId, currency)[0] == 'P';
  }

  /**
   * Keys of different books can coincide: the key text does not determine
   * the (book, currency) pair it came from.
   */
  lemma PriceKeysOfTwoBooksCanClash()
    ensures PriceKey("x) y", "z") == PriceKey("x", "y) z")
    ensures "x) y" != "x"
  {
  }
}
