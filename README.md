# Pricebook JSON-to-CSV pivot, modelled in Dafny

This project models the transform at the core of `json-to-csv`. The input is
the flat list of price-book entries from a JSON export. Each entry has a
product code (`Product2.Article_SAP_Code__c`), a book id (`Pricebook2Id`), a
currency (`CurrencyIsoCode`), a price (`UnitPrice`) and an active flag
(`IsActive`). The output is a CSV table with one row per product and one
price column per currency.

Modules:

- `Records` (records.dfy): entries, cells (`''` or a price), rows and the
  price key `"Price (" + book + ") " + currency`.
- `Sequences` (sequences.dfy): first-seen de-duplication, the meaning of
  `Array.from(new Set(...))`.
- `PivotTable` (pivot.dfy): the `reduce` of `processJsonData`.
  - `Pivot` is the fold written as a function. `ProcessJsonData`,
    `FindRow` and `NewRow` are the loops of the source, each proved equal
    to its function.
  - The lemmas describe the fold's result without the fold. There is one row
    per distinct code, in first-seen order. `IsActive` comes from the
    product's first entry. Each cell holds the price of the last entry that
    wrote its key. If no entry wrote it, the cell is `''` when the first
    entry's `forEach` created the key, and absent otherwise.
- `Header` (header.dfy): the CSV header, labelled with the first entry's
  book id.
- `Convert` (convert.dfy): currency discovery and `convertJsonToCsv` without
  its I/O. It proves that the header matches the rows' keys in a single-book
  file. It also proves that agreement can fail with two book ids: in any
  two-entry file in one currency, a row carries a key the header lacks or
  misses the header's key. Two worked examples are included.
- `FileNames` (filenames.dfy): which directory entries are converted, and
  the name of each CSV file.

Prices are only copied, so they are an opaque type parameter `P`. Every
member is a deterministic function of its inputs, so running the transform
twice on the same entries gives the same header and rows.

Three behaviours of the code are easy to misread:

- **`IsActive` is first-wins.** The code (index.js:55-57) only writes the
  price key into an existing row, so a later entry never changes the flag.
  A product's row keeps the flag of its first entry
  (`PivotIsActiveFirstWins`, `IsActiveNotOverwritten`).
- **Column completeness depends on the book ids.** New-row cells
  (index.js:64-66) and updates (index.js:56-57) are keyed with each entry's
  own book id, while the header (index.js:39-40) uses the first entry's.
  With one book id, each row's keys equal the header's price ids
  (`HeaderMatchesRowKeys`). With several book ids, a row can carry keys the
  header lacks (`MixedBooksLosePrices`) or miss header keys
  (`MixedBooksMissHeaderKeys`).
- **Last-write-wins is per key.** The code overwrites the property named by
  the price-key string (index.js:56-57). Keys of different books can
  coincide (`PriceKeysOfTwoBooksCanClash`). So "the last entry with the
  same product, book and currency" wins unless a later entry of the product
  writes the same key string under another book and currency.

## Model

| member | source | states |
|---|---|---|
| `Records.PriceKeyShape` | index.js:56 | a price key is `Price (`, the book id, `) ` and the currency, in that order, nine characters longer than book id and currency together |
| `Records.PriceKeyBookInjective` | index.js:56-65 | within one currency, two book ids with the same price key are the same book id |
| `Records.PriceKeyInjective` | index.js:56-65 | within one book id, two currencies with the same price key are the same currency |
| `Records.PriceKeyIsNotFixed` | index.js:56-65 | a price key is never `Article_SAP_Code__c` or `IsActive`, so price cells never overwrite the two fixed row properties |
| `Records.PriceKeysOfTwoBooksCanClash` | index.js:56 | keys of two different book ids can be the same string (`"x) y"`/`"z"` and `"x"`/`"y) z"`) |
| `Sequences.Distinct` | index.js:33 | the de-duplicated list has no repeats, contains every input element, and contains only input elements |
| `Sequences.DistinctFirstSeen` | index.js:33 | the de-duplicated list is in the order of each element's first occurrence |
| `Convert.CurrencyCodes` | index.js:33 | the mapped list has one element per entry, element m being entry m's `CurrencyIsoCode` |
| `Convert.UniqueCurrencies` | index.js:33 | the discovered currencies have no duplicates, include every entry's currency, and are each the currency of some entry |
| `Convert.UniqueCurrenciesFirstSeen` | index.js:33 | the discovered currencies are in the order each first appears among the entries |
| `PivotTable.Lookup` | index.js:53 | the result is the index of the first row with the code, or none when no row has it |
| `PivotTable.FindRow` | index.js:53 | the linear search returns the same index as `Lookup`: the first row with the code, or none |
| `PivotTable.NewRow` | index.js:59-67 | a new row has the entry's code and flag, has exactly one key per discovered currency (with the entry's book id), and holds the price under its own currency and `''` under every other |
| `PivotTable.InitialCells` | index.js:64-67 | the `forEach` over the currencies creates exactly the entry's book key of each currency, with the price at the entry's currency and `''` elsewhere |
| `PivotTable.InitialRow` | index.js:59-67 | a new row has the entry's code and `IsActive`, exactly one key per currency under the entry's book id, the price under its own currency and `''` under every other |
| `PivotTable.Upsert` | index.js:52-73 | one reduce step: when a row has the code, the row count is kept and only the first such row changes, in the entry's price-key cell alone; otherwise the entry's new row is appended. No row changes its code or flag |
| `PivotTable.UpsertRowCodes` | index.js:53-69 | one reduce step appends the entry's code to the row codes exactly when no row has it yet |
| `PivotTable.Pivot` | index.js:51-74 | the reduce from `[]` over the entries, one `Upsert` per entry in order, gives at most one row per entry |
| `PivotTable.LastPrice` | index.js:56-57 | the price returned is that of an entry of the product with the key such that no later entry of the product has the key; none when no entry of the product has the key |
| `PivotTable.LastPriceOfUnseen` | index.js:53-57 | a product with no entries has no price written under any key |
| `PivotTable.ProcessJsonData` | index.js:51-74 | the reduce loop computes `Pivot`. Row codes are the distinct codes in first-seen order. Each row's flag is its first entry's. When every currency is listed, every cell is the expected one |
| `PivotTable.PivotFacts` | index.js:51-74 | the reduce's rows have the distinct codes in first-seen order, each with its product's first flag, and when every currency is listed every cell is the expected one |
| `PivotTable.PivotRowCodes` | index.js:52-70 | the row codes of the pivot are exactly the distinct product codes in first-seen order |
| `PivotTable.RowsOnePerProduct` | index.js:52-70 | there are as many rows as distinct codes, no code twice, and a row for every entry's code; rows are ordered by the first occurrence of their code |
| `PivotTable.PivotIsActiveFirstWins` | index.js:55-62 | every row's `IsActive` is that of the first entry of its product; later entries never change it |
| `PivotTable.PivotCells` | index.js:55-67 | every cell is the price of the last entry of that product with that key; otherwise `''` if the first entry created the key; otherwise absent |
| `PivotTable.LastWriteWins` | index.js:55-57 | an entry with no later entry of the same product and key leaves exactly its own price in that cell (overwrite, never aggregate) |
| `PivotTable.UpdatedCell` | index.js:55-57 | overwriting the entry's key in its product's row turns each cell that was the expected one before the entry into the expected one after it |
| `PivotTable.CreatedCell` | index.js:58-67 | each cell of the row created by a product's first entry is the expected one |
| `PivotTable.UpsertCells` | index.js:52-73 | one reduce step keeps every row's cells the expected ones |
| `PivotTable.SingleBookCellKey` | index.js:56-66 | in a single-book file, a row has a cell under a key exactly when the key is the book's key of a listed currency |
| `PivotTable.UnpricedCurrencyIsBlank` | index.js:64-67 | in a single-book file, a product never priced in a discovered currency still has that currency's cell, holding `''` |
| `PivotTable.SingleBookRowKeys` | index.js:56-65 | in a single-book file every row's keys are exactly that book's keys over the discovered currencies |
| `Header.PriceColumns` | index.js:38-41 | one column per currency, in currency order, with id and title both the price key of the book id and that currency |
| `Header.CsvHeader` | index.js:36-43 | the header has the currency count plus two columns: the product-code column first, `IsActive` last, and column i+1 with id and title both the first entry's price key of currency i |
| `Header.HeaderIdsDistinct` | index.js:36-43 | with distinct currencies, no two header columns have the same id |
| `Header.HeaderPriceIds` | index.js:38-41 | the price-column ids are the first entry's book keys over the currencies |
| `Convert.EmptyFileHeader` | index.js:33-43 | a file with no entries has no currencies and only the two fixed header columns, and `records[0]` is never read |
| `Convert.HeaderMatchesRowKeys` | index.js:38-66 | when all entries share one book id, every row's price keys equal the header's price-column ids, so updates never add a key |
| `Convert.TwoEntriesOneCurrency` | index.js:33 | two entries in the same currency give that single currency |
| `Convert.OnePriceColumn` | index.js:38-41 | with one currency, the header's only price id is the first entry's book key of that currency |
| `Convert.KeysOfTwoBooksDiffer` | index.js:56-65 | two entries in the same currency under different book ids have different price keys |
| `Convert.PivotOfOneProduct` | index.js:52-73 | two entries of one product give one row: the first entry's new row with the second entry's price written under the second entry's key |
| `Convert.PivotOfTwoProducts` | index.js:52-73 | two entries of different products give the first entry's new row followed by the second's |
| `Convert.NewRowLacksOtherBookKey` | index.js:64-66 | with one currency, a new row created under another book id has no cell under the first book's key |
| `Convert.MixedBooksLosePrices` | index.js:39-57 | in any two-entry file of one product and one currency under two book ids, there is one row, the header's only price id is the first entry's key, and the second entry's price sits in the row under its own key, which is not a header column |
| `Convert.MixedBooksMissHeaderKeys` | index.js:39-66 | in any two-entry file of two products in one currency under two book ids, there are two rows, the header's only price id is the first entry's key, and the second product's row has no cell under it |
| `Convert.IsActiveNotOverwritten` | index.js:55-62 | for any two entries of one product, whatever the second entry's `IsActive`, there is one row and its flag is the first entry's |
| `Convert.ExampleCurrencies` | index.js:33 | the example's entries (USD, EUR, USD) give the currencies USD, EUR |
| `Convert.ExampleFirstRow` | index.js:58-69 | the first example entry creates the row SKU1 with USD 10, EUR `''`, active |
| `Convert.ExampleSecondEntry` | index.js:55-57 | the second example entry, for SKU1 in EUR, overwrites SKU1's EUR cell with 9 and adds no row |
| `Convert.ExampleThirdEntryRow` | index.js:59-67 | the third example entry creates the row SKU2 with USD 5, EUR `''`, inactive |
| `Convert.ExamplePivot` | index.js:51-74 | the three-entry example gives rows SKU1 (USD 10, EUR 9, active) and SKU2 (USD 5, EUR blank, inactive) |
| `Convert.ExampleHeader` | index.js:36-43 | the header of that example is product code, `Price (PB1) USD`, `Price (PB1) EUR`, `IsActive` |
| `Convert.ConvertJsonToCsv` | index.js:30-45 | the header and rows are those of the discovered currencies. The header has two more columns than there are currencies. There is one row per distinct code. In a single-book file every row's keys are the header's price ids |
| `FileNames.LastDot` | index.js:79 | the result is the position of the last `.` (none after it), or none when the name has no `.` |
| `FileNames.ExtName` | index.js:79 | the extension is empty, or a `.` followed by no other `.`, ending the name and not starting it; it is empty exactly when the name is `..` or has no `.` after its first character |
| `FileNames.BaseName` | index.js:89 | when the name ends in the non-empty suffix, the result followed by the suffix is the name; otherwise the result is the name |
| `FileNames.CsvFileName` | index.js:89 | a name ending in lower-case `.json` has those five characters replaced by `.csv`; any other name gets `.csv` appended |
| `FileNames.JsonFiles` | index.js:79 | every kept entry is an entry name, and no more entries are kept than were listed |
| `FileNames.JsonFilesMembers` | index.js:79 | the kept entries are exactly the listed entries whose lower-cased extension is `.json` |
| `FileNames.JsonFilesSnoc` | index.js:79 | the filter's step on one appended entry, a helper for `JsonFilesConcat`: the old result, followed by that entry exactly when it is a JSON file |
| `FileNames.JsonFilesConcat` | index.js:79 | filtering two listings joined gives the first's kept entries followed by the second's: the filter keeps listing order and multiplicity |
| `FileNames.JsonFileIff` | index.js:79 | an entry is kept if and only if it is longer than five characters and its last five, lower-cased, are `.json` |
| `FileNames.CsvNameOfJsonFile` | index.js:89 | a kept entry's output name replaces a trailing case-sensitive `.json` with `.csv`; otherwise it appends `.csv` |
| `FileNames.CsvNameRoundTrip` | index.js:79-89 | `stem.json` is kept and written to `stem.csv` |
| `FileNames.CsvNameInjective` | index.js:89 | two kept entries both ending in lower-case `.json` never share an output name |
| `FileNames.UpperCaseExtension` | index.js:79-89 | `stem.JSON` is kept and written to `stem.JSON.csv` |
| `FileNames.NotConverted` | index.js:79 | the dot-file `.json` and `a.txt` are not kept |
| `FileNames.CsvNameCollision` | index.js:79-89 | `stem.JSON` and `stem.JSON.json` are both kept and both written to `stem.JSON.csv` |
| `FileNames.ConversionJobs` | index.js:87-92 | the loop visits exactly the kept entries, in the filter's order, and pairs each with its output name; each visited entry is listed and is a JSON file |

## Left out

- Reading and parsing the JSON file (`readJsonFile`, `JSON.parse`): the model starts from the parsed list of entries.
- Writing the CSV file (`writeCsvFile`, the `csv-writer` library): quoting, serialisation and the text form of booleans and numbers belong to a library that is not part of this model.
- Directory listing, `fs.access`/`fs.mkdir`, `path.join` and the fixed directory constants: filesystem plumbing. `ConversionJobs` stands in for the loop and does not do the conversions.
- Async/await and the try/catch blocks that log an error and skip a file: no concurrency, and the error path only logs.
- Malformed entries (such as a missing `Product2`), which crash the source: every entry is well-formed here.
- The numeric type of `UnitPrice`: prices are an opaque type parameter, since they are only copied.
- FileNames.ExtName: models Node's `path.extname` only for names without `/`, because directory entries never contain one.
- FileNames.BaseName: models Node's `path.basename` with a suffix only for names without `/`, for the same reason.
- FileNames.IsJsonFile: lower-cases ASCII letters only. Other Unicode case mappings of `toLowerCase` are not modelled.
- FileNames.IsJsonFile: a name containing `/` is never kept. A directory listing never returns one, and `path.extname` is modelled only for entry names.
