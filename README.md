# Product catalog search and currency conversion

This project models the two services behind the shopping assistant's tools:

- The **products service** (`src/products/products.service.ts`) reads the catalog CSV.
  It splits each line with a small quote-aware splitter (`simpleCsvSplit`) and turns each
  line of nine or more fields into a product (`parseCsvLine`). `search` scores every product
  against the lower-cased query: 2 when the title contains it, 1 when the description does.
  It keeps the products that scored above 0, sorts them by score (highest first) and returns
  at most two.
- The **currency service** (`src/currency/currency.service.ts`) checks its configuration when
  it is constructed. `convert` rejects non-positive amounts, upper-cases both currency codes,
  looks both up in the rate table of the exchange-rate feed and converts through the base
  currency, rounding to two decimals. It maps every failure to a bad request or an internal
  error.

Modules:

- `Wrappers`: `Option` and `Result`.
- `Seqs`: the array methods used by the loader, on sequences: `map`, `filter`, and `filter(Boolean)` on optional values.
- `JsString`: the JavaScript string operations the services use, in the language's own terms:
  - `trim`, with the ECMAScript white space and line terminator set;
  - `includes`;
  - `split` on one character;
  - `toLowerCase` and `toUpperCase`, for ASCII letters.
- `Csv`: `simpleCsvSplit`. It is an imperative method with a `for` loop over the line, proved
  equal to a recursive definition `Fields`, and the properties of the splitter are proved
  about that definition.
- `Products`:
  - the `Product` record, `parseCsvLine`, the pure pipeline of `loadProducts` and `search`,
    as functions with lemmas;
  - the `ProductsService` class, whose `products` field is set by the constructor and by
    `LoadProducts` and read by `Search`.
- `Currency`: the constructor's configuration checks and `convert`, as functions over a rate
  reply supplied by the caller.

`search` sorts with the JavaScript array `sort`, which is stable. It is modelled by a stable
insertion sort (`SortByScore`), with stability proved as a lemma (`SortStable`).

## Model

| member | source | states |
|---|---|---|
| JsString.Trim | src/products/products.service.ts:77 | the trimmed text has no leading or trailing white space, is no longer than its input and leaves already-trimmed text unchanged |
| JsString.TrimStrips | src/products/products.service.ts:20 | `trim` removes only a white-space prefix and suffix; it yields "" exactly when the line is all white space, the test `loadProducts` uses to drop blank lines |
| JsString.ToLowerCase | src/products/products.service.ts:95-99 | case mapping keeps the length and maps every character on its own |
| JsString.ToUpperCase | src/currency/currency.service.ts:31-32 | the same for the currency codes |
| JsString.UpperCaseIdempotent | src/currency/currency.service.ts:31-32 | upper-casing an upper-cased code changes nothing |
| JsString.IncludesIff | src/products/products.service.ts:102-103 | `includes` holds exactly when the query occurs at some position of the text |
| JsString.IncludesEmpty | src/products/products.service.ts:102-103 | every text includes the empty query |
| JsString.Split | src/products/products.service.ts:20 | `split('\n')` gives at least one part, no part holds a newline, and joining the parts with newlines gives the input back |
| JsString.SplitJoin | src/products/products.service.ts:20 | splitting newline-free lines joined by newlines gives the lines back |
| Csv.Segments | src/products/products.service.ts:63-82 | the segments between unquoted commas: always at least one |
| Csv.SimpleCsvSplit | src/products/products.service.ts:63-88 | the loop's result equals `Fields(line)`: the trimmed segments between unquoted commas, without quote characters, and with the final segment dropped when it is empty |
| Csv.SegmentsQuoteFree | src/products/products.service.ts:71-74 | no segment contains a double quote |
| Csv.SegmentsJoin | src/products/products.service.ts:71-81 | joining the segments with commas gives the line without its double quotes: no other character is lost, added or moved |
| Csv.SegmentsCount | src/products/products.service.ts:76-78 | there is one more segment than there are commas outside quotes |
| Csv.SegmentsKeepQuotedCommas | src/products/products.service.ts:76-81 | there are as many commas inside the segments as there are commas inside quotes in the line |
| Csv.SegmentsAppend | src/products/products.service.ts:68-82 | splitting `a + t` is splitting `a`, then splitting `t` from the quote state `a` ends in, glued onto the open last segment of `a` |
| Csv.SegmentsSplitAtComma | src/products/products.service.ts:76-78 | a comma reached outside quotes closes the segment: the segments of `a + "," + b` are those of `a` followed by those of `b` |
| Csv.SegmentsQuotedComma | src/products/products.service.ts:79-81 | a comma reached inside quotes is kept: it is appended to the open segment, and the rest of the line continues inside quotes |
| Csv.SegmentsQuotedCommaExample | src/products/products.service.ts:68-82 | the line `"a,b",c` splits into `a,b` and `c` |
| Csv.FieldsQuoteFree | src/products/products.service.ts:63-88 | no field contains a double quote |
| Csv.FieldsTrimmed | src/products/products.service.ts:76-85 | every field is trimmed |
| Csv.FieldsCount | src/products/products.service.ts:76-85 | the number of fields is the number of unquoted commas, plus one unless the final segment is empty |
| Csv.SegmentsOfQuotedLine | src/products/products.service.ts:62-82 | a line of quote-free fields, each wrapped in double quotes and joined by commas, splits back into those fields, commas inside them included |
| Csv.FieldsOfQuotedLine | src/products/products.service.ts:62-88 | such a line of trimmed fields whose last field is not empty gives those fields back |
| Csv.EmptyLastFieldDropped | src/products/products.service.ts:83-85 | when the last field is empty it is lost, even when it was written as `""` |
| Products.ParseCsvLine | src/products/products.service.ts:32-60 | no product exactly when the line has fewer than nine fields; otherwise the product's nine columns are the first nine fields in order, and further fields are ignored |
| Products.ParseQuotedColumns | src/products/products.service.ts:32-60 | a product written out as a quoted CSV line, with or without extra columns, parses back to the same product when its last column is not empty |
| Products.EmptyCreateDateLost | src/products/products.service.ts:35-85 | a product whose last column `createDate` is empty is not read back: the line has eight fields |
| Products.NonBlankLines | src/products/products.service.ts:20 | the filter keeps at most as many lines as it was given |
| Products.NonBlankLinesMembers | src/products/products.service.ts:20 | a line survives the filter exactly when it is in the input and not blank |
| Products.NonBlankLinesAppend | src/products/products.service.ts:20 | the filter works line by line: it distributes over concatenation |
| Products.ParsedProducts | src/products/products.service.ts:24 | parsing and dropping the failures gives at most one product per line |
| Products.ParsedProductsMembers | src/products/products.service.ts:24 | every product read comes from some line, and every line that parses contributes its product |
| Products.ParsedProductsAppend | src/products/products.service.ts:24 | loading keeps line order: it distributes over concatenation |
| Products.LoadCatalogOfLines | src/products/products.service.ts:20-24 | loading a file made of lines gives the products of the non-blank lines after the first non-blank one |
| Products.LoadSkipsHeader | src/products/products.service.ts:20-24 | after any leading blank lines, the first non-blank line is the header and is never read as a product |
| Products.LoadIgnoresBlankLine | src/products/products.service.ts:20 | inserting a blank line anywhere does not change the catalog |
| Products.Score | src/products/products.service.ts:97-104 | a score is at most 3; it is 2 or more exactly when the lower-cased title contains the query, and odd exactly when the lower-cased description contains it |
| Products.ScoreAll | src/products/products.service.ts:97-107 | one scored entry per product, in catalog order |
| Products.Positive | src/products/products.service.ts:110 | the filter keeps exactly the entries that scored above 0 |
| Products.Insert | src/products/products.service.ts:111 | inserting into a list sorted by decreasing score keeps it sorted and adds exactly the one entry |
| Products.SortByScore | src/products/products.service.ts:111 | the sort orders by decreasing score and is a permutation of its input |
| Products.SortStable | src/products/products.service.ts:111 | the sort is stable: the entries with any one score keep their relative order |
| Products.RankingConsistent | src/products/products.service.ts:97-111 | the ranking holds exactly the catalog's entries with a positive score, each with its product's score |
| Products.SearchCatalog | src/products/products.service.ts:94-114 | at most two results; each is a catalog product matching the lower-cased query; the scores do not increase; and the result is empty exactly when no product matches |
| Products.SearchTopScore | src/products/products.service.ts:109-113 | the first result scores at least as high as every product in the catalog |
| Products.SearchCount | src/products/products.service.ts:109-113 | the result has exactly min(2, number of matching products) entries |
| Products.SearchEmptyQuery | src/products/products.service.ts:95-113 | an empty query matches every product with score 3, so the search returns the first two catalog products in catalog order |
| Products.SearchStable | src/products/products.service.ts:109-113 | for every score, the results with that score are the first catalog products with that score, in catalog order |
| Products.SearchBest | src/products/products.service.ts:94-113 | the result is the first min(2, number of matches) entries of the matching products listed best first: all those scoring 3, then 2, then 1, each group in catalog order; so no product is passed over for one that scores lower |
| Products.SortedGroups | src/products/products.service.ts:109-111 | a list sorted by decreasing score, with scores from 1 to 3, is its score-3 entries, then its score-2 entries, then its score-1 entries |
| Products.ProductsService.constructor | src/products/products.service.ts:9-13 | a new service holds the catalog loaded from the file's text |
| Products.ProductsService.LoadProducts | src/products/products.service.ts:15-29 | afterwards `products` is the catalog of the given file text |
| Products.ProductsService.Search | src/products/products.service.ts:94-114 | returns the search of the held catalog: at most two of the held products; the service is not changed |
| Currency.NewCurrencyService | src/currency/currency.service.ts:11-18 | construction fails with "OPEN_EXCHANGE_RATES_API_KEY is not set" exactly when the key is missing or empty; otherwise it keeps the key and the configured base, "USD" only when no base is configured (an empty base is kept) |
| Currency.Round2 | src/currency/currency.service.ts:60-61 | the result is a whole number of hundredths within half a hundredth of its input |
| Currency.Catch | src/currency/currency.service.ts:62-75 | a bad request is rethrown with its message; any other failure becomes the internal error "Error while fetching exchange rates" |
| Currency.Convert | src/currency/currency.service.ts:26-76 | non-positive amounts are rejected whatever the feed says; a failed request or a reply without rates is an internal error; an unsupported source is reported before an unsupported target, each naming the upper-cased code; the conversion succeeds exactly when the amount is positive and both codes have a non-zero rate, and its value is amount / rate(from) * rate(to) rounded to two decimals |
| Currency.ConvertIgnoresLetterCase | src/currency/currency.service.ts:31-32 | converting with lower-case codes is the same as converting with the upper-cased codes |
| Currency.ConvertSameCurrency | src/currency/currency.service.ts:57-61 | converting a supported currency into itself gives the amount exactly before rounding, and the rounded amount |
| Currency.ConvertRoundTrip | src/currency/currency.service.ts:53-61 | with positive rates, converting there and back lands within (1 + rate(from) / rate(to)) / 200 of the amount |
| Currency.ConvertExample | src/currency/currency.service.ts:53-61 | with USD at 1 and EUR at 0.9, 100 "usd" converts to 90 "eur" |
| Currency.ConvertBaseNotListed | src/currency/currency.service.ts:46-48 | a table that does not list the base itself (only EUR) makes USD an unsupported source |

## Left out

- File and network I/O. `readFileSync` of `src/data/products_list.csv` is replaced by the file's text, passed to the constructor and to `LoadProducts`. The HTTP GET to the exchange-rate feed is replaced by its reply (`RateReply`), passed to `Convert`. The request itself (the URL `ApiUrl` with the `app_id` and `base` parameters) is not modelled; only the reply is.
- The `InternalServerErrorException` that `loadProducts` throws when the file cannot be read: the model has no failing read.
- `console.error` logging in both services.
- Dependency injection and `ConfigService`: the configuration is a map from setting name to value.
- `Products.ParseCsvLine`: the discount column is kept as its text. `Number(discount)` is not modelled, because JavaScript's number parsing and `NaN` are outside the model.
- `Currency.Round2`: floating point is not modelled. Rates and amounts are exact reals, so binary rounding in `/`, `*` and `toFixed` is absent, and so are `NaN`, infinities and `toFixed`'s exponent form above 1e21. Rounding is to the nearest hundredth, with ties away from zero.
- `Currency.Convert`: `amount` is a real, so `!amount` folds into `amount <= 0` (no `NaN`). A rate entry that is not a number is not modelled.
- `JsString.ToLowerCase`, `JsString.ToUpperCase`: only ASCII letters change case. Full Unicode case mapping, which can change the length (`ß` upper-cases to `SS`), is not modelled.
- Characters are UTF-16 code units in the source and Dafny `char`s here. Surrogate pairs are not treated specially by either.
- The chat controller, chat service, OpenAI types, bootstrap and scripts are callers and wiring. They are not part of this model.
- `search` matches the whole lower-cased query as one substring of the title and of the description. The query is not split into words, and nothing is returned when no product matches.
- A rate table that does not list the base currency itself makes the base an unsupported code, because `convert` looks the base up in the table like any other code (`Currency.ConvertBaseNotListed`).
- A line whose last field is empty loses that field, so a product with an empty `createDate` is dropped from the catalog (`Products.EmptyCreateDateLost`).
