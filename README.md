# Price watcher (check-sales.js), modelled in Dafny

`check-sales.js` is a serverless handler that visits a fixed catalog of
product pages. Each page gives a "now" price, a "was" price and a sale-badge
text. The handler normalizes them (`normalizePriceResult`) and decides whether
the product is on sale. It also remembers the last price of each product in an
optional key-value store. It returns one JSON entry per product: either what
was read, with a `dropDetected` flag when the price fell since the last run,
or the error message when the product failed.

The model has one module per part of the program:

| file | module | what it holds |
|---|---|---|
| `wrappers.dfy` | `Wrappers` | `Option` |
| `text.dfy` | `JsText` | JavaScript's whitespace class (`\s`, `trim`), digits, ASCII lower-casing, `includes` |
| `normalizer.dfy` | `Normalizer` | `norm`, `priceToNumber` and `normalizePriceResult` |
| `fallback.dfy` | `Fallback` | `textPriceFallback`: the currency-amount regular expression as a language and as a greedy, leftmost search |
| `catalog.dfy` | `Catalog` | the `PRODUCTS` rules, the Amazon rule's body-text fallback |
| `orchestrator.dfy` | `Orchestrator` | `kvGet`/`kvSet` over an in-memory store, and the `handler` loop |
| `scenarios.dfy` | `Scenarios` | concrete cases: prices read from typical fragments, sale flags, a drop, a failing product |

Modelling choices:

- **Prices.** A parsed price is a natural number of hundredths, not a
  JavaScript float. The pattern keeps at most two decimals, so this is exact:
  `"19.9"` is 1990 and `"$1,299.99"` is 129999.
- **`norm`.** It is `Trim(Collapse(s))`. It is proved equal to an independent
  reference definition: the whitespace-separated words of `s`, joined by
  single spaces.
- **`priceToNumber`.** `FirstNumber` is the leftmost match of
  `\d+(\.\d{1,2})?`, taken after the commas and spaces are removed. It is
  proved to read back every price written with two decimals after any
  digit-free prefix. It also reads back the text JavaScript's `String`
  prints for a price.
- **`textPriceFallback`.** The pattern is written twice:
  - `IsPriceText` is the set of strings the regular expression accepts;
  - `MatchAt`/`Locate` is the search a backtracking engine performs.

  The search is proved sound, longest at its start, and leftmost.
- **Each product's outcome is an input.** Each product comes with an
  `Attempt`:
  - the page its selectors read, or the error `fetchHtml`/`parse` threw;
  - whether the store's get and set calls throw.

  A store fault counts only when the store is configured, because only then
  does the code make the REST call.
- **The loop.** `Handler` is the loop of the source, written as a `for` loop
  over the catalog. It is proved equal to the specification function `Run`.
  The lemmas about `Run` and `Step` state what the source promises.

Two behaviours of the code a reader might not expect:

- **Store errors are not swallowed.** A failing `kvGet` or `kvSet` is thrown
  inside the item's `try` block (check-sales.js:183, :186). The product's
  entry then becomes an error entry (`StepEntry`).
- **Zero disables the price comparison.** The badge-less sale test uses
  `wasNum && nowNum` (check-sales.js:149), so a price of 0 on either side
  means "not on sale".

## Model

| member | source | states |
|---|---|---|
| JsText.ToLower | check-sales.js:148 | lower-casing keeps the length and maps each character through ASCII case folding |
| Normalizer.DropSpaces | check-sales.js:137 | the result is a suffix of the input; it starts with a non-space and everything dropped was whitespace |
| Normalizer.Words | check-sales.js:137 | the reference split of a text: every piece is a non-empty word without whitespace |
| Normalizer.JoinIsClean | check-sales.js:137 | words joined by single spaces have no leading, trailing or doubled whitespace |
| Normalizer.WordsOfJoin | check-sales.js:137 | splitting words joined by single spaces gives back the same words |
| Normalizer.NormIsJoinedWords | check-sales.js:137 | `norm(s)` equals the words of `s` joined by single spaces |
| Normalizer.NormIsClean | check-sales.js:137 | `norm` output has no leading, trailing or consecutive whitespace; a missing or empty text gives `""` |
| Normalizer.NormKeepsWords | check-sales.js:137 | `norm` keeps the words of its input, and applying it twice changes nothing |
| Normalizer.NormKeepsChars | check-sales.js:137 | a non-whitespace character occurs in `norm(s)` exactly when it occurs in `s` |
| Normalizer.NormKeepsDigits | check-sales.js:137 | `norm(s)` has a digit exactly when `s` has one |
| Normalizer.NormOfWord | check-sales.js:137 | text without whitespace passes through `norm` unchanged |
| Normalizer.DigitRunLen | check-sales.js:140 | the greedy `\d+`: the prefix it measures is all digits and is followed by a non-digit or the end |
| Normalizer.Cents | check-sales.js:140 | the optional `.d`/`.dd` gives fewer than 100 hundredths |
| Normalizer.StripAppend | check-sales.js:140 | removing commas and spaces distributes over concatenation |
| Normalizer.StripKeepsDigits | check-sales.js:140 | removing commas and spaces neither adds nor removes digits |
| Normalizer.FirstNumberAbsent | check-sales.js:140-141 | the number pattern finds no match exactly when the text has no digit |
| Normalizer.FirstNumberSkips | check-sales.js:140 | the match is leftmost: a digit-free prefix is skipped |
| Normalizer.NumberAfterDigits | check-sales.js:140-141 | a match starting at a run of digits takes the whole run plus at most two decimals |
| Normalizer.ReadAfterPrefix | check-sales.js:140-141 | after a digit-free prefix, the value read is the integer digits in hundreds plus the decimals |
| Normalizer.PriceToNumberAbsent | check-sales.js:138-142 | `priceToNumber` gives none exactly for empty text or text without a digit |
| Normalizer.PriceRoundTrip | check-sales.js:138-142 | a price written with two decimals after any digit-free prefix, followed by anything, reads back as itself |
| Normalizer.JsDecimalRoundTrip | check-sales.js:138-142 | the text JavaScript prints for a price (`"19.9"`, `"19"`, `"19.05"`) reads back as the same price |
| Normalizer.NatDigitsValue | check-sales.js:141 | a number's decimal digits evaluate back to the number |
| Normalizer.NumAbsent | check-sales.js:143-146 | a normalized fragment gives no number exactly when the fragment is missing or has no digit |
| Normalizer.NormalizePriceResult | check-sales.js:136-151 | both texts are clean; each number is absent exactly when its fragment is missing or digit-free; a badge containing "sale" makes the product on sale; without one, on sale exactly when both numbers are present and non-zero and now < was |
| Fallback.CurrencyLen | check-sales.js:167 | the currency alternative matched at a position is at most 3 characters and inside the text |
| Fallback.RunEnd | check-sales.js:167 | the greedy `[\d,]*`: everything before the end is a digit or comma, and the end is not |
| Fallback.CurrencySound | check-sales.js:167 | the symbol the search recognizes is one of `$`, `NZ$`, `A$`, `€`, `£` |
| Fallback.CurrencyDetermined | check-sales.js:167 | an accepted string fixes its currency symbol, and the search recognizes that one |
| Fallback.AmountSound | check-sales.js:167 | the greedy amount the search reads is accepted by `\d[\d,]*(\.\d{1,2})?` |
| Fallback.AmountLongest | check-sales.js:167 | every accepted amount starting at that digit ends no later than the greedy one |
| Fallback.SpacedAmountLongest | check-sales.js:167 | the same with the optional whitespace character `\s?` in front |
| Fallback.MatchAtSound | check-sales.js:167 | a match the search finds at a position is accepted by the whole pattern |
| Fallback.MatchAtComplete | check-sales.js:167 | if any accepted substring starts at a position, the search matches there, at least as far |
| Fallback.LocateNone | check-sales.js:167-168 | when the scan finds nothing, no substring from that point on is a price text |
| Fallback.LocateSome | check-sales.js:167-168 | the scan stops at a real match, and no price text starts before it |
| Fallback.TextPriceFallbackSpec | check-sales.js:165-169 | the result is `""` exactly when the body has no price text; otherwise it is the leftmost price text, the longest one at its start |
| Fallback.PriceTextHasDigit | check-sales.js:167 | every accepted price text contains a digit |
| Fallback.FallbackHasDigit | check-sales.js:165-169 | a non-empty fallback result always contains a digit |
| Catalog.AmazonNow | check-sales.js:62-64 | the "now" text is empty exactly when the selector found nothing and the body has no price text; a selector text is kept; anything else is a price text from the body |
| Catalog.ParsePage | check-sales.js:61-66 | a rule's `parse` as the loop runs it, with the Amazon rule's reassignment of `now`, gives what the `Parse` specification gives |
| Catalog.FallbackOnlyWhenEmpty | check-sales.js:64 | with a non-empty selector text, the fallback rule parses like a rule without it |
| Catalog.FallbackFindsPrice | check-sales.js:64-65 | with an empty selector text and a price text in the body, the Amazon rule reads a number |
| Catalog.ProductKeysDistinct | check-sales.js:23-134 | the catalog has ten products with pairwise different keys |
| Catalog.OnlyAmazonFallsBack | check-sales.js:23-134 | exactly the fourth product (Amazon) uses the body-text fallback |
| Orchestrator.Run | check-sales.js:173-207 | the run gives one entry per product |
| Orchestrator.Handler | check-sales.js:173-207 | the loop's entries and final store are those of the `Run` specification |
| Orchestrator.Visit | check-sales.js:176-205 | one loop iteration, with its `try`/`catch`, gives the entry and store of the `Step` specification |
| Orchestrator.Remember | check-sales.js:181-197 | `kvGet`, the drop comparison, `kvSet` and the push give the entry and store of the `Settle` specification |
| Orchestrator.RunExtend | check-sales.js:175-206 | the run over one more product is the run so far plus that product's iteration on the store the run left |
| Orchestrator.SettleEntry | check-sales.js:181-205 | after parsing, the entry fails exactly when a price was read and a store call throws; otherwise its "now" is the cleaned text, or `"(price not found)"` when that is empty, and it shows the "was" text, the sale flag and the drop |
| Orchestrator.SettleStore | check-sales.js:181-187 | after parsing, only `price:<key>` can change, and it changes exactly when the price is written |
| Orchestrator.SettleLocal | check-sales.js:181-187 | after parsing, the iteration depends on the store only through its configuration and its own key |
| Orchestrator.StepEntry | check-sales.js:189-205 | an entry names its product; it is an error entry exactly when the iteration throws, carrying `e.message` or else `String(e)` |
| Orchestrator.StepSuccess | check-sales.js:181-197 | a success entry's "now" is the cleaned text, or exactly `"(price not found)"` when that is empty; it shows the "was" text and the sale flag; it reports a drop exactly when a price was read, the configured store holds an earlier price, and the new price is below it |
| Orchestrator.StepStore | check-sales.js:181-187 | `price:<key>` gets the new price exactly when the iteration succeeds with a price on a configured store; every other key is unchanged |
| Orchestrator.StepLocal | check-sales.js:181-187 | an iteration sees the store only through its configuration and its own key |
| Orchestrator.StepRepeatNoDrop | check-sales.js:181-187 | seeing the same page again after an iteration reports no drop |
| Orchestrator.PrefixAt | check-sales.js:175-206 | entry i of the run over the first n products is product i's iteration on the store the earlier ones left |
| Orchestrator.RunAt | check-sales.js:175-206 | the same for the whole catalog: entries come in catalog order |
| Orchestrator.RunFrame | check-sales.js:183-186 | a key that no product of the run owns is never changed |
| Orchestrator.StoreKeyInjective | check-sales.js:183 | different product keys give different store keys |
| Orchestrator.StoreBeforeIsInitial | check-sales.js:183-186 | with unique keys, the store a product meets holds what it held at the start, for that product |
| Orchestrator.RunIsolation | check-sales.js:175-206 | with unique keys, each entry is what the product would give if processed alone |
| Orchestrator.OthersUnaffected | check-sales.js:198-205 | changing what happens to the other products, including making them throw, leaves a product's entry unchanged |
| Orchestrator.RunResults | check-sales.js:173-206 | one entry per product, in catalog order, naming its product; an error entry exactly for the products whose iteration throws |
| Orchestrator.RunKeyAfter | check-sales.js:181-187 | once product i has been processed, its key holds what its own iteration wrote |
| Orchestrator.RunStore | check-sales.js:181-187 | after the run each product's key holds what its own iteration wrote, and every other key is as before |
| Orchestrator.RunUnconfiguredStore | check-sales.js:8-21 | without the store's URL and token, the run leaves the store as it was |
| Orchestrator.RunUnconfigured | check-sales.js:8-21 | without the store's URL and token, no entry reports a drop and nothing is written |
| Orchestrator.SecondRunNoDrop | check-sales.js:181-187 | running again over the same pages, on the store the first run left, reports no drop |
| Scenarios.ThirdDecimalIgnored | check-sales.js:140 | `"19.999"` reads as 19.99 |
| Scenarios.OneDecimalIsTenths | check-sales.js:140-141 | `"19.9"` reads as 19.90 |
| Scenarios.NoDigitsNoNumber | check-sales.js:138-142 | `"Contact us"` gives no number |
| Scenarios.SeparatorsSkipped | check-sales.js:140 | `"$1,299.99"` reads as 1299.99 |
| Scenarios.DollarPrice | check-sales.js:137-141 | a dollar amount with two decimals is unchanged by `norm` and reads back as itself |
| Scenarios.DollarFragments | check-sales.js:143-149 | for two dollar fragments without a badge, the product is on sale exactly when now is non-zero and below was |
| Scenarios.MarkdownIsSale | check-sales.js:147-149 | now `$10.00`, was `$20.00` is on sale |
| Scenarios.MarkupIsNotSale | check-sales.js:147-149 | now `$20.00`, was `$10.00` is not on sale |
| Scenarios.ZeroNeverCompares | check-sales.js:149 | now `$0.00`, was `$5.00` is not on sale |
| Scenarios.SaleBadge | check-sales.js:148 | the badge `"SALE"` makes the product on sale with no "was" price |
| Scenarios.DollarStep | check-sales.js:181-197 | on a configured store, a dollar page succeeds, stores its amount, and reports a drop exactly when the stored price is higher |
| Scenarios.DropThenSteady | check-sales.js:181-187 | a stored 25.00 followed by a page at 20.00 reports a drop and stores 20.00; the same page again reports none |
| Scenarios.FirstRunNoDrop | check-sales.js:181-187 | with nothing stored there is no drop, and the price is stored |
| Scenarios.PriceNotFound | check-sales.js:182-193 | a page without a "now" text shows `"(price not found)"` and writes nothing |
| Scenarios.OneFailure | check-sales.js:175-205 | a product whose fetch throws gets an error entry with the message; the product after it still succeeds |

## Left out

- `fetchHtml` (check-sales.js:153-163): the axios request, its headers and its 20-second timeout are network I/O. The page it gives, or the error it throws, is an input of each product's `Attempt`.
- The Upstash REST calls inside `kvGet`/`kvSet` (check-sales.js:10-14, 18-20): the `fetch`, the bearer header and the JSON decoding are I/O. The store is an in-memory map plus a "configured" flag, and whether each call throws is an input.
- The store holds prices in hundredths, not decimal strings. The `String(...)` written by `kvSet` and the `Number(...)` read back after `kvGet` (check-sales.js:184, 186) become the identity on prices. A stored value the handler did not write itself, such as a non-numeric string giving `NaN`, is not modelled.
- Orchestrator.Remember: a `kvSet` that throws is modelled as writing nothing. A REST call that fails after the server stored the value is not modelled.
- The cheerio selectors of each rule (check-sales.js:28-133) belong to a foreign DOM library. Each rule's `parse` becomes `Catalog.Parse` over a `Page` of the texts its selectors return. The `.trim()` the first rule applies to its badge text (check-sales.js:29) is not modelled either; it cannot change whether the badge contains "sale".
- `Catalog.Products` keeps each rule's key, name, URL and whether it falls back to the body text, not its selector strings.
- A `parse` that throws is folded into the fetch outcome: `Failed` stands for an error thrown by `fetchHtml` or by `parse`.
- Normalizer.NormalizePriceResult: models only the truthiness of `onSaleMarkup`. In JavaScript its falsy value can be `null` or `0` as well as `false`, because `wasNum` and `nowNum` enter the `&&` chain as they are (check-sales.js:147-149).
- JavaScript floats: `Number(m[1])` loses precision for very long digit strings. The model's prices are exact.
- `toLowerCase` is modelled on ASCII letters only. Full Unicode case mapping is not modelled.
- Whitespace is the fixed set of characters JavaScript's `\s` and `trim` treat as whitespace.
- The `Response`, `JSON.stringify` and `new Date().toISOString()` of check-sales.js:208-211 are serialization and clock access. `Handler` returns the result sequence and the store instead.
- `export const config` (check-sales.js:171) is deployment configuration.
