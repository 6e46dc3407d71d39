# Unit conversions of the food-costing app, in Dafny

This project models the two pieces of conversion logic in the food-costing app.

The first is the server's conversion controller (`server/src/controllers/conversionController.js`). Its SQL queries are restated over in-memory tables:

- `unit_conversions` is a sequence of `Conversion` rows (id, from unit, to unit, factor, item-specific flag, optional item id).
- The `base_unit` flag of `units_of_measure` is a set of unit ids.
- `yield_factors` is a sequence of `YieldFactor` rows.

The controller does four things:

- **`createConversion`.** It rejects a duplicate request. Otherwise it appends the requested row and an automatic reverse row with factor `1/f`. This is the method `ConversionStore.CreateConversion` on a class that holds the table and its id serial.
- **Preferring lookups.** These are the queries `... AND (item_specific = false OR (item_specific = true AND item_id = $n)) ORDER BY item_specific DESC LIMIT 1`. `Lookup` models them, and `Preferred` says which rows the database may return: any matching eligible row, and an item-specific one whenever one matches.
- **`convertUnits`.** It uses a preferred direct row if there is one. Otherwise it falls back to a row from the source unit to a base unit and a row from a base unit to the target unit.
- **`complexConversion`.** It uses a direct row only, then an optional yield of `yield_percentage / 100`.

The `itemSpecific` filter of `getAllConversions` is modelled too.

The second piece is the calculator page (`client/src/pages/ConversionCalculator.js`). Its submit handler converts with a fixed table of unit factors and a fixed yield table, and does not call the server. The page also shows a cost per target unit. `HandleSubmit` and `CostPerTargetUnit` model these, with round-trip and yield lemmas beside them.

Files:

- `wrappers.dfy`: `Option` and `Result`.
- `conversion_controller.dfy`: module `ConversionController`.
- `conversion_calculator.dfy`: module `ConversionCalculator`.

When several rows are equally preferred, the database may return any of them. `Lookup` picks the first in table order, but its contract promises only `Preferred`. Every single-call contract below holds for any choice the database makes. Lemmas that compare two calls on the same table assume the same choice each time.

The model does only what these two files do:

- There is no multi-hop search, only the direct row and the one base-unit fallback.
- Yields are applied only as `yield_percentage / 100`. The `100 / yield` direction does not appear in these files.
- The calculator's cost per target unit is `0.60 / conversionFactor`, with no yield in it.

## Model

| member | source | states |
|---|---|---|
| `ConversionController.Message` | server/src/controllers/conversionController.js:101-102 | The text of each `ConversionError`, as thrown at lines 102, 162, 210, 240 and 258; every text is non-empty. |
| `ConversionController.MessagesAreDistinct` | server/src/controllers/conversionController.js:101-210 | Different errors carry different texts. |
| `ConversionController.FirstCandidate` | server/src/controllers/conversionController.js:169-175 | Finds a matching, eligible row with the requested `item_specific` flag exactly when such a row exists. The row it returns is in the table. |
| `ConversionController.Lookup` | server/src/controllers/conversionController.js:169-177 | Finds a row exactly when some row matches the units and is general or specific to the given item. The row it returns is `Preferred`: item-specific whenever a matching item-specific row exists. Without an item id it is general. |
| `ConversionController.GetAllConversions` | server/src/controllers/conversionController.js:36-39 | Without the parameter it returns every row. With it, it keeps exactly the rows whose `item_specific` equals `param == "true"`, each as often as in the table. |
| `ConversionController.KeepItemSpecific` | server/src/controllers/conversionController.js:36-38 | Keeps exactly the rows with the given `item_specific` flag, with their multiplicities. |
| `ConversionController.HasDuplicate` | server/src/controllers/conversionController.js:94-101 | True exactly when a row has the same from, to and `item_specific` as the request. Its item id must equal the request's raw item id, or both must be NULL. |
| `ConversionController.ConversionStore.CreateConversion` | server/src/controllers/conversionController.js:93-150 | A duplicate fails with `AlreadyExists` and leaves the table and serial unchanged. Otherwise the table grows by exactly the forward row `(from, to, f, spec, spec ? item_id : null)` and the reverse row `(to, from, 1/f, spec, spec ? item_id : null)`, and the forward row is returned. The invariant's id conjuncts (every id below the serial, ids increasing) only record how the serial issues ids; no other contract uses them. |
| `ConversionController.CreatedPairIsReciprocal` | server/src/controllers/conversionController.js:117-146 | The factors of the two created rows multiply to 1, and their units are swapped. They carry the same flag and the same stored item id, which is the request's only when item-specific. |
| `ConversionController.RepeatedCreateRejectedIff` | server/src/controllers/conversionController.js:94-123 | Repeating a create is rejected exactly when it is item-specific, carries no item id, or was already a duplicate. A general request with an item id is never caught. |
| `ConversionController.RepeatedGeneralCreateBreaksReciprocity` | server/src/controllers/conversionController.js:94-146 | Counterexample: a general request with item id 9 is created with factor 2 and then again with factor 3, and the second is not a duplicate. The first forward row and the second reverse row are then both possible direct answers, and their factors do not multiply to 1. This is why `CreatedPairRoundTrip` needs its "no earlier row" hypothesis. |
| `ConversionController.ConvertUnits` | server/src/controllers/conversionController.js:161-214 | Fails with `MissingParameters` exactly when from or to is absent or 0, or when value is undefined. With a direct row it returns one `Preferred` row and that row's factor. Without one it succeeds exactly when both base lookups find a row, and then returns the two `Preferred` rows and `fromBase.factor / toBase.factor`. Otherwise it fails with `NoConversionPath`. The converted value is the value times the factor. |
| `ConversionController.DirectAnswerComposes` | server/src/controllers/conversionController.js:179-181 | A one-row answer of `convertUnits` is a chain from the source to the target unit. Its converted value is the step-by-step conversion along that path. |
| `ConversionController.ItemSpecificOverridesGeneral` | server/src/controllers/conversionController.js:169-181 | Example: with a general row of factor 2 and an item-7 row of factor 3 between the same units, item 7 converts by 3, and a request without an item id converts by 2. |
| `ConversionController.CreatedConversionConverts` | server/src/controllers/conversionController.js:117-181 | After a successful create, `convertUnits` succeeds in both directions for every item the new rows are eligible for. |
| `ConversionController.CreatedRowsAreTheOnlyAnswers` | server/src/controllers/conversionController.js:117-177 | Suppose no eligible row joined the two distinct units before. Then the forward row is the only possible direct answer one way, and the reverse row the only one the other way, whatever order the database uses. |
| `ConversionController.CreatedPairRoundTrip` | server/src/controllers/conversionController.js:117-214 | Converting by a newly created pair and back returns the original value, and the forward factor is the requested one. |
| `ConversionController.CreateThenConvertBack` | server/src/controllers/conversionController.js:117-214 | On a store whose invariant holds, creating a conversion between two units no eligible row joined before appends exactly the two rows and returns the forward row. Converting a value there and back over the store's own table then returns it. |
| `ConversionController.BaseFallbackDividesFactors` | server/src/controllers/conversionController.js:183-211 | Counterexample: rows 1→3 (factor 2) and 3→4 (factor 4), with base unit 3, give the answer 0.5. The returned path is a chain whose step-by-step conversion gives 8. |
| `ConversionController.BaseFallbackMixesBaseUnits` | server/src/controllers/conversionController.js:184-208 | Counterexample: rows 1→3 and 5→4, with base units 3 and 5, give an answer whose path is not a chain. |
| `ConversionController.ConvertViaCommonBase` | server/src/controllers/conversionController.js:183-211 | The corrected fallback is a preferred base row followed by a preferred row from that same base unit to the target. Every answer is a chain from the source to the target unit. Its factor is the product along the path, and its converted value is the step-by-step conversion. It succeeds whenever every preferred base row continues to the target. |
| `ConversionController.CorrectedAgreesOnDirectRows` | server/src/controllers/conversionController.js:168-181 | When a direct row exists, the corrected and as-written conversions give the same response. |
| `ConversionController.FindYield` | server/src/controllers/conversionController.js:266-274 | Finds a yield row exactly when one exists for the item and process type, and returns such a row. |
| `ConversionController.ComplexConversion` | server/src/controllers/conversionController.js:239-281 | Fails with `MissingParameters` exactly when item, from or to is absent or 0, or when value is undefined. Otherwise it succeeds exactly when a direct row exists, with no base fallback, and fails with `NoConversionPath` otherwise. The factor is that of a `Preferred` row. The yield is applied exactly when `includeYield`, a non-empty `yieldType` and a matching yield row are all present. It is then `yield_percentage / 100`, and 1 otherwise. The converted value is value × factor × yield. |
| `ConversionController.ComplexWithoutYieldIsDirectConversion` | server/src/controllers/conversionController.js:244-281 | Without a yield request, `complexConversion` gives the same factor and converted value as a one-row `convertUnits`. |
| `ConversionController.YieldScalesConvertedValue` | server/src/controllers/conversionController.js:261-281 | With a yield, the converted value is the value without a yield times the yield factor, over the same factor. |
| `ConversionController.TrimYieldExample` | server/src/controllers/conversionController.js:265-281 | Example: 10 units over a row of factor 2 with an 80% trim yield give 16, with yield factor 0.8 reported as applied. |
| `ConversionCalculator.MockConversionFactor` | client/src/pages/ConversionCalculator.js:70-82 | Every factor of the page's table is positive. |
| `ConversionCalculator.MockFactorIsOneOffTable` | client/src/pages/ConversionCalculator.js:70-82 | The factor differs from 1 exactly for the pairs (1,2), (2,1), (1,5) and (5,1). A unit to itself converts by 1. |
| `ConversionCalculator.MockFactorsAreReciprocal` | client/src/pages/ConversionCalculator.js:74-81 | For every pair of units, the factor one way times the factor the other way is 1. |
| `ConversionCalculator.MockYield` | client/src/pages/ConversionCalculator.js:85-100 | The table's yield for items 1 and 2 with trim or cook, `None` for every other pair. Every recorded yield lies strictly between 0 and 1. |
| `ConversionCalculator.MockYieldEntries` | client/src/pages/ConversionCalculator.js:87-96 | Yields exist exactly for items 1 and 2 with trim or cook. |
| `ConversionCalculator.HandleSubmit` | client/src/pages/ConversionCalculator.js:58-114 | Fails with "Please fill in all required fields" exactly when item, amount, from or to is empty. Otherwise the factor comes from the table, `originalValue` is the amount, and `convertedValue` is amount × factor × yield. The yield differs from 1 only when one is requested and recorded, and is the recorded one then. `yieldFactorApplied` holds exactly when `includeYield` and a non-empty `yieldType` are set. |
| `ConversionCalculator.SubmitRoundTrip` | client/src/pages/ConversionCalculator.js:74-104 | Without a yield, converting an amount and converting the result back between the same units gives the amount. |
| `ConversionCalculator.YieldNeverIncreasesResult` | client/src/pages/ConversionCalculator.js:85-104 | The yield factor lies in (0, 1]. A non-negative amount converts to at most amount × factor. |
| `ConversionCalculator.AppliedYieldWithoutEntry` | client/src/pages/ConversionCalculator.js:98-114 | A requested yield missing from the table is reported as applied, with yield factor 1. |
| `ConversionCalculator.CostPerTargetUnit` | client/src/pages/ConversionCalculator.js:298 | The cost per target unit times the factor is the $0.60 price per source unit. |
| `ConversionCalculator.DisplayedCostIgnoresYield` | client/src/pages/ConversionCalculator.js:293-299 | The displayed cost per target unit is the same with or without a yield. For a non-zero amount, pricing the converted amount at it recovers the price of the original amount exactly when the yield factor is 1. |

## Findings

| source | as written | input that shows it | evidently intended | confidence | as-written member | corrected member |
|---|---|---|---|---|---|---|
| server/src/controllers/conversionController.js:207 | The fallback divides the source-to-base factor by the factor of a base-to-target row. | Rows 1→3 (factor 2) and 3→4 (factor 4), base unit 3, value 1 from unit 1 to unit 4: the answer is 0.5 | Multiply the factors along the path, as the direct branch and the factor `1/f` of reverse rows imply: the answer is 8 | high; not executed | `ConversionController.BaseFallbackDividesFactors` | `ConversionController.ConvertViaCommonBase` |
| server/src/controllers/conversionController.js:184-201 | The two base rows come from independent lookups, so they can end and start at different base units. | Rows 1→3 and 5→4, base units 3 and 5, from unit 1 to unit 4: the answer uses the path [1→3, 5→4] | Go through one common base unit, as the comment at line 183 says | high; not executed | `ConversionController.BaseFallbackMixesBaseUnits` | `ConversionController.ConvertViaCommonBase` |

`ConvertUnits` keeps the code as written. `ConvertViaCommonBase` is the intended version. No other modelled operation calls `convertUnits`. Apart from the two counterexamples, every lemma about `ConvertUnits` uses only its direct-row branch (lines 179-181), which neither finding touches.

## Left out

- HTTP plumbing is not modelled: `req`, `res`, `next`, status codes and `ApiError`. Errors are the `ConversionError` datatype, and `Message` gives their texts.
- The SQL text and the database driver are not modelled. Tables are values, and each query is a predicate on rows.
- getAllConversionTypes and getConversionById are not modelled. They are plain reads with no logic.
- GetAllConversions: the JOINs that add unit codes, unit names and item names are not modelled. The rows come back in table order, not sorted by unit code. The two joins on `units_of_measure` (lines 28-29) are INNER JOINs, so the source drops any row whose unit id names no unit; `GetAllConversions` keeps such rows. The two agree when the database enforces its foreign keys.
- Lookup: among equally preferred rows, the row the database returns is unspecified. Contracts promise only `Preferred`, and the model's tie-break is table order.
- ConversionController.ConversionStore.CreateConversion: requires a non-zero factor, but the source accepts 0 and stores a reverse factor of Infinity. It also does not model that the two inserts run outside a transaction, so a crash between them is not possible in the model.
- ConversionController.ConvertUnits: requires that no row leaving a base unit has factor 0. Such a row can be the divisor at line 207, where JavaScript would give Infinity or NaN. Zero factors elsewhere are allowed, and a zero direct factor converts to 0 as in JavaScript.
- Arithmetic is exact `real` arithmetic, not IEEE doubles. node-pg returning numeric columns as strings is not modelled.
- Request fields are typed. Ids are optional integers, and absent or 0 counts as missing, as JavaScript falsiness does for numbers. Other falsy or mistyped values are not modelled. The same goes for a `null` value, which JavaScript would multiply as 0. `includeYield` is a boolean and `yieldType` a string.
- ConversionCalculator.HandleSubmit: `yieldFactorApplied` is a boolean. The page stores `includeYield && yieldType` (line 114), which is `false`, `""` or the yield-type string. The page reads only its truthiness (lines 278 and 286), and the boolean is that truthiness.
- The calculator's React state is not modelled: `useState`/`useEffect`, the loading flag, `toast`, the mock item and unit lists and the JSX.
- The calculator's `parseFloat`, `parseInt` and `toFixed` string handling is not modelled. The amount is a real, or `None` when the field is empty.
- The unit codes that the calculator result looks up for display are not modelled.
- The calculator's "Conversion failed" path is not modelled, because nothing in the modelled computation can throw.
- The calculator's yield table is read as a map from the listed items and process types. JavaScript lookups of inherited property names (such as `constructor`) are not modelled, because the page's select offers only trim and cook.
- The other files are not modelled: routing, authentication, navigation, layout and server start-up.
