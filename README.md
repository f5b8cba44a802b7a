# Store inventory system: a verified model of its core

This project is a Dafny model of the core of a small Java store-inventory application.
It covers six parts:

- **Valuation.** `Product.getTotalValue` and the expiry-dependent `PerishableProduct.getTotalValue`.
- **Catalog.** The in-memory catalog kept by `StoreService`: append, remove-at-index with a bounds check, snapshot, first case-insensitive name match, and the four catalog totals.
- **Persistence.** The store's JSON persistence:
  - per-record defensive decoding with its defaults;
  - the structural repair that adds a missing `type`;
  - serialization with an explicit type discriminator;
  - recovery from a backup or from the built-in ten-product inventory;
  - the guard that never writes an empty inventory over the file.
- **Text-level repair.** `InventoryFileManager`'s text repair (two `replaceAll` rewrites), the `"name":` counting loop, template upkeep, refresh-from-template with its confirmation and backup, and the plain backup.
- **Console helpers.** Two helpers of the console front end: line truncation and the bounded-retry integer prompt.
- **Launcher.** The launcher's argument classifiers, and the Java version parser and configuration check of the JavaFX helper.

How Java concepts are represented:

- **Money.** `BigDecimal` is `Decimal(unscaled, scale)`. Every `setScale(2, HALF_UP)` is `SetScale2`, which gives an exact integer number of hundredths (`Cents`). The multipliers 0.5, 0.7, 0.2 and 0.85 are exact decimals. Nothing is floating point.
- **Integers.** `int` is the subset type `Int32`. `IntStream.sum` wraps around explicitly, via `Wrap32`.
- **Dates.** `LocalDate` is a validated `Date`. `ChronoUnit.DAYS.between` is the difference of Java's epoch-day numbers, and `LocalDate.now()` is a parameter `today`.
- **Files.** The file system is `Disk<C>`: a map from path to content, plus the paths whose reads and writes throw `IOException`.
  - The store sees a file as its parsed JSON tree (`Codec.FileData`).
  - `InventoryFileManager` sees a file as text.
- **Inputs.** Console input is a sequence of lines. The clock in milliseconds and the environment facts (headless, JavaFX present, JavaFX module present, Java version string) are parameters.

Modules:

- `Wrappers`: Option and Result.
- `Text`: strings, digits, `Integer.parseInt`, 32-bit wrap.
- `Decimals`
- `Dates`: ISO dates and epoch days.
- `Json`: the tree and Jackson's accessors with defaults.
- `Disk`
- `Products`: the valuation, plus the `Product` and `PerishableProduct` classes.
- `Catalog`: the totals and the name search.
- `Codec`: record decoding, encoding and structural repair.
- `Store`: the `StoreService` class.
- `FileManager`: the `InventoryFileManager` class.
- `Console`
- `Launcher`

Each file-state operation follows the same pattern:

- It is first stated as a function of the disk (`SavedDisk`, `Load`, `FixUserFile`, `Refresh`, …).
- A class method then performs it step by step, and its `ensures` ties the new state to that function.
- Lemmas then prove what the source promises about the function.

## Model

| member | source | states |
|---|---|---|
| Decimals.RoundHalfUp | store-inventory-system/src/main/java/com/store/model/Product.java:128 | HALF_UP division: the result is within half a unit of n/d, ties go away from zero, and the sign follows n |
| Decimals.SetScale2 | store-inventory-system/src/main/java/com/store/model/Product.java:45-47 | `setScale(2, HALF_UP)`: exact at scale ≤ 2; otherwise the number of hundredths lies within half a hundredth of the value, an exact tie goes to the neighbour further from zero, and the sign is kept |
| Decimals.SetScale2Idempotent | store-inventory-system/src/main/java/com/store/model/Product.java:81-83 | re-rounding a value that already has two decimals returns it unchanged, so `setPrice(getPrice())` and `setDiscount(getDiscount())` are no-ops |
| Decimals.AddCents | store-inventory-system/src/main/java/com/store/service/StoreService.java:372-377 | `BigDecimal.add` of two-decimal values is exact, and `ZERO` is its identity |
| Products.BaseValueExact | store-inventory-system/src/main/java/com/store/model/Product.java:125-129 | the product valuation is round2(price×quantity×(1−discount)), computed exactly in hundredths |
| Products.BaseValueNoDiscount | store-inventory-system/src/main/java/com/store/model/Product.java:125-129 | with discount 0 the valuation is exactly price×quantity |
| Products.BaseValueBounds | store-inventory-system/src/main/java/com/store/model/Product.java:125-129 | for price ≥ 0, quantity ≥ 0 and a discount in [0, 1], the valuation lies between 0 and price×quantity |
| Products.BaseValueExample | store-inventory-system/src/test/java/com/store/MainTest.java:55-59 | 10.00 × 5 at a 0.10 discount is 45.00 |
| Products.ProximityValueExact | store-inventory-system/src/main/java/com/store/model/PerishableProduct.java:80-92 | the expiry adjustment is round2(base × factor); the factor is 0.5 for 0..2 days, 0.7 for 3..7, 0.2 when expired, and 1 otherwise (then the base is returned unrounded) |
| Products.ProximityBoundaries | store-inventory-system/src/main/java/com/store/model/PerishableProduct.java:80-92 | the factor is 0.5 at 0 and 2 days, 0.7 at 3 and 7 days, 1 at 8 days and 0.2 at −1 day |
| Products.ProximityValueBounds | store-inventory-system/src/main/java/com/store/model/PerishableProduct.java:72-93 | for a base ≥ 0 the adjusted value lies between 0 and the base |
| Products.TotalValueExact | store-inventory-system/src/main/java/com/store/model/PerishableProduct.java:72-93 | a plain entry is worth its discounted total; a perishable entry applies the expiry factor to that already discounted total, so the two discounts multiply |
| Products.TotalValueBounds | store-inventory-system/src/main/java/com/store/model/PerishableProduct.java:72-93 | for sound prices, quantities and discounts: 0 ≤ entry value ≤ discounted total ≤ price×quantity |
| Products.PerishableTwoDaysExample | store-inventory-system/src/test/java/com/store/MainTest.java:94-102 | 3.00 × 4 expiring in two days is worth 6.00, below 12.00 |
| Products.PerishableTomorrowIsHalf | store-inventory-system/src/test/java/com/store/service/StoreServiceTest.java:62-68 | 10.00 × 2 expiring tomorrow is worth 10.00, not the 16.00 the test expects |
| Products.Product.constructor | store-inventory-system/src/main/java/com/store/model/Product.java:43-48 | stores the name and quantity as given, and the price and discount rounded to two decimals |
| Products.Product.GetTotalValue | store-inventory-system/src/main/java/com/store/model/Product.java:125-129 | the valuation of the object's fields is exactly round2(price×quantity×(1−discount)) HALF_UP; it is bounded by price×quantity for sound fields and equal to it without a discount |
| Products.Product.SetName | store-inventory-system/src/main/java/com/store/model/Product.java:60-62 | only the name changes |
| Products.Product.SetPrice | store-inventory-system/src/main/java/com/store/model/Product.java:81-83 | the price becomes the argument rounded to two decimals; the other fields stay |
| Products.Product.SetQuantity | store-inventory-system/src/main/java/com/store/model/Product.java:95-97 | only the quantity changes |
| Products.Product.SetDiscount | store-inventory-system/src/main/java/com/store/model/Product.java:116-118 | the discount becomes the argument rounded to two decimals; the other fields stay |
| Products.ReapplyPriceAndDiscount | store-inventory-system/src/main/java/com/store/model/Product.java:116-118 | setting a product's price and discount to their own values changes no field |
| Products.PerishableProduct.constructor | store-inventory-system/src/main/java/com/store/model/PerishableProduct.java:36-39 | the product part is built as `Product`'s constructor builds it, and the expiration date is stored |
| Products.PerishableProduct.GetTotalValue | store-inventory-system/src/main/java/com/store/model/PerishableProduct.java:72-93 | the expiry adjustment of the product part's valuation, for the days from `today`; never above that valuation |
| Products.PerishableProduct.SetExpirationDate | store-inventory-system/src/main/java/com/store/model/PerishableProduct.java:58-60 | stores the given date unchanged |
| Products.PerishableProduct.SetExpirationDateText | store-inventory-system/src/main/java/com/store/model/PerishableProduct.java:51-53 | succeeds exactly when the text is a strict ISO calendar date, and then stores that date; on failure (`DateTimeParseException`) the date is unchanged |
| Dates.ParseFormat | store-inventory-system/src/main/java/com/store/model/PerishableProduct.java:51-53 | `LocalDate.parse` of a date's `toString` gives the date back, for every year Java allows |
| Dates.ParseExample | store-inventory-system/src/test/java/com/store/MainTest.java:109-111 | "2023-12-31" parses to 31 December 2023 |
| Dates.ParseRejectsFebruary30 | store-inventory-system/src/main/java/com/store/model/PerishableProduct.java:51-53 | strict resolution rejects 30 February of every four-digit year |
| Dates.NextDay | store-inventory-system/src/main/java/com/store/model/PerishableProduct.java:76-77 | every date but the last one Java allows has a following day |
| Dates.EpochDayNext | store-inventory-system/src/main/java/com/store/model/PerishableProduct.java:77 | consecutive calendar days have consecutive epoch-day numbers, so the day count between two dates counts calendar days |
| Text.Wrap32 | store-inventory-system/src/main/java/com/store/service/StoreService.java:362-366 | 32-bit two's-complement wrap: congruent to its argument modulo 2^32, and the identity inside the `int` range |
| Text.EqualsIgnoreCaseIsLowerEquality | store-inventory-system/src/main/java/com/store/service/StoreService.java:352-356 | `equalsIgnoreCase` holds exactly when the two lower-cased names are equal |
| Text.IndexOf | store-inventory-system/src/main/java/com/store/util/InventoryFileManager.java:335 | `indexOf(p, from)` gives the first match at or after `from`, or −1 when there is none |
| Text.ContainsIffOccurs | store-inventory-system/src/main/java/com/store/util/InventoryFileManager.java:39-43 | `contains` holds exactly when the pattern occurs somewhere in the text |
| Text.ParseIntToString | store-inventory-system/src/main/java/com/store/Main.java:250 | `Integer.parseInt` gives back every `int` from its decimal text |
| Text.ParseIntRejectsNonDigit | store-inventory-system/src/main/java/com/store/Main.java:250 | a non-digit character other than a leading sign makes `Integer.parseInt` fail |
| Json.AsNumberOfNumber | store-inventory-system/src/main/java/com/store/service/StoreService.java:422-424 | `asDouble` of a number field is that number, and `asInt` of an integer field is that integer |
| Json.AccessorsOfNull | store-inventory-system/src/main/java/com/store/service/StoreService.java:420-424 | a field holding `null` reads as the default given to `asText`, `asDouble` or `asInt` |
| Json.ParseAsIntOfIntText | store-inventory-system/src/main/java/com/store/service/StoreService.java:423 | a quantity stored as the text of an `int` reads back as that `int` |
| Json.TruncateToInt32 | store-inventory-system/src/main/java/com/store/service/StoreService.java:423 | the `(int)` cast of a quantity truncates toward zero (the quotient t satisfies t·10^scale ≤ u < (t+1)·10^scale for u ≥ 0, mirrored for u < 0) and saturates at the `int` bounds; an in-range integer is unchanged and the sign is kept |
| Json.TruncateToInt32Examples | store-inventory-system/src/main/java/com/store/service/StoreService.java:423 | 2.7 casts to 2, −2.7 to −2, and 3000000000 saturates to 2147483647 |
| Json.Shortest | store-inventory-system/src/main/java/com/store/service/StoreService.java:421 | dropping trailing fraction zeros keeps the value, keeps at least one fraction digit, and leaves no trailing zero beyond the first fraction digit, as `Double.toString` writes a plain decimal |
| Json.NumberTextExamples | store-inventory-system/src/main/java/com/store/service/StoreService.java:421 | a name stored as the number 1.50 reads as the text "1.5", 2.000 as "2.0" and 0.25 as "0.25" |
| Json.NumberTextNegative | store-inventory-system/src/main/java/com/store/service/StoreService.java:421 | a name stored as the number −12.340 reads as the text "-12.34" |
| Json.ParseDecimalOfParts | store-inventory-system/src/main/java/com/store/service/StoreService.java:422 | a price stored as the text "digits.digits" reads back as that exact decimal |
| Codec.DecodeRecord | store-inventory-system/src/main/java/com/store/service/StoreService.java:418-440 | an element becomes perishable exactly when its type is "perishable" and its expiration text parses, using that date; an element without that type becomes the plain product of its fields with their defaults; a perishable element whose date fails becomes "Error Product" |
| Codec.DecodeAll | store-inventory-system/src/main/java/com/store/service/StoreService.java:415-441 | one entry per element, in order, each decoded by itself, so one bad element does not stop the batch |
| Codec.DecodeDefaults | store-inventory-system/src/main/java/com/store/service/StoreService.java:420-424 | an element with none of the fields decodes to ("Unnamed Product", 0, 0, 0), not perishable |
| Codec.DecodePerishableWithoutDate | store-inventory-system/src/main/java/com/store/service/StoreService.java:427-431 | a "perishable" element without `expirationDate` becomes a plain product with its name |
| Codec.DecodeBadDate | store-inventory-system/src/main/java/com/store/service/StoreService.java:435-439 | a "perishable" element whose date does not parse becomes the error entry |
| Codec.DecodeStrict | store-inventory-system/src/main/java/com/store/service/StoreService.java:254-270 | the strict reader of `createEmptyInventory` succeeds only on elements that have a name, price, quantity and discount |
| Codec.DecodeStrictAll | store-inventory-system/src/main/java/com/store/service/StoreService.java:250-272 | the strict loop succeeds exactly when every element decodes strictly, and then gives one entry per element, in order, each the element's own strict decoding |
| Codec.EncodeRecord | store-inventory-system/src/main/java/com/store/service/StoreService.java:611-630 | every node carries `type`: "perishable" with `expirationDate` added, or "non-perishable" with exactly the five other fields |
| Codec.EncodeAll | store-inventory-system/src/main/java/com/store/service/StoreService.java:611-630 | one node per entry, in order |
| Codec.DecodeEncode | store-inventory-system/src/main/java/com/store/service/StoreService.java:611-630 | decoding the node written for an entry gives the entry back |
| Codec.DecodeEncodeAll | store-inventory-system/src/main/java/com/store/service/StoreService.java:611-630 | decoding the array written for an inventory gives the inventory back, in order |
| Codec.FixItem | store-inventory-system/src/main/java/com/store/service/StoreService.java:496-509 | a repaired element has `type` ("non-perishable" when it had none), keeps every field it had with its value, and gains no other field |
| Codec.FixItems | store-inventory-system/src/main/java/com/store/service/StoreService.java:496-509 | repair keeps the count and order of the elements |
| Codec.FixItemKeepsTyped | store-inventory-system/src/main/java/com/store/service/StoreService.java:496-509 | an element that already has `type` is left exactly as it is |
| Codec.FixItemsComplete | store-inventory-system/src/main/java/com/store/service/StoreService.java:496-509 | after repair no element lacks `type`, and repairing again changes nothing |
| Codec.FixItemsNoop | store-inventory-system/src/main/java/com/store/service/StoreService.java:479-485 | an array in which every element has `type` is unchanged by repair |
| Codec.DecodeFixItem | store-inventory-system/src/main/java/com/store/service/StoreService.java:420 | repairing an element does not change the entry the loader decodes from it |
| Codec.DecodeFixItems | store-inventory-system/src/main/java/com/store/service/StoreService.java:415-441 | repairing an array does not change the inventory the loader decodes from it |
| Codec.EncodedNeedsNoType | store-inventory-system/src/main/java/com/store/service/StoreService.java:611-630 | a saved inventory never needs the missing-type repair |
| Codec.DecodePerishableItem | store-inventory-system/src/main/java/com/store/service/StoreService.java:254-262 | a perishable element built with all six fields decodes, both strictly and defensively, to its entry with price and discount rounded |
| Codec.DecodePlainItem | store-inventory-system/src/main/java/com/store/service/StoreService.java:263-270 | a non-perishable element built with all five fields decodes, both strictly and defensively, to its entry |
| Codec.TenProductFileDecodes | store-inventory-system/src/main/java/com/store/service/StoreService.java:121-206 | the built-in ten-product file has ten typed elements, and both readers decode it to the ten built-in entries |
| Codec.TenProductRecordsScaled | store-inventory-system/src/main/java/com/store/service/StoreService.java:121-206 | spot values of the built-in entries: Strawberries 3.49 × 20 at 0.10 expiring 2025-04-19, and Onions 0.89 × 45 at 0.05 |
| Catalog.FirstNamed | store-inventory-system/src/main/java/com/store/service/StoreService.java:352-356 | the index of the first entry whose name equals the query ignoring case, or −1 when no entry matches |
| Catalog.FindProductByName | store-inventory-system/src/main/java/com/store/service/StoreService.java:352-356 | a result exists exactly when some name matches ignoring case, and it is the first match in catalog order |
| Catalog.TotalQuantityIsWrappedSum | store-inventory-system/src/main/java/com/store/service/StoreService.java:362-366 | the total quantity is the sum of the quantities wrapped to 32 bits |
| Catalog.DecimalSumOfCents | store-inventory-system/src/main/java/com/store/service/StoreService.java:372-377 | reducing two-decimal values with `BigDecimal::add` from `ZERO` and rounding to two decimals gives the exact sum |
| Catalog.GrossPriceExact | store-inventory-system/src/main/java/com/store/service/StoreService.java:372-377 | the gross total is exactly Σ price×quantity |
| Catalog.PriceWithPerishableDiscountExact | store-inventory-system/src/main/java/com/store/service/StoreService.java:383-388 | the discounted total is exactly the sum of the entry values |
| Catalog.StoreWideDiscountExact | store-inventory-system/src/main/java/com/store/service/StoreService.java:394-398 | the net total is round2(discounted total × 0.85) |
| Catalog.StoreWideDiscountBounds | store-inventory-system/src/main/java/com/store/service/StoreService.java:394-398 | for a nonnegative total w the net lies between 0 and w; it is strictly less once w ≥ 0.04 and equal for 0.01 to 0.03 |
| Catalog.AggregatesOrdered | store-inventory-system/src/main/java/com/store/service/StoreService.java:372-398 | for sound entries, 0 ≤ net ≤ discounted total ≤ gross |
| Catalog.AggregatesAppend | store-inventory-system/src/main/java/com/store/service/StoreService.java:362-388 | appending an entry adds its quantity (wrapped), its price×quantity and its value to the three totals |
| Catalog.SampleCatalog | store-inventory-system/src/main/java/com/store/service/StoreService.java:372-398 | Widget (10.00 × 5 at 0.10) plus Milk (3.00 × 4 expiring tomorrow) give gross 62.00, discounted 51.00 and net 43.35 |
| Catalog.TwoProductTotals | store-inventory-system/src/test/java/com/store/service/StoreServiceTest.java:38-54 | the two test catalogs have total quantity 8 and gross 80.00 |
| Catalog.RegularAndPerishableNet | store-inventory-system/src/test/java/com/store/MainTest.java:176-190 | a 10.00 × 2 entry at 0.10 plus a 5.00 × 2 entry expiring in three days: discounted 25.00, net 21.25, net below discounted |
| Store.SavedDisk | store-inventory-system/src/main/java/com/store/service/StoreService.java:589-645 | saving writes a non-empty inventory as its encoding (no change when the write throws); an empty inventory never reaches the file; only the file and its emergency copy can change |
| Store.SaveEmptyKeepsFile | store-inventory-system/src/main/java/com/store/service/StoreService.java:593-600 | saving an empty inventory leaves the file as it was; the only possible change is an emergency copy of a file of more than 10 bytes (`File.length()`) |
| Store.FixFormatRepairs | store-inventory-system/src/main/java/com/store/service/StoreService.java:465-522 | a repair that goes through first copies the file to ".missing-type.bak", then writes every element with a `type`; the decoded inventory is unchanged and a second repair is a no-op |
| Store.FixFormatNoop | store-inventory-system/src/main/java/com/store/service/StoreService.java:479-489 | a file whose elements all have `type` (or that is no readable array) gets no backup and no write |
| Store.CreateEmpty | store-inventory-system/src/main/java/com/store/service/StoreService.java:239-282 | `createEmptyInventory` never leaves the inventory empty |
| Store.CreateEmptyReadsBack | store-inventory-system/src/main/java/com/store/service/StoreService.java:239-275 | after a successful write, the file holds the ten-product array and the inventory is what the strict reader decodes from it |
| Store.LoadMissingFile | store-inventory-system/src/main/java/com/store/service/StoreService.java:454-458 | with no file the inventory is empty and no file changes |
| Store.SaveThenLoad | store-inventory-system/src/main/java/com/store/service/StoreService.java:403-459 | loading what a save of a non-empty inventory wrote gives the same inventory, and the load changes no file |
| Store.LastRemovalUndoneByLoad | store-inventory-system/src/main/java/com/store/service/StoreService.java:593-600 | because an empty inventory is never saved, the entry of the last save is back after removing it and reloading |
| Store.LoadRepairedFile | store-inventory-system/src/main/java/com/store/service/StoreService.java:403-441 | an array lacking types loads as the same entries as the unrepaired array would decode to; the repaired file stays on disk |
| Store.CorruptFileWithoutBackup | store-inventory-system/src/main/java/com/store/service/StoreService.java:527-584 | a file that is not JSON, with no backup, is replaced by the ten-product file, and its ten entries are loaded |
| Store.CorruptFileWithBackup | store-inventory-system/src/main/java/com/store/service/StoreService.java:527-584 | a file that is not JSON is recovered from a readable backup array, and the recovered entries are saved over it |
| Store.SaveAndCloseKeepsData | store-inventory-system/src/main/java/com/store/service/StoreService.java:651-681 | closing with an empty inventory never changes the file; closing with entries writes them |
| Store.FirstStartLoadsTenProducts | store-inventory-system/src/main/java/com/store/service/StoreService.java:76-116 | on a first start the ten-product file is created, and its ten entries are what the service starts with |
| Store.BuildProductNodes | store-inventory-system/src/main/java/com/store/service/StoreService.java:611-630 | the node array filled in the save loop is the encoding of the inventory |
| Store.DecodeItems | store-inventory-system/src/main/java/com/store/service/StoreService.java:415-441 | the load loop builds the defensive decoding of the array |
| Store.DecodeItemsStrictly | store-inventory-system/src/main/java/com/store/service/StoreService.java:250-274 | the strict loop gives the strict decoding, which fails as soon as one element fails |
| Store.FindMissingType | store-inventory-system/src/main/java/com/store/service/StoreService.java:479-485 | the search loop answers exactly whether some element lacks `type` |
| Store.BuildUpdatedItems | store-inventory-system/src/main/java/com/store/service/StoreService.java:496-509 | the repair loop builds the repaired array |
| Store.StoreService.constructor | store-inventory-system/src/main/java/com/store/service/StoreService.java:56-70 | the service starts with the state the file setup and then the load produce |
| Store.StoreService.SaveInventory | store-inventory-system/src/main/java/com/store/service/StoreService.java:589-645 | the inventory is kept, and the disk becomes the saved disk |
| Store.StoreService.FixInventoryFileFormat | store-inventory-system/src/main/java/com/store/service/StoreService.java:465-522 | the answer and the new disk are those of the repair function; the inventory is kept |
| Store.StoreService.CreateEmptyInventory | store-inventory-system/src/main/java/com/store/service/StoreService.java:239-282 | performs `CreateEmpty` |
| Store.StoreService.TryRestoreFromBackup | store-inventory-system/src/main/java/com/store/service/StoreService.java:527-584 | performs the backup recovery: decode and save the backup, or else `createEmptyInventory` |
| Store.StoreService.LoadInventory | store-inventory-system/src/main/java/com/store/service/StoreService.java:403-459 | performs `Load`: repair, then decode, then the recovery paths |
| Store.StoreService.CreateDefaultInventory | store-inventory-system/src/main/java/com/store/service/StoreService.java:288-314 | the inventory becomes the ten default entries, which are then saved |
| Store.StoreService.AddProduct | store-inventory-system/src/main/java/com/store/service/StoreService.java:320-323 | the entry is appended at the end with all earlier entries unchanged, then the inventory is saved |
| Store.StoreService.RemoveProduct | store-inventory-system/src/main/java/com/store/service/StoreService.java:329-338 | true exactly for an index in range, and then exactly that entry is removed, the order of the rest is kept, and the inventory is saved; otherwise false, and nothing changes |
| Store.StoreService.GetInventory | store-inventory-system/src/main/java/com/store/service/StoreService.java:344-346 | the snapshot equals the inventory |
| Store.StoreService.SaveAndCloseInventory | store-inventory-system/src/main/java/com/store/service/StoreService.java:651-681 | an empty inventory does not touch a file of more than 10 bytes (`File.length()`) holding a non-empty array; otherwise it saves |
| Store.StoreService.FindProductByName | store-inventory-system/src/main/java/com/store/service/StoreService.java:352-356 | found exactly when some entry's name matches ignoring case, and the result is the first matching entry of the inventory, as `findFirst` returns |
| Store.StoreService.GetTotalQuantity | store-inventory-system/src/main/java/com/store/service/StoreService.java:362-366 | the sum of the quantities wrapped to 32 bits |
| Store.StoreService.GetTotalGrossPrice | store-inventory-system/src/main/java/com/store/service/StoreService.java:372-377 | exactly Σ price×quantity |
| Store.StoreService.GetTotalPriceWithPerishableDiscount | store-inventory-system/src/main/java/com/store/service/StoreService.java:383-388 | exactly the sum of the entry values on `today` |
| Store.StoreService.GetTotalNetPriceWithDiscount | store-inventory-system/src/main/java/com/store/service/StoreService.java:394-398 | 85 % of the discounted total rounded HALF_UP, strictly below it once the total is at least 0.04 |
| FileManager.RepairBackupSuffix | store-inventory-system/src/main/java/com/store/util/InventoryFileManager.java:39-51 | a backup is taken exactly when a flag is set; ".missing-type.bak" when the missing-type flag is set (it takes precedence), else ".invalid-type.bak" |
| FileManager.FlagsExclusive | store-inventory-system/src/main/java/com/store/util/InventoryFileManager.java:39-43 | text with an invalid `"type":"product"` contains `"type":`, so the two flags are never both set |
| FileManager.ReplaceAllWithoutMatch | store-inventory-system/src/main/java/com/store/util/InventoryFileManager.java:59-67 | a rewrite whose pattern matches nowhere leaves the text unchanged |
| FileManager.ChangedHasReplacement | store-inventory-system/src/main/java/com/store/util/InventoryFileManager.java:59-67 | a rewrite that changed the text has put its replacement into it |
| FileManager.InsertionKeepsValidTypes | store-inventory-system/src/main/java/com/store/util/InventoryFileManager.java:56-61 | inserting the missing types never creates an invalid `"product"` type that was not there |
| FileManager.MissingTypeRepairIdempotent | store-inventory-system/src/main/java/com/store/util/InventoryFileManager.java:53-75 | on text lacking types, a second repair changes nothing, and a changed text sets neither flag again |
| FileManager.InvalidTypeRepairNotIdempotent | store-inventory-system/src/main/java/com/store/util/InventoryFileManager.java:64-69 | there is a text on which replacing the invalid type twice differs from replacing it once |
| FileManager.CountProducts | store-inventory-system/src/main/java/com/store/util/InventoryFileManager.java:332-339 | the loop counts the occurrences of `"name":` that start at index 1 or later |
| FileManager.CountMissesStart | store-inventory-system/src/main/java/com/store/util/InventoryFileManager.java:335 | an occurrence at index 0 is not counted |
| FileManager.BuiltInTextCount | store-inventory-system/src/main/java/com/store/util/InventoryFileManager.java:127-208 | an array text built from n entries whose values contain no `"name":` is counted as n products |
| FileManager.TemplateCount | store-inventory-system/src/main/java/com/store/util/InventoryFileManager.java:127-208 | the built-in template counts as 10 products |
| FileManager.MinimalInventoryCount | store-inventory-system/src/main/java/com/store/util/InventoryFileManager.java:228-236 | the minimal inventory counts as 1 product |
| FileManager.FixUserFile | store-inventory-system/src/main/java/com/store/util/InventoryFileManager.java:27-83 | a missing user file is left alone, and the repair never changes which paths fail to read or write |
| FileManager.FixLeavesCleanFile | store-inventory-system/src/main/java/com/store/util/InventoryFileManager.java:46-75 | text with neither flag set gets no backup and no write |
| FileManager.FixRepairsFile | store-inventory-system/src/main/java/com/store/util/InventoryFileManager.java:46-75 | when nothing throws, the file holds the repaired text and the backup under the chosen suffix holds the original |
| FileManager.FixUnreadableFile | store-inventory-system/src/main/java/com/store/util/InventoryFileManager.java:77-82 | a user file that cannot be read is replaced by the minimal inventory |
| FileManager.FixFailedBackupReplacesData | store-inventory-system/src/main/java/com/store/util/InventoryFileManager.java:46-82 | when the backup copy throws, the readable user file is replaced by the minimal inventory |
| FileManager.FixMissingTypeOnce | store-inventory-system/src/main/java/com/store/util/InventoryFileManager.java:27-83 | after a missing-type repair, running the repair again changes nothing |
| FileManager.EnsureTemplateDecision | store-inventory-system/src/main/java/com/store/util/InventoryFileManager.java:103-117 | the template is rewritten exactly when it is missing or readable with fewer than 10 counted products (and writable), and then it holds the built-in template |
| FileManager.EnsureTemplateReady | store-inventory-system/src/main/java/com/store/util/InventoryFileManager.java:103-117 | when it can be read and written, the template afterwards exists and counts at least 10 products |
| FileManager.EnsureTemplateIdempotent | store-inventory-system/src/main/java/com/store/util/InventoryFileManager.java:88-122 | checking the template twice is the same as checking it once |
| FileManager.EnsureTemplateFrame | store-inventory-system/src/main/java/com/store/util/InventoryFileManager.java:88-122 | the template check changes no other file |
| FileManager.RefreshDeclined | store-inventory-system/src/main/java/com/store/util/InventoryFileManager.java:271-284 | when the existing user file is not confirmed for overwriting, only the template check happens and the user file is unchanged |
| FileManager.RefreshBackupPathFresh | store-inventory-system/src/main/java/com/store/util/InventoryFileManager.java:288-289 | the timestamped backup never overwrites the user file itself |
| FileManager.RefreshCopiesTemplate | store-inventory-system/src/main/java/com/store/util/InventoryFileManager.java:286-315 | when confirmed and nothing throws, the user file equals the template, which counts at least 10 products, and an existing user file is first kept in the timestamped backup |
| FileManager.Backup | store-inventory-system/src/main/java/com/store/util/InventoryFileManager.java:344-358 | without a user file nothing changes |
| FileManager.BackupCopies | store-inventory-system/src/main/java/com/store/util/InventoryFileManager.java:350-354 | otherwise "inventory.json.bak" becomes a copy of the user file, and nothing else changes |
| FileManager.InventoryFileManager.constructor | store-inventory-system/src/main/java/com/store/util/InventoryFileManager.java:363-376 | fixes the user file and template paths the static methods resolve |
| FileManager.InventoryFileManager.FixUserInventoryFile | store-inventory-system/src/main/java/com/store/util/InventoryFileManager.java:27-83 | performs `FixUserFile` step by step |
| FileManager.InventoryFileManager.CreateMinimalValidInventory | store-inventory-system/src/main/java/com/store/util/InventoryFileManager.java:216-243 | writes the minimal inventory, or leaves the disk as it is when the write throws |
| FileManager.InventoryFileManager.EnsureFullTemplateExists | store-inventory-system/src/main/java/com/store/util/InventoryFileManager.java:88-122 | performs `EnsureTemplate` |
| FileManager.InventoryFileManager.CreateFullTemplate | store-inventory-system/src/main/java/com/store/util/InventoryFileManager.java:127-211 | writes the built-in template; the answer says whether the write went through |
| FileManager.InventoryFileManager.RefreshUserInventoryFromTemplate | store-inventory-system/src/main/java/com/store/util/InventoryFileManager.java:251-320 | performs `Refresh`: template check, confirmation, backup, copy |
| FileManager.InventoryFileManager.CreateInventoryBackup | store-inventory-system/src/main/java/com/store/util/InventoryFileManager.java:344-358 | performs `Backup` |
| Console.FormatProductDisplay | store-inventory-system/src/main/java/com/store/Main.java:178-184 | a line of at most 100 characters (Unicode scalar values) is unchanged; a longer one becomes exactly 100 characters, its first 97 followed by "..." |
| Console.FormatProductDisplayFits | store-inventory-system/src/main/java/com/store/Main.java:178-184 | every shown line fits in 100 characters, keeps the start of the input, and is shown the same when formatted again |
| Console.Accepted | store-inventory-system/src/main/java/com/store/Main.java:250-252 | a typed line is accepted exactly when its trimmed text parses as an `int` within [min, max], and the value is that `int` |
| Console.GetIntInput | store-inventory-system/src/main/java/com/store/Main.java:245-266 | the retry loop settles on what the prompt function gives for the typed lines |
| Console.IntInputInRange | store-inventory-system/src/main/java/com/store/Main.java:245-266 | when min ≤ max the value is always in [min, max], at most three lines are read, and the input runs out only with fewer than three lines |
| Console.IntInputFirstAccepted | store-inventory-system/src/main/java/com/store/Main.java:247-258 | the first accepted line among the first three decides, after reading exactly up to it |
| Console.IntInputRunsOut | store-inventory-system/src/main/java/com/store/Main.java:250 | input that ends within three lines, none of them accepted, makes the prompt fail |
| Console.IntInputGivesUp | store-inventory-system/src/main/java/com/store/Main.java:259-263 | three rejected lines give `min`, and nothing after them is read |
| Launcher.HeadlessNeedsLinux | store-inventory-system/src/main/java/com/store/AppLauncher.java:101-115 | without the headless property, the environment is headless only on Linux, and there exactly when DISPLAY is unset or blank |
| Launcher.ModeDecision | store-inventory-system/src/main/java/com/store/AppLauncher.java:66-96 | a console flag as the first argument chooses console mode and a GUI flag chooses GUI mode, whatever the environment; otherwise console mode is chosen exactly when headless or JavaFX is missing |
| Launcher.ModeIgnoresLaterArgs | store-inventory-system/src/main/java/com/store/AppLauncher.java:68-69 | only the lower-cased first argument matters |
| Launcher.ModeUpperCaseFlag | store-inventory-system/src/main/java/com/store/AppLauncher.java:69-73 | "--CONSOLE" selects console mode even with a display and JavaFX |
| Launcher.ModeOtherFirstArg | store-inventory-system/src/main/java/com/store/AppLauncher.java:81-92 | with any other first argument, a headless environment gives console mode |
| Launcher.ShouldRunInConsoleMode | store-inventory-system/src/main/java/com/store/AppLauncher.java:123-130 | true exactly when the lower-cased first argument is a console flag |
| Launcher.LegacyConsoleAgrees | store-inventory-system/src/main/java/com/store/AppLauncher.java:123-130 | the legacy check implies the mode decision, is false with no arguments, and they differ only where the environment chose console mode |
| Launcher.RequestedConcat | store-inventory-system/src/main/java/com/store/AppLauncher.java:135-144 | a flag is requested in a joined argument list exactly when it is requested in one of the parts |
| Launcher.ShouldResetInventory | store-inventory-system/src/main/java/com/store/AppLauncher.java:135-144 | the loop answers whether some argument, anywhere, equals a reset flag ignoring case |
| Launcher.ShouldForceRefresh | store-inventory-system/src/main/java/com/store/AppLauncher.java:146-153 | the loop answers whether some argument equals "--refresh" or "-r" ignoring case |
| Launcher.ResetAnywhere | store-inventory-system/src/main/java/com/store/AppLauncher.java:135-144 | "--RESET" in any position requests a reset, and refresh flags alone do not |
| Launcher.ParseVersion | store-inventory-system/src/main/java/com/store/util/JavaFxUtil.java:159-166 | `Integer.parseInt` on a version slice: its value, or a `NumberFormatException` |
| Launcher.MajorJavaVersion | store-inventory-system/src/main/java/com/store/util/JavaFxUtil.java:155-169 | "1." alone fails on `substring(2, 3)`, and that is the only index failure |
| Launcher.MajorVersionOfModern | store-inventory-system/src/main/java/com/store/util/JavaFxUtil.java:161-167 | a modern version gives the number before the first '.', or the whole number when there is no '.' |
| Launcher.MajorVersionOfLegacy | store-inventory-system/src/main/java/com/store/util/JavaFxUtil.java:157-159 | a "1." version gives only the digit at index 2, and fails when that is no digit |
| Launcher.MajorVersionOfJava8 | store-inventory-system/src/main/java/com/store/util/JavaFxUtil.java:157-159 | "1.8.0_292" gives 8 |
| Launcher.MajorVersionOfJava11 | store-inventory-system/src/main/java/com/store/util/JavaFxUtil.java:161-164 | "11.0.2" gives 11 |
| Launcher.MajorVersionOfJava21 | store-inventory-system/src/main/java/com/store/util/JavaFxUtil.java:165-166 | "21" gives 21 |
| Launcher.MajorVersionOfEarlyAccess | store-inventory-system/src/main/java/com/store/util/JavaFxUtil.java:165-166 | "17-ea" fails with a `NumberFormatException` |
| Launcher.MajorVersionTooShort | store-inventory-system/src/main/java/com/store/util/JavaFxUtil.java:159 | "1." fails on the substring |
| Launcher.VerifyJavaFxConfiguration | store-inventory-system/src/main/java/com/store/util/JavaFxUtil.java:114-142 | the early-return checks give what the configuration decision gives |
| Launcher.VerifyConfigurationOutcome | store-inventory-system/src/main/java/com/store/util/JavaFxUtil.java:122-141 | outside test mode: true exactly when JavaFX is present and the version parses below 11 or the module is present; an exception exactly when JavaFX is present and the version does not parse |
| Launcher.VerifyLegacyIgnoresModules | store-inventory-system/src/main/java/com/store/util/JavaFxUtil.java:114-142 | a "1.x" Java with JavaFX passes without the module check, and a "test" argument passes whatever the environment |

## Where the code and its description differ

The model follows the code in each case below.

- **Expiring tomorrow.** The test at `StoreServiceTest.java:62-68` expects 16.00 for 10.00 × 2 expiring tomorrow, described there as an extra 20 %. The code gives the 50 % of the 0–2-day band: 10.00 (`Products.PerishableTomorrowIsHalf`). The class comment at `PerishableProduct.java:64-67` speaks of 1–2 days, but the code's band also includes day 0.
- **Text repair is not always idempotent.** The repair is described as idempotent. The structural repair of the store is (`Store.FixFormatRepairs`, `Codec.FixItemsComplete`), and so is the text repair for missing types (`FileManager.MissingTypeRepairIdempotent`). The text repair for `"product"` types is not: on a text in which the replacement's closing quote joins with what follows into a new `"type":"product"`, a second run changes the text again (`FileManager.InvalidTypeRepairNotIdempotent`).
- **Empty saves.** The data-loss guard is described as refusing an empty save over a *non-empty* file. The code never writes an empty inventory, whatever the file holds. It takes its emergency copy only in that case, and only for files longer than 10 bytes (`Store.SaveEmptyKeepsFile`).
- **Invalid types in the store.** A legacy `type` value is described as rewritten by the store's repair. `StoreService` only adds missing types. Any other value is kept in the file and decodes as a plain product (`Codec.FixItemKeepsTyped`, `Codec.DecodeRecord`). Only `InventoryFileManager`'s text repair rewrites `"product"`.
- **Failed backup.** In `fixUserInventoryFile`, a backup copy that throws is caught by the handler that writes the minimal inventory. A readable user file is then replaced by one example product (`FileManager.FixFailedBackupReplacesData`).

## Left out

- Conversion from `double`: `BigDecimal.valueOf(double)` in the constructors and in `setPrice(double)`/`setDiscount(double)`, and `doubleValue()` in `saveInventory` and `asDouble`. These are floating point. Prices and discounts are taken as the exact decimals they denote, and the JSON tree keeps exact decimals.
- Products.Product.SetPrice: models the `BigDecimal` overload only; the `double` overload differs only by the conversion above.
- Products.Product.SetDiscount: models the `BigDecimal` overload only, for the same reason.
- Jackson: parsing JSON text, `readTree` and pretty-printing. The store sees a file as its parsed tree, or as "does not parse". Object field order is not modelled.
- The two views of a file are not connected: the JSON tree of `StoreService` and the text of `InventoryFileManager`. Nothing states that the repaired text parses to the repaired tree.
- Disk.Write: a write is atomic. A write that throws leaves the old content, so a file truncated half-way by `Files.writeString`, `Files.write` or `ObjectMapper.writeValue` is not modelled, nor is the failed `readTree` and backup restore that would follow it.
- Json.NumberText: a number with a fraction is written as plain decimal digits with trailing zeros dropped. `Double.toString`'s scientific form (for magnitudes of 10^7 and above or below 10^-3), its rounding to the nearest `double`, and the text "-0.0" are not modelled.
- The NaN/Infinity number forms and the exponent or hexadecimal syntaxes of `Double.parseDouble`: only plain decimal text is parsed.
- Catalog entries are values: aliasing between a `Product` object held in the list and one held by a caller is not modelled. The `Product` and `PerishableProduct` classes model the setters on one object.
- Calls into the environment are not modelled:
  - `Files.createDirectories` and directory existence;
  - `Files.size`, which is only printed;
  - the `countProducts` call in the refresh, which only prints.
- `LocalDate.now()`, `System.currentTimeMillis()`, `user.home`, `user.dir`, `os.name`, `DISPLAY` and `java.awt.headless` are parameters.
- Exceptions the code does not catch are not modelled: a `NullPointerException` from a `get` of a missing field in the strict reader counts as that reader failing, and `null` arguments and list elements are left out.
- FileManager.Refresh: when the template is missing and cannot be written, the source's fallback to the minimal inventory is unreachable, because `createFullTemplate` throws before it. The model therefore ends the refresh there.
- Closing `System.in` by the `Scanner` of the refresh is not modelled. The answer to the overwrite question is a parameter.
- Console.FormatProductDisplay: the 100-character test and the 97-character cut count Unicode scalar values, not the UTF-16 code units of `String.length` and `substring`. A line with characters outside the Basic Multilingual Plane is therefore cut later than in Java, and a surrogate pair is never split, since a Dafny `char` cannot hold a lone surrogate.
- Case conversion and digits are ASCII only; `toLowerCase` and `trim` on other Unicode characters are not modelled.
- JavaFX detection and environment setup are not modelled: `detectJavaFxRuntime`, `configureJavaFxEnvironment`, the cached `javaFxAvailable` field and the class-loading check. Their results are parameters.
- The GUI classes, the console menus, `getStringInput`, `getDoubleInput` (floating point) and `getDateInput` (clock) are not modelled.
- The singleton `getInstance`, the shutdown hook, the `switchToConsoleMode` flag, `toString` formatting and all printing are not modelled.
