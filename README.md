# hymnal-csv-export, modelled in Dafny

The exporter reads the usage data of the MSDAC Systems Hymnal Browser and writes a CSV file with
one line per hymn: `id,queries,launches,lastAccessed`. The data comes in one of two shapes:

- a MongoDB extended-JSON export, where every hymn maps to three wrapper objects (`$numberInt`
  counts and a `$numberDouble` epoch time in seconds);
- the browser's own raw export, where every hymn maps to three plain numbers.

This project models the two core functions and proves what they promise:

- `getMappedData` turns either shape into `HymnData` records.
- `dumpToCSV` optionally sorts the records by id in place, then renders the CSV text.

Modules:

- `Wrappers`: the `Option` type. `None` stands for a JavaScript `TypeError`, and for `NaN`
  out of `parseInt`.
- `Types`: the input and output shapes. A `Datum` is either a wrapper object (`Obj`) or a
  number (`Num`). A `HymnData` is the output record. An `Entry` is one key of the input object
  with its array.
- `Text`: `IndexOf`, `Join` (`Array.prototype.join` with a one-character separator) and `Split`.
  `Split` is its inverse, used to state what the written text contains.
- `JsRuntime`: the JavaScript built-ins the exporter relies on, written out:
  - `parseInt` without a radix. It trims the ECMAScript white space, reads an optional sign and
    a `0x`/`0X` prefix, then the longest digit run; no digits gives `NaN`.
  - `Number.prototype.toString` on integers.
  - `String.prototype.replace(",", "")`, which removes only the first comma.
- `Mapper`: the mapping callback and `getMappedData`.
  - An array whose elements are all objects goes through the wrapper decoder.
  - Any other array goes through the plain decoder. An object among numbers therefore renders
    as `[object Object]`, and as `Invalid Date` in the date position.
  - Arrays too short for the decoder they reach make the callback throw, so the whole call
    fails (`None`).
- `IdOrder`: the id order and the stable sort as a function on sequences. The sort is an
  insertion from the right.
- `CsvWriter`: the row and file text, the in-place sort of the caller's array (a method over an
  `array`), and `dumpToCSV`.

Differences between the project's own description and its code, where the model follows the code:

- The description calls the wrapper counts "decimal-digit strings". The code keeps the
  `$numberInt` text verbatim whenever `parseInt` reads it as a positive number.
  - So `"007"`, `" 5"` and `"5abc"` all reach the CSV unchanged.
  - `Mapper.WrappedCountVerbatim` proves this for any leading white space, any run of leading
    zeros and any text after the digits that does not start with a digit.
- The description gives the wrapper input a fixed length of three. The code only reads positions
  0 to 2 and throws when they are missing. `Mapper.Decodable` states exactly which arrays the
  callback accepts.

## Model

| member | source | states |
|---|---|---|
| JsRuntime.TrimStart | src/exporter.ts:31 | parseInt skips a run of leading JavaScript white space: the result is a suffix, everything dropped is white space, and it does not start with white space |
| JsRuntime.RadixPrefix | src/exporter.ts:31 | parseInt reads the longest prefix of digits of its radix: a prefix, all digits, and followed by a non-digit or the end |
| JsRuntime.ParseIntUnsigned | src/exporter.ts:31 | on text starting with a decimal digit and not with `0x` or `0X`, parseInt is the value of the leading digit run (so `"5x"` reads as 5) |
| JsRuntime.ParseIntAfterSpaces | src/exporter.ts:31 | leading white space does not change what parseInt reads |
| JsRuntime.NatToDecimal | src/exporter.ts:52-53 | toString of a non-negative integer is a non-empty run of decimal digits with no leading zero |
| JsRuntime.IntToDecimal | src/exporter.ts:52-53 | toString of an integer is never empty |
| JsRuntime.NatToDecimalValue | src/exporter.ts:52-53 | the decimal digits rendered for n have the value n |
| JsRuntime.ParseIntOfDecimal | src/exporter.ts:31 | parseInt inverts toString on every integer, zero and negatives included |
| JsRuntime.DecimalParsesPositive | src/exporter.ts:31 | `parseInt(x.toString()) > 0` holds exactly when x > 0 |
| JsRuntime.RemoveFirstComma | src/exporter.ts:37 | `replace(",", "")` shortens a text holding a comma by exactly one character, and returns a text without a comma unchanged |
| JsRuntime.RemoveFirstCommaCounts | src/exporter.ts:37 | exactly one comma is taken out and every other character is kept |
| JsRuntime.RemoveFirstCommaSplice | src/exporter.ts:55 | the comma removed is the first: a comma-free head is joined to everything after the comma, later commas included |
| JsRuntime.RemoveFirstCommaSingle | src/exporter.ts:55 | a date text with at most one comma has none left |
| Mapper.WrappedCount | src/exporter.ts:30-33 | a wrapper count is the `$numberInt` text itself whenever parseInt reads that text as positive, and empty otherwise |
| Mapper.WrappedCountKeepsPositive | src/exporter.ts:30-31 | a `$numberInt` holding a positive decimal is kept as it is |
| Mapper.WrappedCountDropsNonPositive | src/exporter.ts:30-31 | a `$numberInt` holding zero or a negative decimal becomes empty |
| Mapper.WrappedCountVerbatim | src/exporter.ts:30-31 | the kept text is the original: leading white space, any run of leading zeros and trailing non-digit text stay |
| Mapper.ParseIntPadded | src/exporter.ts:31 | parseInt reads a positive decimal after leading zeros and before a non-digit as that number |
| Mapper.RadixValueLeadingZeros | src/exporter.ts:31 | leading zeros do not change the value of a decimal digit run |
| Mapper.PlainCountRoundTrip | src/exporter.ts:52-53 | the plain decoder renders every number, zero and negatives included, as a non-empty text that parseInt reads back as that number |
| Mapper.CountSuppressionDiffers | src/exporter.ts:29-53 | the two decoders give the same count text exactly when the count is positive |
| Mapper.WrappedTimestampEmptyIff | src/exporter.ts:34-38 | the wrapper date is empty exactly when `$numberDouble` is absent or empty, given a formatter that yields real date text |
| Mapper.PlainTimestampEmptyIff | src/exporter.ts:54-56 | the plain date is empty exactly when the number of seconds is 0, given the same formatter condition |
| Mapper.TimestampCommaFree | src/exporter.ts:34-38 | a formatted date with at most one comma reaches the record with none |
| Mapper.MapHymn | src/exporter.ts:26-58 | the callback succeeds exactly on the arrays its decoder can read, and the record carries the key as its id |
| Mapper.PlainHymn | src/exporter.ts:48-57 | an all-number array gives counts that parseInt reads back exactly, and an empty date for 0 |
| Mapper.PlainZeros | src/exporter.ts:48-57 | the plain array [0, 0, 0] gives "0", "0" and an empty date |
| Mapper.WrapperHymn | src/exporter.ts:29-46 | an all-object array gives counts that are empty or the verbatim positive `$numberInt` text, and an empty date without `$numberDouble` |
| Mapper.MixedHymn | src/exporter.ts:29-53 | one number anywhere sends the array to the plain decoder, so a wrapper object count renders as "[object Object]" |
| Mapper.GetMappedData | src/exporter.ts:25-59 | succeeds exactly when every array is decodable; then one record per key, in key order, each with its key as id and decoded from its own array alone |
| Mapper.MappedIdsDistinct | src/exporter.ts:26-45 | distinct keys give records with distinct ids |
| IdOrder.IdLeReflexive | src/exporter.ts:70 | the id order is reflexive |
| IdOrder.IdLeTotal | src/exporter.ts:70 | any two ids are comparable |
| IdOrder.IdLeAntisymmetric | src/exporter.ts:70 | ids ordered both ways are equal |
| IdOrder.IdLeTransitive | src/exporter.ts:70 | the id order is transitive |
| IdOrder.InsertByIdPermutes | src/exporter.ts:70 | inserting adds exactly the new record to the multiset of records |
| IdOrder.StableSortByIdPermutes | src/exporter.ts:70 | the sort is a permutation of its input |
| IdOrder.InsertByIdSorted | src/exporter.ts:70 | inserting into a sorted sequence keeps it sorted |
| IdOrder.StableSortByIdSorted | src/exporter.ts:70 | the sort yields ascending ids |
| IdOrder.InsertByIdStable | src/exporter.ts:70 | inserting keeps, for every id, the records with that id in order, with the new one last |
| IdOrder.StableSortByIdStable | src/exporter.ts:70 | the sort is stable: for every id, the records with that id keep their relative order |
| IdOrder.StableSortByIdOfSorted | src/exporter.ts:70 | sorting sorted records changes nothing, so sorting twice equals sorting once |
| IdOrder.SortedByIdUnique | src/exporter.ts:70 | two sorted sequences holding, for every id, the same records in the same order are equal |
| IdOrder.StableSortByIdUnique | src/exporter.ts:70 | the sort's result is the only sequence that is sorted by id and keeps each id's records in input order, so every stable ascending sort gives it |
| IdOrder.InsertByIdAt | src/exporter.ts:70 | the insertion lands after every record whose id is not greater, before the run of greater ones |
| Text.SplitJoin | src/exporter.ts:73-77 | joining parts that lack the separator can be split back into those parts |
| Text.JoinSplit | src/exporter.ts:73-77 | splitting and joining again gives the text back |
| Text.JoinFree | src/exporter.ts:77 | joining parts that lack a character, with another separator, gives a text without that character |
| CsvWriter.RowTexts | src/exporter.ts:73-76 | one line per record, in record order, each that record's row |
| CsvWriter.RowTextFields | src/exporter.ts:75 | a row is its four fields joined by commas in column order |
| CsvWriter.ParseRowText | src/exporter.ts:75 | a row whose fields hold no comma or newline splits back into its record |
| CsvWriter.ParseRowTexts | src/exporter.ts:73-77 | the rows of comma- and newline-free records read back as those records |
| CsvWriter.HeaderLineText | src/exporter.ts:80 | the header line is `id,queries,launches,lastAccessed` |
| CsvWriter.HeaderLineFree | src/exporter.ts:80 | the header line holds no newline |
| CsvWriter.RowTextFree | src/exporter.ts:75 | the row of a newline-free record holds no newline |
| CsvWriter.EmptyCsv | src/exporter.ts:73-81 | no records give the header line and its newline only |
| CsvWriter.CsvLines | src/exporter.ts:73-81 | when no field holds a newline (commas allowed), the text is the header line and then exactly one line per record, in order |
| CsvWriter.CsvRoundTrip | src/exporter.ts:73-81 | reading the text back gives the records, when no field holds a comma or a newline |
| CsvWriter.NoTrailingNewline | src/exporter.ts:73-81 | with records, the text ends with the last record's row, and (when its date holds no newline) with no newline after it |
| CsvWriter.JoinEndsWith | src/exporter.ts:77 | a joined text ends with its last part |
| CsvWriter.SortInPlace | src/exporter.ts:69-71 | the sort of the array in place leaves exactly the stable sort by id of its old contents |
| CsvWriter.InsertNext | src/exporter.ts:70 | one step of the in-place sort inserts the next record into the sorted prefix and leaves the rest alone |
| CsvWriter.SortedPrefixGrows | src/exporter.ts:70 | sorting one more record of the prefix is inserting it into the sorted shorter prefix |
| CsvWriter.DumpToCsv | src/exporter.ts:67-82 | with sort: the caller's array becomes ascending by id, a permutation, stable for every id; without sort: untouched; the text written is the CSV of the array as it then is |

## Left out

- The command-line program (src/exporter.ts:84-143) is not modelled: option parsing, the file
  existence check, `JSON.parse`, the `PACKAGE`/`DATA` key checks and the exits with status 1.
- `fs.writeFileSync` is not modelled: `CsvWriter.DumpToCsv` returns the text it would write.
- Date formatting is a parameter (`Mapper.DateLocale`), because `new Date(...).toLocaleString()`
  depends on the host's locale and time zone. The model does not model `parseFloat`, the
  multiplication by 1000 or the calendar. It keeps the `replace(",", "")` that follows, and the
  "Invalid Date" text of a date built from `NaN`.
- IdOrder.IdLe: `localeCompare` is replaced by the lexicographic order on character codes. The
  host's collation is not available. The sort's properties (ascending, permutation, stable) are
  proved for this total order.
- IdOrder.IdLe: Dafny characters are Unicode scalar values, not UTF-16 code units, so ids
  outside the Basic Multilingual Plane compare differently from the JavaScript code-unit order.
- CsvWriter.SortInPlace: `Array.prototype.sort`'s actual algorithm is not modelled; an
  insertion sort stands in for it. `IdOrder.StableSortByIdUnique` proves that only one
  sequence is sorted by id and keeps each id's records in input order, so any stable ascending
  sort under this order ends in the same array.
- Types.Datum: a JSON number is modelled as a mathematical integer. The model does not cover:
  - non-integer numbers;
  - `NaN`;
  - `-0`;
  - the exponent notation `toString` uses from 1e21 on;
  - floating-point rounding.
- Types.Datum: array elements other than numbers and objects are not modelled. Strings,
  booleans, `null` and nested arrays would each need their own `typeof`, `toString` and
  truthiness.
- The model does not capture property ordering. It takes the input object as a sequence of
  (key, array) pairs already in `Object.keys` order.
- Mapper.WrappedTimestampEmptyIff and Mapper.PlainTimestampEmptyIff: both assume the formatter
  returns a text of at least two characters. Otherwise a formatted text of "," alone would
  become empty, which no real date rendering produces.
