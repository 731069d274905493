# SpreadsheetTranslator facade — a Dafny model

The facade `SpreadsheetTranslator` is built with a configuration registry: an
insertion-ordered PHP array from book name to that book's settings
(provider, exporter, shared). For either entry point, `processSheet($sheetName, $bookName)` or
`processBook($bookName)`, it does the same three steps:

1. **resolve** the book name. An empty name falls back to the first key in
   insertion order; an empty registry throws "No configuration available"; a
   non-empty name that is not set throws `Configuration for book "<name>" not found`;
2. **wrap** the registry down to the one-entry array `[book => settings]`;
3. **delegate** the wrapped array to a new `SheetProcessor` or `BookProcessor`.

The model keeps all three steps as pure functions over immutable values:

- `wrappers.dfy`: `Option` (None is PHP null) and `Result` (a value or the thrown exception).
- `php.dfy`: the two pieces of PHP behaviour the facade relies on. `empty()` on a
  string is true for `""` and `"0"`. A string array key that reads as a
  canonical decimal integer within the 64-bit range (`"0"`, `"2024"`,
  `"-7"`, but not `"-0"`, `"01"` or `"9223372036854775808"`) is stored as an integer key.
  The integer-like keys are exactly the canonical spellings of the integers from -2^63 to 2^63 - 1.
- `configuration.dfy`: the registry as a sequence of `Entry(book, config)`
  pairs with distinct keys. Each value is an `Option<BookConfig>`, where None is null.
  `HasBook` states key presence (what `array_key_exists` tests), `IsSet` states what `isset` tests,
  and `Get` specifies the reads of `$configuration[$bookName]` at lines 81 and 97.
- `translator.dfy`: `ResolveBookName`, `WrapConfigurationForProcessor`,
  `ProcessSheet` and `ProcessBook`. `ResolveBookName`, `ProcessSheet` and `ProcessBook`
  are specified against the reference predicates `Selects` (which book a request picks),
  `Refuses` (which exception it throws) and `HandsOver` (what a processor receives).
  `WrapConfigurationForProcessor` states its one entry directly against the stored entries.
- `properties.dfy`: lemmas that relate several calls, plus the PHP edge cases.

Three consequences of the code as written, each proved:

- `src/Atico/SpreadsheetTranslator/Core/SpreadsheetTranslator.php` declares strict types (line 3).
  The fallback `return $keys[0]` (line 78) therefore throws a `TypeError` when the first key is
  integer-like, because PHP stored that key as an int and the method is declared to return a string.
  The model's error for this is `ReturnTypeError`.
- A book keyed `"0"` is never resolved. The name `"0"` counts as empty, and the key `"0"` is an integer key.
- Resolution is idempotent except in one case: a fallback onto a first book whose value is null.
  That book resolves once, but resolving its name again fails, because `isset` is false for null.

The registry is a value, and no operation returns a changed one. So the facade's read-only
configuration (lines 28-30) holds by construction. `WrapConfigurationForProcessor` states
that the handed-over settings are the stored ones, unmodified.

## Model

| member | source | states |
|---|---|---|
| Configuration.IndexOf | src/Atico/SpreadsheetTranslator/Core/SpreadsheetTranslator.php:81 | the lookup finds the first entry carrying the key, or reports that no entry carries it |
| Configuration.Get | src/Atico/SpreadsheetTranslator/Core/SpreadsheetTranslator.php:97 | reading `$configuration[$book]` yields a value exactly when the key is present, and that value is the one stored under the key |
| Php.IntegerKeyRoundTrip | src/Atico/SpreadsheetTranslator/Core/SpreadsheetTranslator.php:74-78 | every key PHP stores as an integer is the canonical decimal spelling of a 64-bit integer, so modelling keys as strings loses nothing |
| Php.DecimalStringIsIntegerKey | src/Atico/SpreadsheetTranslator/Core/SpreadsheetTranslator.php:74-78 | conversely, the canonical spelling of every 64-bit integer is stored as an integer key of that value |
| Php.IntegerKeyBoundaries | src/Atico/SpreadsheetTranslator/Core/SpreadsheetTranslator.php:78 | `"0"`, `"-7"`, `"9223372036854775807"` and `"-9223372036854775808"` become integer keys; `"-0"`, `"01"`, `""`, `"9223372036854775808"` and `"-9223372036854775809"` stay strings |
| Translator.ResolveBookName | src/Atico/SpreadsheetTranslator/Core/SpreadsheetTranslator.php:71-86 | a success names the book the reference rule selects; a failure carries the exception the reference rule prescribes |
| Translator.WrapConfigurationForProcessor | src/Atico/SpreadsheetTranslator/Core/SpreadsheetTranslator.php:95-98 | the wrapped array has exactly one key, the given book, mapped to that book's stored settings unmodified (null when absent) |
| Translator.ProcessSheet | src/Atico/SpreadsheetTranslator/Core/SpreadsheetTranslator.php:40-47 | either the resolution exception is thrown, or the sheet processor is built on the selected book alone with its stored settings and runs the requested sheet |
| Translator.ProcessBook | src/Atico/SpreadsheetTranslator/Core/SpreadsheetTranslator.php:55-62 | either the resolution exception is thrown, or the book processor is built on the selected book alone with its stored settings |
| TranslatorProperties.ResolveMatchesReference | src/Atico/SpreadsheetTranslator/Core/SpreadsheetTranslator.php:71-86 | resolution succeeds with a book if and only if the reference rule selects that book |
| TranslatorProperties.ResolveRefusesReference | src/Atico/SpreadsheetTranslator/Core/SpreadsheetTranslator.php:71-86 | resolution fails with an error if and only if the reference rule prescribes that error |
| TranslatorProperties.EmptyNameSelectsFirstBook | src/Atico/SpreadsheetTranslator/Core/SpreadsheetTranslator.php:73-78 | an empty name (`""` or `"0"`) picks the first book in insertion order when its key stays a string |
| TranslatorProperties.IntegerFirstBookBreaksFallback | src/Atico/SpreadsheetTranslator/Core/SpreadsheetTranslator.php:71-78 | an empty name throws a TypeError when the first key is integer-like |
| TranslatorProperties.EmptyRegistryFails | src/Atico/SpreadsheetTranslator/Core/SpreadsheetTranslator.php:74-77 | an empty name against an empty registry throws "No configuration available" |
| TranslatorProperties.UnknownBookFails | src/Atico/SpreadsheetTranslator/Core/SpreadsheetTranslator.php:81-83 | a non-empty name that is absent, or stored with a null value, throws `Configuration for book "<name>" not found` |
| TranslatorProperties.PresentBookResolvesToItself | src/Atico/SpreadsheetTranslator/Core/SpreadsheetTranslator.php:81-85 | a non-empty name stored with a non-null value resolves to itself unchanged |
| TranslatorProperties.ResolvedBookIsRegistered | src/Atico/SpreadsheetTranslator/Core/SpreadsheetTranslator.php:71-86 | every resolved name is a key of the registry |
| TranslatorProperties.ResolveIdempotent | src/Atico/SpreadsheetTranslator/Core/SpreadsheetTranslator.php:71-86 | resolving a resolved name again returns it if and only if it is the empty key or its value is set; after a non-empty request it always does |
| TranslatorProperties.NullFirstBookIsNotIdempotent | src/Atico/SpreadsheetTranslator/Core/SpreadsheetTranslator.php:73-83 | a fallback onto a null first book succeeds, while naming that book fails |
| TranslatorProperties.BookZeroNeverResolves | src/Atico/SpreadsheetTranslator/Core/SpreadsheetTranslator.php:73-85 | no request ever resolves to the book `"0"` |
| TranslatorProperties.TwoBookExample | src/Atico/SpreadsheetTranslator/Core/SpreadsheetTranslator.php:71-86 | with books `a` then `b`, no name gives `a`, `b` gives `b`, and `c` is not found |
| TranslatorProperties.NumericFirstBookExample | src/Atico/SpreadsheetTranslator/Core/SpreadsheetTranslator.php:71-85 | a first book `"2024"` is reachable by name but the fallback onto it throws a TypeError |
| TranslatorProperties.WrappedRegistryResolvesToSameBook | src/Atico/SpreadsheetTranslator/Core/SpreadsheetTranslator.php:88-98 | the wrapped array is itself a well-formed registry in which the resolved book is selected again |
| TranslatorProperties.SheetAndBookResolveAlike | src/Atico/SpreadsheetTranslator/Core/SpreadsheetTranslator.php:40-62 | both entry points fail with the same exception, or hand their processor the same wrapped array |
| TranslatorProperties.NoProcessorOnResolutionError | src/Atico/SpreadsheetTranslator/Core/SpreadsheetTranslator.php:40-62 | no processor is built exactly when resolution throws |
| TranslatorProperties.MessageInjective | src/Atico/SpreadsheetTranslator/Core/SpreadsheetTranslator.php:76-82 | different exceptions carry different messages, so a message identifies its error and the book it names |

## Left out

- SheetProcessor and BookProcessor internals: their source is not part of this model. A run is
  recorded as the call made to the processor (`SheetProcessorRun`, `BookProcessorRun`), and any
  exception a processor throws is not modelled.
- The Google Drive provider, the YAML exporter and the console command are not part of this model.
  They are I/O and CLI plumbing around the facade.
- Registry values that are neither null nor book settings (for example `false` or a string) are not modelled.
  Every non-null value is a `BookConfig`, and the facade never inspects it.
- The PHP warning raised by reading an absent key in `wrapConfigurationForProcessor` is not modelled,
  only the resulting null. The facade calls that method only with resolved names.
- Integer-key normalisation assumes a 64-bit PHP build (`PHP_INT_MAX` = 2^63 - 1).
