# Dynamic settings registry and helpers of laravel-orchid, in Dafny

This project models the settings registry of the Laravel/Orchid admin
application and the pure helpers around it, and proves what they promise.

- **The settings screen** (`SettingScreen`, `SettingScreenLaws`). The screen
  is a class holding the settings table and the attachment store. Its five
  actions are methods: `store`, `update`, `save`, `delete` and `upDown`.
  `delete` and the layout's move buttons are the corrected versions of the
  two defects listed under Findings.
  Each method is proved against a function that gives the outcome and the
  tables afterwards. The laws module proves what the actions promise:
  - when an action writes and when it leaves everything unchanged;
  - which rows and columns an action changes, and that nothing else changes;
  - positions stay distinct, and a group's multiset of positions is kept;
  - moving a setting up and then down restores the table;
  - the layout's up/down buttons match the moves that succeed.
- **The Setting model** (`SettingModel`):
  - the attachment query a setting derives from its value;
  - the `deleting` cascade over the attachment store, corrected so that a setting without attachments is deleted instead of raising (the code as written is modelled beside it);
  - `field()`: resolving the option matrix into a parameter map, and decoding the value.
- **The `setting()` accessor** (`SettingAccessor`), corrected in the same way: how the rest of the
  application reads a setting back.
- **Helpers** from `app/Support/helpers.php`:
  - `narrator`, `nasab`, `array_to_string`, `clean_text` and the date-format selection of `readable_datetime` (`TextHelpers`);
  - `number_to_roman` and `number_to_alpha` (`Numerals`);
  - `method_from_doc_code` (`DocCode`).
- **Two small projections**:
  - the `onlyAttr` collection macro (`CollectionMacros`);
  - the file-name rank of `ResourceSortingByFilename` (`ResourceSorting`).

Support modules:
- `Wrappers` holds `Option`.
- `StringOps` models PHP's `explode`, `implode`, `str_replace`, a first-match-only `preg_replace`, `trim` and `Str::contains`.
- `Json` holds a JSON value type and the codec.

Modelling choices:
- **JSON codec.** `json_encode`/`json_decode` are a pair of total functions passed in as a parameter.
  - Lemmas that need a round trip assume the codec is lawful (`decode(encode(j)) == j`).
  - Decoding never fails: malformed text decodes to whatever the decoder returns.
- **File-type fields.** The set of file-type field names is a parameter.
- **Database tables.** The settings table is a map from primary key to row. The attachment store is a set of ids.
- **Exceptions.** A PHP warning becomes an exception under Laravel (an undefined index, a property read on null, an `->get()` without arguments). The model shows it as a `None` or `Aborted` outcome that writes nothing.
- **Loose equality in `save()`.** PHP's loose `!=` is a parameter `same`.

## Model

| member | source | states |
|---|---|---|
| SettingScreen.Screen.Store | app/Orchid/Screens/SettingScreen.php:292-309 | the new tables and outcome are those of `Stored` on the old tables |
| SettingScreen.Screen.Update | app/Orchid/Screens/SettingScreen.php:221-245 | the new tables and outcome are those of `Updated` on the old tables |
| SettingScreen.Screen.Save | app/Orchid/Screens/SettingScreen.php:259-290 | the new tables and outcome are those of `Saved` on the old tables |
| SettingScreen.Screen.Delete | app/Orchid/Screens/SettingScreen.php:247-257 | corrected delete: removing the attachments one by one, then the row, gives exactly the tables of `Deleted`, whose attachment lookup treats the empty collection as no attachments instead of raising |
| SettingScreen.Screen.UpDown | app/Orchid/Screens/SettingScreen.php:192-219 | fails with nothing written when the key or a neighbour is missing; otherwise swaps positions with one nearest same-group neighbour and changes nothing else |
| SettingScreen.NextPosition | app/Orchid/Screens/SettingScreen.php:303 | max(position)+1 is above every position; it is 1 on an empty table, and otherwise one more than some row's position |
| SettingScreen.Candidates | app/Orchid/Screens/SettingScreen.php:200-205 | `->first()` picks from same-group settings strictly beyond the clicked one; the clicked setting is never among them |
| SettingScreenLaws.StoredOutcome | app/Orchid/Screens/SettingScreen.php:294-306 | store fails validation exactly when key, name, group or type is missing or blank; it succeeds exactly when valid with a new key; any other outcome writes nothing |
| SettingScreenLaws.StoredAppends | app/Orchid/Screens/SettingScreen.php:301-306 | a successful store adds exactly the new key, places it after every position (1 on an empty table), takes type, name and group from the form, and leaves other rows and attachments unchanged |
| SettingScreenLaws.StoredOptionsDefault | app/Orchid/Screens/SettingScreen.php:302 | missing or null options are stored as the encoded empty list |
| SettingScreenLaws.StoredKeepsDistinct | app/Orchid/Screens/SettingScreen.php:303 | store never makes two settings share a position |
| SettingScreenLaws.InsertKeepsDistinct | app/Orchid/Screens/SettingScreen.php:303-306 | inserting a row above every position keeps positions distinct |
| SettingScreenLaws.StoreThenDelete | app/Orchid/Screens/SettingScreen.php:247-257 | deleting a non-file setting just stored gives back the original tables |
| SettingScreenLaws.StoreThenDeleteAsWritten | app/Models/Setting.php:63-72 | as written, deleting that same setting aborts: a stored non-file setting cannot be deleted |
| SettingScreenLaws.UpdatedOutcome | app/Orchid/Screens/SettingScreen.php:221-245 | update fails validation exactly when a required field is missing or blank; it answers not-found exactly for an unknown old key; it succeeds exactly when options are sent and the new key is free or unchanged; any other outcome writes nothing |
| SettingScreenLaws.UpdatedRenames | app/Orchid/Screens/SettingScreen.php:231-239 | after update the row lives under the new key only; sent columns are overwritten and unsent ones kept; other rows and attachments are unchanged; under a lawful codec the stored options decode to what was sent |
| SettingScreenLaws.RenameKeepsDistinct | app/Orchid/Screens/SettingScreen.php:237-239 | moving a row to a free key at the same position keeps positions distinct |
| SettingScreenLaws.UpdatedKeepsDistinct | app/Orchid/Screens/SettingScreen.php:237-239 | an update that sends no position keeps positions distinct |
| SettingScreenLaws.SavedOutcome | app/Orchid/Screens/SettingScreen.php:261-289 | save answers not-found exactly for an unknown key; it aborts exactly when the request has no entry for the key; otherwise it succeeds; a failed save writes nothing |
| SettingScreenLaws.SavedTouchesOnlyValue | app/Orchid/Screens/SettingScreen.php:265-283 | save changes at most the clicked setting's value and is_array_value |
| SettingScreenLaws.SavedReadsBack | app/Orchid/Screens/SettingScreen.php:272-281 | a written value reads back through setting() as the submitted text, as null, or as the submitted array (under a lawful codec) |
| SettingScreenLaws.SaveSameTextKeeps | app/Orchid/Screens/SettingScreen.php:268-273 | resubmitting a plain setting's own text writes nothing |
| SettingScreenLaws.SaveArrayOverEncodedText | app/Orchid/Screens/SettingScreen.php:268-273 | an array submitted over a plain setting whose old text encodes that array is compared decoded and not written |
| SettingScreenLaws.DeletedRemoves | app/Orchid/Screens/SettingScreen.php:247-257 | delete of an unknown key writes nothing; otherwise exactly the row and the attachments it names go; a non-file setting leaves the attachments unchanged |
| SettingScreenLaws.DeletedAsWrittenAborts | app/Models/Setting.php:63-72 | as written, delete aborts for every non-file or empty-valued setting, where the corrected delete succeeds; for the others the two agree |
| SettingScreenLaws.CandidateUnique | app/Orchid/Screens/SettingScreen.php:200-205 | with distinct positions there is at most one nearest neighbour |
| SettingScreenLaws.CandidatesIffNeighbours | app/Orchid/Screens/SettingScreen.php:200-205 | a nearest neighbour exists exactly when some same-group setting lies in that direction |
| SettingScreenLaws.SwapExchanges | app/Orchid/Screens/SettingScreen.php:207-211 | the swap exchanges the two positions and changes no other column or row |
| SettingScreenLaws.SwapTwice | app/Orchid/Screens/SettingScreen.php:207-211 | swapping the same pair twice restores the table |
| SettingScreenLaws.SwapKeepsDistinct | app/Orchid/Screens/SettingScreen.php:207-211 | the swap keeps positions distinct and keeps the set of positions |
| SettingScreenLaws.SwapKeepsGroupPositions | app/Orchid/Screens/SettingScreen.php:200-211 | for every group and position, the number of settings there is unchanged: each group's multiset of positions is kept |
| SettingScreenLaws.UpDownReverts | app/Orchid/Screens/SettingScreen.php:197-211 | after a move, the only nearest neighbour the other way is the one just swapped with, and swapping back restores the table |
| SettingScreenLaws.GroupSplitsAround | app/Orchid/Screens/SettingScreen.php:89-92 | with distinct positions a group is the setting, the settings above it and those below it |
| SettingScreenLaws.RowControlsShowMoves | app/Orchid/Screens/SettingScreen.php:136-143 | in the corrected layout, row i of n has an up button exactly when i > 0 and a down button exactly when i < n-1 |
| SettingScreenLaws.ButtonsMatchMoves | app/Orchid/Screens/SettingScreen.php:91-143 | with distinct positions, the corrected layout shows a move button exactly when that move succeeds |
| SettingScreenLaws.LoneRowDownFails | app/Orchid/Screens/SettingScreen.php:136-138 | as written, a group's only row gets a down button whose move always fails; the corrected layout gives it none |
| SettingScreenLaws.RulesBetweenRows | app/Orchid/Screens/SettingScreen.php:157-162 | the first count rows of a group of n carry one separator per row except the last row of the group |
| SettingModel.Max | app/Orchid/Screens/SettingScreen.php:303 | the greatest element of a non-empty set of positions |
| SettingModel.Min | app/Orchid/Screens/SettingScreen.php:204 | the least element of a non-empty set of positions |
| SettingModel.AttachmentOfEncodedList | app/Models/Setting.php:80-88 | a stored encoded id list queries exactly those ids |
| SettingModel.AttachmentOfEncodedScalar | app/Models/Setting.php:83-88 | a stored encoded scalar is wrapped into a one-id query |
| SettingModel.AttachmentsOfNumbers | app/Models/Setting.php:87-88 | numeric ids select exactly the stored attachments with those ids |
| SettingModel.AfterDeletingHook | app/Models/Setting.php:65-71 | the corrected hook removes only attachments from the store; a non-file or empty-valued setting removes none |
| SettingModel.AfterDeletingHookAsWritten | app/Models/Setting.php:65-71 | when the hook as written does not raise, it leaves the same store as the corrected one |
| SettingModel.DeletingHookRaisesWithoutAttachments | app/Models/Setting.php:66-67 | the hook as written raises exactly for non-file or empty-valued settings, which the corrected hook leaves untouched |
| SettingModel.ResolveOptionsDefined | app/Models/Setting.php:110-115 | the option map is built exactly when every active row has a usable name and a param |
| SettingModel.ResolveOptionsKeys | app/Models/Setting.php:111-114 | a name is in the option map exactly when some active row carries it; inactive rows contribute nothing |
| SettingModel.ObjectFlagSkipped | app/Models/Setting.php:111-112 | a row whose `active` property is an object never passes `where('active', '=', true)`, because Collection::where treats an object against a non-object as unequal, so it adds nothing to the option map |
| SettingModel.ResolveOptionsLastWins | app/Models/Setting.php:112-114 | the param under a name is that of the last active row carrying the name |
| SettingModel.FieldOfEncoded | app/Models/Setting.php:110-129 | under a lawful codec an array setting's field gets the resolved options, the path key.new_value, the decoded value, the name as title and the description as help |
| SettingModel.FieldWithoutOptions | app/Models/Setting.php:116-129 | an empty option list gives a field with no parameters, and a plain value is passed through raw |
| SettingAccessor.Read | app/Support/helpers.php:366-387 | an unknown key gives the default, and only it does; a file-type setting gives a subset of the attachment store |
| SettingAccessor.ReadAsWrittenRaisesOnEmptyFiles | app/Support/helpers.php:375-376 | as written, a file setting with an empty value raises where the corrected read gives no attachments; all other reads agree |
| SettingAccessor.ReadFileIds | app/Support/helpers.php:375-376 | under a lawful codec a file setting holding an encoded list of numeric ids reads as exactly the stored attachments with those ids (none when the encoded text is PHP-empty) |
| SettingAccessor.ReadFileId | app/Support/helpers.php:375-376 | under a lawful codec a file setting holding one encoded numeric id reads as that attachment when it is stored, and as nothing otherwise |
| SettingAccessor.ReadEncodedArray | app/Support/helpers.php:377-382 | under a lawful codec an array setting reads back the value it encodes |
| TextHelpers.Narrator | app/Support/helpers.php:97-108 | the loop's result is the joined pieces with every piece after the first rewritten |
| TextHelpers.NarratorPlain | app/Support/helpers.php:99-107 | text without the start delimiter comes back unchanged |
| TextHelpers.NarratorPiece | app/Support/helpers.php:101-103 | a piece without the end delimiter is kept; otherwise startReplace is prepended and only its first end delimiter becomes endReplace |
| TextHelpers.NarratorDropsStart | app/Support/helpers.php:99-107 | when the start delimiter is a single character that occurs in neither startReplace nor endReplace (as with the defaults `[`, `<b>` and `</b>`), that character does not occur in the output |
| TextHelpers.Nasab | app/Support/helpers.php:196-201 | the result is never empty |
| TextHelpers.NasabRoundTrip | app/Support/helpers.php:198-200 | reversing the names back and joining them with "bin" gives the text with "binti" replaced by "bin" |
| TextHelpers.NasabNamesAvoidBin | app/Support/helpers.php:200 | no name in the result contains "bin" |
| TextHelpers.ArrayToString | app/Support/helpers.php:258-264 | the result starts with the prefix and ends with the suffix |
| TextHelpers.ArrayToStringSingle | app/Support/helpers.php:258-264 | a one-element list is just wrapped in prefix and suffix |
| TextHelpers.ArrayToStringPair | app/Support/helpers.php:258-264 | two elements are joined by the last splitter |
| TextHelpers.ArrayToStringAgrees | app/Support/helpers.php:258-264 | for two or more elements, when splitter + last element occurs nowhere in the imploded text before its final splitter, the joiner as written equals the corrected one: earlier elements joined by the splitter, then the last splitter and the last element |
| TextHelpers.ArrayToStringRepeatedLast | app/Support/helpers.php:261 | as written, every occurrence of splitter + last element is replaced, so a repeated last element gets the last splitter twice; the corrected joiner uses it once |
| TextHelpers.CleanText | app/Support/helpers.php:187-192 | the output is no longer than the input and holds only A-Z, a-z, 0-9, '-' and space |
| TextHelpers.CleanTextSubsequence | app/Support/helpers.php:189 | the output is a subsequence of the input |
| TextHelpers.CleanTextFixed | app/Support/helpers.php:189 | the input comes back unchanged exactly when it is already in that alphabet |
| TextHelpers.CleanTextIdempotent | app/Support/helpers.php:189 | cleaning twice is cleaning once |
| TextHelpers.DropTime | app/Support/helpers.php:555-557 | dropping the time removes exactly the trailing ", HH:mm:ss" |
| TextHelpers.DropDayName | app/Support/helpers.php:558-560 | dropping the day name removes exactly the leading "dddd, " |
| TextHelpers.DropPartsOrder | app/Support/helpers.php:555-560 | dropping parts leaves the remaining parts in order |
| TextHelpers.DateFormatParts | app/Support/helpers.php:548-560 | the format is the locale's date part (day first for jv and id, the default otherwise), with the day name and time kept as requested |
| Numerals.ValuesDecrease | app/Support/helpers.php:571-575 | the symbol map lists its values in strictly decreasing order |
| Numerals.Pick | app/Support/helpers.php:578-584 | the inner scan stops at the first entry that fits |
| Numerals.PickIsFirst | app/Support/helpers.php:578-584 | every entry before the picked one is too large |
| Numerals.NumberToRoman | app/Support/helpers.php:569-587 | the loop returns the greedy numeral of its input |
| Numerals.RomanEmptyIff | app/Support/helpers.php:577 | the result is empty exactly for n <= 0 |
| Numerals.RomanValue | app/Support/helpers.php:577-585 | the emitted symbols' values add up to n |
| Numerals.RomanNonIncreasing | app/Support/helpers.php:577-585 | the symbols appear in non-increasing value order |
| Numerals.Roman1994 | app/Support/helpers.php:569-587 | 1994 converts to MCMXCIV |
| Numerals.NumberToAlpha | app/Support/helpers.php:591-594 | the pipeline "000" + (num+65), its last three characters, the int conversion and chr: any character returned is a single byte |
| Numerals.AlphaClosedForm | app/Support/helpers.php:591-594 | with m = num+65 and chr reducing modulo 256, the pipeline gives chr(m mod 1000) for m >= 0, chr(|m| mod 1000) for m <= -100, chr(m) for -99..-10 (the text keeps its minus sign), and raises for -9..-1 |
| Numerals.AlphaLetters | app/Support/helpers.php:591-594 | 0..25 give 'A'..'Z' |
| Numerals.AlphaWraps | app/Support/helpers.php:593 | from num+65 = 0 on, numbers 1000 apart give the same character; the helper raises exactly when num+65 is in -9..-1 |
| DocCode.DocCodeDefinedIff | app/Support/helpers.php:622-623 | the helper answers exactly for lines holding '(' |
| DocCode.WhereNamedSound | app/Support/helpers.php:651 | every surviving parameter has a name and comes from the input |
| DocCode.WhereNamedKeepsNamed | app/Support/helpers.php:651 | parameters that all have names survive unchanged |
| DocCode.ParamNameClean | app/Support/helpers.php:633-634 | a parameter name holds neither a space nor '$' |
| DocCode.ParamOfDollar | app/Support/helpers.php:632-639 | the name is the text after '$' up to the first space; the default is the trimmed piece between the first and the second '=' after the '$' (so "T $x = a = b" gives "a"), or null when there is no '=' |
| DocCode.ParamPlain | app/Support/helpers.php:632-639 | "T $name" gives the name with a null default |
| DocCode.ParamWithDefault | app/Support/helpers.php:632-639 | "T $name = d" gives the name with default trim(d) |
| DocCode.ExplodeOpen | app/Support/helpers.php:622 | explode on '(' splits at the first '(' |
| DocCode.ArgumentsUpToClose | app/Support/helpers.php:623 | the argument list is the text up to the first ')' |
| DocCode.DocCodeSignature | app/Support/helpers.php:621-665 | for "ret name(args)rest", the name is the last word before '(', full is name(args), and the parameters and param_str come from args |
| DocCode.ParamsOfSingle | app/Support/helpers.php:627-651 | an argument list with one named parameter yields that parameter alone |
| DocCode.DocCodeOneParam | app/Support/helpers.php:621-665 | "ret name(T $v = d)" yields the one parameter v with default trim(d), and param_str is trim(d) |
| DocCode.DocCodeNames | app/Support/helpers.php:625-662 | the name holds neither a space nor '(', and every parameter that survives has a non-empty name without spaces or '$' |
| CollectionMacros.OnlyAttrKeepsRequested | app/Providers/AppServiceProvider.php:41-51 | the output has one element per input element; each holds exactly the entries of its element whose key is the single requested key or in the requested list |
| CollectionMacros.OnlyKeepsRequested | app/Providers/AppServiceProvider.php:47-49 | an entry survives exactly when it was in the element and its key was requested; values are unchanged |
| CollectionMacros.OnlyAppend | app/Providers/AppServiceProvider.php:47-49 | only() works entry by entry, so it keeps the entries' order |
| CollectionMacros.OnlyAllRequested | app/Providers/AppServiceProvider.php:47-49 | an element whose keys were all requested comes back whole |
| CollectionMacros.OnlyAttrIdempotent | app/Providers/AppServiceProvider.php:41-51 | applying the macro twice with the same keys is applying it once |
| CollectionMacros.OnlyAttrNoMatch | app/Providers/AppServiceProvider.php:46-50 | keys that no element has give one empty array per element |
| ResourceSorting.SortNamesSpec | app/Support/Traits/ResourceSortingByFilename.php:13-16 | sorting yields the same names, as a multiset, in ascending order |
| ResourceSorting.LastIndexOf | app/Support/Traits/ResourceSortingByFilename.php:17 | flip()[name] is None exactly for an absent name; otherwise it is the last index holding the name |
| ResourceSorting.Rank | app/Support/Traits/ResourceSortingByFilename.php:11-19 | an absent name raises, and only an absent one does; a present one ranks in [2000, 2000+n) at its position in the sorted list |
| ResourceSorting.RankOrdered | app/Support/Traits/ResourceSortingByFilename.php:16-18 | of two distinct present names, the one that sorts first ranks lower |
| ResourceSorting.RankTakesLast | app/Support/Traits/ResourceSortingByFilename.php:17-18 | a name listed twice takes the later of its sorted positions |

## Left out

- Transactions and concurrency: every action is one atomic step. Nothing models the `DB::beginTransaction` of `upDown` that is left open on the failure path.
- The field-type catalog (`Field::FILE_FIELDS`, `Field::make`, `Setting::types`) is not part of this model. The file-type names are a parameter, and `field()` returns the record of what it would hand to `Field::make`.
- JSON text itself: the codec is abstract. Nothing models PHP's distinction between `stdClass` objects and associative arrays, nor floats.
- SettingScreen.Saved: PHP's loose `!=` between decoded values is the parameter `same`. Its rules for arrays, objects and mixed types are not modelled.
- SettingScreen.Saved and SettingScreen.Deleted take the clicked key as given. A request without `_clicked` (an undefined index) is not modelled.
- Requests are already trimmed and normalised: `Required` trims text itself, but the middleware that turns empty strings into null is not modelled.
- Database column defaults for columns that `create()` does not receive are taken as null or false.
- SettingScreen.Candidates: when positions tie, `->first()` may return any of the tied rows. The method picks any of them, and the uniqueness lemmas assume distinct positions.
- SettingScreenLaws.ButtonsMatchMoves: the row index is taken as the number of same-group settings above, which assumes distinct positions. With tied positions, the order of a stable sort is not modelled.
- The rest of `layout()` (tabs, modals, the Save/Properties/Delete buttons, labels) is user interface and is not modelled. Only the up/down choice and the separators are.
- Alerts, translations and the `asyncGetData`/`asyncField` handlers are not modelled.
- TextHelpers.Narrated: `end` is used as a regular expression in `preg_replace`, and `endReplace` as its replacement string, where `$1`, `\0` and `\\` are references or escapes. The model treats both as literal text, which matches the defaults `]` and `</b>` but not text holding regex metacharacters or those sequences.
- TextHelpers.Narrated requires a non-empty start delimiter, because `explode` rejects an empty one.
- DocCode.ParamsOf: `->where('name', '!=', '')` keeps the original part indices, so `->toArray()` can return keys such as `[1 => ...]` (for "x f(a, int $b)"). The model renumbers the surviving parameters from 0 and keeps only their order.
- TextHelpers.NarratorDropsStart: only a one-character start delimiter absent from both replacements is covered. A longer delimiter can be re-formed across pieces (start "ab" in "aabb" gives "ab"), and a replacement holding the delimiter puts it back.
- `readable_datetime`: only the choice of format string is modelled. Carbon's parsing and formatting is a library call.
- ResourceSorting.SortNames: PHP's `sort()` compares numeric-looking strings as numbers. Class file names ending in ".php" are never numeric, so plain byte order is used. The directory listing is an input.
- ResourceSorting.Rank returns the integer rank; the method's `: string` return type turns it into its decimal text, which is not modelled.
- SettingModel.OptionRows: `field()` is modelled on a row as read from the database, whose options are JSON text. Its only caller, the settings layout, first replaces the options with `json_decode($setting->options)`. A list then passes through unchanged, but a top-level JSON object arrives as an object and the second `json_decode` raises a type error. The model instead reads the object's property values as the option rows.
- SettingModel.Selects: only a number or its canonical decimal text selects an attachment id. The database's coercion of other values against the integer `id` column (such as "05", " 5", "5abc" under MySQL, or `true`) is not modelled. The narrowing carries over to SettingModel.AttachmentsOf, the deleting hook, SettingScreen.Deleted, Screen.Delete and SettingAccessor.Read.
- Numerals.NumberToRoman: the numeral helpers are modelled on integers only, while the PHP functions are untyped. Numeric strings such as "12", which PHP converts, are not modelled. Nor is a fractional input: `number_to_roman(0.5)` never ends, because `$number > 0` stays true but no map entry is <= 0.5, so `$number` never changes (3.5 reaches the same state after three I's). Numerals.NumberToAlpha likewise takes an integer.
- CollectionMacros.Only: elements are PHP arrays with string keys. Scalars wrapped by `collect()` and integer keys are not modelled.
- Helpers outside this core (`highlight`, `money_to_words`, `translate`, the query helpers, route helpers) are not part of this model.

## Findings

| source | as written | input that shows it | evidently intended | confidence | as-written member | corrected member |
|---|---|---|---|---|---|---|
| app/Models/Setting.php:66-67,91 | `attachment()` returns `collect([])` for a non-file or empty-valued setting. The deleting hook and `setting()` then call `->get()` on it without a key, which raises. | deleting any setting of a non-file type; `setting(k)` for a file setting whose value is "" | no attachments are fetched, and the delete or read goes ahead | high (not executed) | SettingScreenLaws.DeletedAsWrittenAborts | SettingScreenLaws.DeletedRemoves |
| app/Support/helpers.php:261 | `str_replace` replaces every occurrence of splitter + last element, not only the final one | `["y","x","x"]` with ", " and " and " gives "y and x and x" | "y, x and x" | high (not executed) | TextHelpers.ArrayToStringRepeatedLast | TextHelpers.ArrayToStringAgrees |
| app/Orchid/Screens/SettingScreen.php:136-138 | the first row always gets a down button, even when it is the group's only row | a group with one setting: its down button always ends in the failure alert | no move buttons on a lone row | medium (not executed) | SettingScreenLaws.LoneRowDownFails | SettingScreenLaws.ButtonsMatchMoves |
