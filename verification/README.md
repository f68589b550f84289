# jquery.restAdmin: the logic under the widget

`web/js/jquery.restAdmin.js` is a jQuery plugin that turns a schema of
columns into a list-and-form administration screen for a collection of
records. Under the DOM code there is a small deterministic layer, and this
project models that layer in Dafny and proves properties of it:

- **the local data source** (`options.local`): `create`, `update`,
  `refreshData`, `remove` and `rank` work on the array `options.data` in
  place, and a temporary-identifier counter stamps new records `_temp_<n>`.
  Modules `LocalStore` (pure functions and loop methods over sequences) and
  `SharedSource` (the same operations applied to one shared, mutable
  collection object that an embedding widget also holds; its constructor
  and its `rank` take the corrected forms described under Findings: the
  counter starts past the temporary identifiers already in the collection,
  where line 43 always starts at 1, and rank places records, not groups).
- **the type registry** (`options.types`): for each column type, the list
  summary (`listText`), the control read-back (`getValue` or `.val()`), the
  default value of a new record's field and the `selfUpdating` flag. The
  built-in entries for text, textarea, richtext, checkbox, readOnly, select
  and admin are merged under the caller's entries. Module `TypeRegistry`.
- **the edit session** (`edit(datum)`): seeding a new record, `updateColumn`,
  the Save handler's `required`/`unique` validation, `isDuplicate`, and the
  Delete handler's validator gating and confirmation. Module `EditSession`.
- **two worked sessions** in module `Scenarios`.

JavaScript values are the datatype `JsValues.Value` (undefined, null,
booleans, integers, strings, arrays, plain objects). Truthiness, `String(v)`,
`Array.prototype.join` and property access are modelled; reading a property
of `null` or `undefined` gives `Result.Thrown`, the `TypeError` the browser
raises. `Scans.FirstWhere` is the left-to-right search shared by the search
loop of `remove`, `_.any` in `isDuplicate` and `_.find` in the select
summary. Each of these reads a property of every item it visits, so it
throws on the first `null` or `undefined` item it reaches before a match.

The edited record is aliased. `edit(datum)` receives the very object held in
`options.data`, so every read-back of a control changes the stored
collection at once, even when the save is then refused. `EditSession.Write`
keeps the edited record and the collection in step, and
`EditSession.ReadingKeepsCollection` proves that the collection holds the
edited record at its position after any number of read-backs. That is why
local `update` has nothing left to do. It also means that in the session of
`Scenarios.CreateThenBlankTitle`, after a refused save the collection already
holds the blank title. No list is on screen while the editor is open, because
`edit` empties the container before showing the form (lines 644-645). Cancel
(lines 591-593) only calls `list()`, which redraws from `options.data`, so
after Cancel the row shows the blank title: Cancel is meant to discard the
edits, but the code keeps them, and the model follows the code. The
scenario's `stored` output is the cell that list draws.

## Model

| member | source | states |
|---|---|---|
| JsValues.DecimalRoundTrip | web/js/jquery.restAdmin.js:57 | the decimal digits `'' + n` writes for a counter value read back to that value |
| Scans.FirstWhere | web/js/jquery.restAdmin.js:84-93 | the search stops at the first item that passes the test, reports no match exactly when every item is readable and fails, and throws exactly when a nullish item comes before any match |
| LocalStore.TempIdRoundTrip | web/js/jquery.restAdmin.js:57 | a temporary identifier `_temp_<n>` is recognisable as one and gives back its counter value `n` |
| LocalStore.Create | web/js/jquery.restAdmin.js:54-60 | create stamps the datum's identifier field with `_temp_` and the counter, keeps its other fields, advances the counter by one, and appends the stamped record after the unchanged earlier items |
| LocalStore.CreateKeepsCounterAhead | web/js/jquery.restAdmin.js:43-58 | while the counter is ahead of every temporary identifier in the data, the identifier create hands out belongs to no stored item, and the counter stays ahead |
| LocalStore.SuccessiveCreatesDiffer | web/js/jquery.restAdmin.js:57 | two creates in a row hand out different identifiers |
| LocalStore.RefreshData | web/js/jquery.restAdmin.js:67-76 | local refresh turns missing data into an empty collection and leaves existing data and the counter alone |
| LocalStore.FindById | web/js/jquery.restAdmin.js:84-93 | the search loop of remove finds the first item whose identifier equals the datum's, or none, and throws on a nullish item reached first |
| LocalStore.ShiftOut | web/js/jquery.restAdmin.js:94-101 | shifting every later item one place left and dropping the last slot removes exactly position `index` |
| LocalStore.Remove | web/js/jquery.restAdmin.js:77-103 | remove takes out the first item with the datum's identifier, leaves the data unchanged when there is none, and throws before changing anything when a nullish item comes first |
| LocalStore.RemovedSlice | web/js/jquery.restAdmin.js:94-101 | after the removal there is one item fewer, the remaining items keep their relative order, and exactly the one removed item is missing from the contents |
| LocalStore.RemoveDropsOnlyThatId | web/js/jquery.restAdmin.js:77-103 | with unique identifiers, no remaining item carries the removed identifier and every other item is still present |
| LocalStore.Positions | web/js/jquery.restAdmin.js:106-108 | the positions `_.groupBy` files under a key are increasing, each holds an item with that key, and every item with the key is among them |
| LocalStore.Group | web/js/jquery.restAdmin.js:106-108 | a `_.groupBy` entry holds the items whose identifier, as a string, is the key, in data order and with their repeats, and no other item |
| LocalStore.GroupsEmptyExactlyWhenUnknown | web/js/jquery.restAdmin.js:106-111 | a key's `_.groupBy` entry is empty exactly when no item has that key, which is when `byId[id]` is `undefined` |
| LocalStore.RankedAsWritten | web/js/jquery.restAdmin.js:104-116 | rank as written yields one entry per identifier in `order`: `undefined` exactly when no item has that identifier, and otherwise the array of every item with that identifier, in data order, never a bare record |
| LocalStore.RankAsWritten | web/js/jquery.restAdmin.js:104-116 | rank as written throws in `_.groupBy` exactly when an item is nullish, and otherwise replaces the data with the grouped entries and keeps the counter |
| LocalStore.RankAsWrittenWrapsRecords | web/js/jquery.restAdmin.js:112-114 | ranking one record `{id: "a"}` by `["a"]` as written leaves `[[record]]` in the data instead of `[record]` |
| LocalStore.Lookup | web/js/jquery.restAdmin.js:104-116 | the record placed for a key is the first one filed under that key, or `undefined` when no record has it |
| LocalStore.LookupFinds | web/js/jquery.restAdmin.js:104-116 | a record whose key no earlier record shares is the one placed for that key |
| LocalStore.Ranked | web/js/jquery.restAdmin.js:104-116 | the corrected rank has exactly one entry per identifier in `order` |
| LocalStore.Rank | web/js/jquery.restAdmin.js:104-116 | rank succeeds exactly when every item is readable, and then the data holds, for each identifier in `order`, the record carrying it, and the counter is unchanged |
| LocalStore.RankExample | web/js/jquery.restAdmin.js:104-116 | records `a`, `b`, `c` ranked by `[c, a, b]` come out in the order `c`, `a`, `b` |
| LocalStore.RankMatchesNumberToString | web/js/jquery.restAdmin.js:106-108 | the numeric identifier `7` in `order` finds the record whose identifier is the string `"7"` |
| LocalStore.RankPermutes | web/js/jquery.restAdmin.js:104-116 | when identifiers are unique and `order` lists each record's identifier once, rank only reorders: the result holds the same records, each exactly once |
| LocalStore.InitialCounterAhead | web/js/jquery.restAdmin.js:43 | a widget's counter, which starts at 1, is ahead of its data exactly when no item carries a temporary identifier numbered 1 or more |
| LocalStore.ReopenedAdminRepeatsId | web/js/jquery.restAdmin.js:378-385 | a nested admin reopened over a sub-array holding `_temp_1` hands out `_temp_1` again, and remove of the new record then finds the old one first |
| LocalStore.CounterAfter | web/js/jquery.restAdmin.js:43 | the corrected starting counter is at least 1, ahead of every temporary identifier in the data, and exactly 1 when the data holds none |
| LocalStore.Resume | web/js/jquery.restAdmin.js:43 | the corrected widget state keeps the data, has its counter ahead of it, and equals the source's initial state whenever that is already ahead |
| LocalStore.ResumedCreateIsFresh | web/js/jquery.restAdmin.js:54-58 | a create right after the corrected start hands out an identifier no item of the data carries |
| LocalStore.KeepsCounterAhead | web/js/jquery.restAdmin.js:43-58 | a collection whose items are stored items or carry no string identifier leaves the counter ahead |
| LocalStore.RemoveKeepsCounterAhead | web/js/jquery.restAdmin.js:94-101 | taking out one item keeps the counter ahead of the data |
| LocalStore.RankAsWrittenKeepsCounterAhead | web/js/jquery.restAdmin.js:104-116 | rank as written leaves only arrays and `undefined`, so the counter stays ahead |
| LocalStore.RankKeepsCounterAhead | web/js/jquery.restAdmin.js:104-116 | the corrected rank places only stored records or `undefined`, so the counter stays ahead |
| LocalStore.RemoveAndRankKeepCounterAhead | web/js/jquery.restAdmin.js:77-116 | remove and both forms of rank keep the counter ahead of the data, so a later create still hands out a new identifier |
| SharedSource.LocalSource.RefreshData | web/js/jquery.restAdmin.js:67-76 | refresh creates a new empty collection only when there is none and otherwise keeps the same collection object and contents |
| SharedSource.LocalSource.Create | web/js/jquery.restAdmin.js:54-60 | create changes the contents of the one shared collection object as the pure create does and never replaces the object |
| SharedSource.LocalSource.Remove | web/js/jquery.restAdmin.js:77-103 | remove changes the contents of the shared collection in place, with the outcomes of the pure remove, and a throw leaves the contents as they were |
| SharedSource.LocalSource.Rank | web/js/jquery.restAdmin.js:104-116 | rank, as evidently intended (the corrected form of the finding below), rebuilds the contents of the same collection object, and a throw leaves the contents alone |
| TypeRegistry.Prefix | web/js/jquery.restAdmin.js:227 | `substr(0, n)` is the prefix of length `n`, or the whole string when it is shorter |
| TypeRegistry.TextareaSummary | web/js/jquery.restAdmin.js:226-228 | a textarea summary is the value's first 80 characters: the value itself when it is at most 80 long, exactly 80 characters otherwise; a value that is not a string throws |
| TypeRegistry.RichtextSummary | web/js/jquery.restAdmin.js:243-251 | a richtext summary is `substr(0, 80)` of the parsed text: the whole text when it is at most 80 long, its first 80 characters otherwise, and the empty string when parsing throws |
| TypeRegistry.CheckboxSummary | web/js/jquery.restAdmin.js:277-279 | a checkbox summary is `Yes` exactly for a truthy value and `No` exactly for a falsy one |
| TypeRegistry.CheckboxValue | web/js/jquery.restAdmin.js:287-296 | a checkbox reads back as `1` or `''`, truthy exactly when checked |
| TypeRegistry.SelectSummaryFindsLabel | web/js/jquery.restAdmin.js:323-338 | when no nullish choice comes before it, the select summary is the label of the first choice whose value field equals the value, or the value's own value field when the value is an object, provided that choice is truthy; label and value fields default to `label` and `value` |
| TypeRegistry.SelectSummary | web/js/jquery.restAdmin.js:323-338 | a select summary is `null` or the label field of one of the choices; it throws only for a `null` value or when a choice is nullish, and a `null` value throws exactly when there is a choice |
| TypeRegistry.SelectSummaryNoMatch | web/js/jquery.restAdmin.js:323-338 | with no matching choice the select summary is `null`, and a `null` value throws as soon as there is a choice to compare |
| TypeRegistry.AdminLabels | web/js/jquery.restAdmin.js:371-375 | the admin summary collects each sub-record's label field in order, and throws exactly when some sub-record is nullish |
| TypeRegistry.AdminSummary | web/js/jquery.restAdmin.js:371-377 | an admin summary is always a string, and over an array it throws exactly when some sub-record is nullish |
| TypeRegistry.AdminSummaryGrows | web/js/jquery.restAdmin.js:371-377 | an empty sub-collection summarises to `''`, one sub-record to the text of its label (`''` when the label is missing), and adding a sub-record adds `", "` and its label to the summary |
| JsValues.JoinAppend | web/js/jquery.restAdmin.js:376 | `join` of two non-empty runs is the two joins with one separator between them |
| TypeRegistry.Builtins | web/js/jquery.restAdmin.js:203-391 | the widget provides exactly the text, textarea, richtext, checkbox, readOnly, select and admin types |
| TypeRegistry.BuiltinEntries | web/js/jquery.restAdmin.js:217-390 | built-in defaults are `[]` for admin, `false` for checkbox, `undefined` for select and `''` for the text-like types; only admin is self-updating and only checkbox has its own read-back |
| TypeRegistry.Merge | web/js/jquery.restAdmin.js:208-218 | `_.defaults` keeps every field the caller set, its own functions included, and fills in each one left out from the built-in entry, so an entry with nothing set becomes the built-in one |
| TypeRegistry.Registry | web/js/jquery.restAdmin.js:203-218 | the merged registry has the caller's type names and the built-in ones; a caller type with a new name is kept as given and a built-in type the caller leaves alone is the built-in entry |
| TypeRegistry.RegistryPrecedence | web/js/jquery.restAdmin.js:203-218 | the registry holds the caller's types and the built-in ones, each field the caller supplies for a built-in type wins, each field left out comes from the built-in entry, and other caller types are kept as given |
| TypeRegistry.StripLineBreaks | web/js/jquery.restAdmin.js:212-216 | a text input's value has no line breaks, keeps every other character as often as it occurs, and is unchanged when there were none |
| TypeRegistry.NormalizeNewlines | web/js/jquery.restAdmin.js:229-233 | a textarea's value read back has no carriage return, and is unchanged when there was none |
| TypeRegistry.InputRoundTrip | web/js/jquery.restAdmin.js:212-216 | a text or readOnly input reads back as the value's text without line breaks, so a string without any comes back unchanged |
| TypeRegistry.InputDropsLineFeed | web/js/jquery.restAdmin.js:212-216 | the string `"a\nb"` in a text input reads back as `"ab"` |
| TypeRegistry.TextareaRoundTrip | web/js/jquery.restAdmin.js:229-233 | a textarea reads back as the value's text with carriage returns made line feeds, so a string without any comes back unchanged |
| TypeRegistry.CheckboxRoundTrip | web/js/jquery.restAdmin.js:280-296 | a checkbox reads back as `1` or `''`, which keeps the value's truthiness and its Yes/No summary |
| TypeRegistry.ControlRoundTrip | web/js/jquery.restAdmin.js:212-296 | rendering a value into a text or readOnly input and reading it back drops its line breaks, so a string without any comes back unchanged and `"a\nb"` comes back as `"ab"`; a textarea gives back a string without carriage returns unchanged; a checkbox gives back `1` or `''`, which keeps the value's truthiness and so its summary |
| TypeRegistry.ListCell | web/js/jquery.restAdmin.js:442 | a list cell throws when the record is nullish or its type has no `listText` |
| TypeRegistry.ListCellBuiltins | web/js/jquery.restAdmin.js:438-456 | with the built-in types a cell shows a text or readOnly field as it is, a textarea field cut to 80 characters and a checkbox field as Yes or No |
| EditSession.NewRecordKeys | web/js/jquery.restAdmin.js:509-525 | a new record has a field for every column name and no other field |
| EditSession.NewRecordValues | web/js/jquery.restAdmin.js:516-523 | each field of a new record holds the column's default when it is not `undefined`, and the type's default otherwise, taken from the last column of that name |
| EditSession.NewRecordDefaults | web/js/jquery.restAdmin.js:509-525 | with the merged registry a column default always wins, and otherwise a built-in type's default applies unless the caller's entry overrides it |
| EditSession.UpdateColumn | web/js/jquery.restAdmin.js:651-666 | updateColumn changes only the column's own field; a self-updating type leaves the record untouched; otherwise the field becomes the type's `getValue` of the control, or its `.val()` |
| EditSession.Write | web/js/jquery.restAdmin.js:462-464 | a change to an existing record shows at its position in the collection and nowhere else; a new record's change leaves the collection alone |
| EditSession.AfterReading | web/js/jquery.restAdmin.js:555-557 | reading columns back keeps the collection's length and the edited record's position |
| EditSession.ReadingKeepsCollection | web/js/jquery.restAdmin.js:61-66 | reading columns back touches no other item; an existing record stays the object at its position, so local update has nothing left to do; a new record leaves the collection as it was |
| EditSession.ReadingSetsFields | web/js/jquery.restAdmin.js:651-666 | after the read-backs, a field no non-self-updating column writes keeps its value, and a field such a column writes holds what that column's control reads back |
| EditSession.IsDuplicate | web/js/jquery.restAdmin.js:669-674 | isDuplicate throws only when the collection holds a nullish item |
| EditSession.IsDuplicateMeaning | web/js/jquery.restAdmin.js:669-674 | over a readable collection isDuplicate is true exactly when some item has the same value in the column and a different identifier; a record is never its own duplicate |
| EditSession.UniqueAloneNotDuplicate | web/js/jquery.restAdmin.js:669-674 | when no other item shares the value, the unique test passes, even though the edited record is itself in the collection |
| EditSession.ViolationMeaning | web/js/jquery.restAdmin.js:558-569 | a column is flagged exactly when it is required with a falsy value, or unique with a value another record shares |
| EditSession.Save | web/js/jquery.restAdmin.js:553-589 | save reads back and tests every column in order; it is refused, with exactly the violating columns flagged, when any column violates; otherwise it hands the record to create for a new record and to update for an existing one; a throw from isDuplicate stops it at that column |
| EditSession.CheckMeaning | web/js/jquery.restAdmin.js:553-574 | over a readable collection, each column's verdict is taken after its own read-back, never throws, and flags exactly the required-falsy or unique-shared columns |
| EditSession.SaveThrowsOnlyOnNullishItems | web/js/jquery.restAdmin.js:564 | save over a collection without nullish items never ends in a TypeError |
| EditSession.AfterGuards | web/js/jquery.restAdmin.js:599-609 | the delete handler's read-backs keep the collection's length and the record's position |
| EditSession.RemovePrompt | web/js/jquery.restAdmin.js:614-617 | the confirmation question is `options.removeConfirm` when it is set, and the default question otherwise |
| EditSession.Delete | web/js/jquery.restAdmin.js:597-635 | delete is blocked, with exactly the refusing columns flagged and nothing asked, when some validator returns a falsy value after its column's read-back; otherwise the user is asked and the record goes to remove exactly when they confirm |
| EditSession.GuardsReadOnlyValidated | web/js/jquery.restAdmin.js:599-609 | the delete handler reads back only validated columns; without validators it leaves record and collection exactly as they were |
| EditSession.ConfirmedDeleteFindsRecord | web/js/jquery.restAdmin.js:618-633 | with unique identifiers, local remove after a confirmed delete finds exactly the edited record's position |
| Scenarios.CreateThenBlankTitle | web/js/jquery.restAdmin.js:553-593 | in local mode with a required title, creating `Hello` submits and lists it, and blanking the title is refused with the title flagged, while the stored record already holds the blank title, which is what the list redrawn by Cancel shows |
| Scenarios.DeleteOnlyRecord | web/js/jquery.restAdmin.js:597-635 | deleting the only record without validators asks the default question and, on yes, leaves an empty collection and the counter as it was |

## Left out

- REST actions over `$.ajax`, remote `refreshData` and `loadData` (lines 122-194 and 393-404) are network I/O. Success and error callbacks are not modelled. The operations return their results instead.
- The DOM is not modelled. That covers the table and form construction, buttons, `container.html`, the `jraRefreshedList`, `jraAdded` and `jraUpdate` events, arrow display (the `flagged` sequences list the arrows one click shows; nothing in an edit session hides an arrow again, lines 528-531, 560, 566 and 605, so arrows from an earlier click stay visible, which is not modelled), and the checkbox/radio layout test at line 535.
- Control rendering is modelled only for the text-like and checkbox types (`RenderInput`, `RenderTextarea`, `RenderCheckbox`). The select `<option>` list and the nested admin's control (lines 339-359 and 378-385) are not modelled. The rendered form is the parameter `form`, holding each control's `.val()` and `checked` state.
- TypeRegistry.RichtextSummary: the browser's HTML parser is the parameter `htmlText`. CKEditor and the `jraUpdate` sync (lines 252-268) are foreign code.
- The sortable drag gesture (lines 469-483) is not modelled. `rank` takes the order as a given sequence of identifiers. The browser's `confirm` dialog is the parameter `confirm`.
- Object identity is not modelled. `===` on objects and arrays is structural equality here, while JavaScript compares references. One consequence is left out: the built-in admin default `[]` is a single array object that every new record shares.
- Numbers are integers. Fractions, NaN and infinities are not modelled.
- Built-in properties (`length`, array indices, prototype members) read as `undefined` on every value.
- TypeRegistry.AdminLabels: a plain object value gives no labels here, although `_.each` would visit its property values in key order. A number or boolean value also gives no labels, although older versions of underscore throw on it.
- TypeRegistry.ControlRoundTrip: the richtext control is not covered, because CKEditor rewrites the textarea's content. For a textarea it states the outcome only for strings without carriage returns; a string with one comes back with line feeds in their place (`NormalizeNewlines`).
- TypeRegistry.Prefix: counts Unicode scalar values, while JavaScript's `substr` counts UTF-16 code units. A string with characters outside the Basic Multilingual Plane is cut at a different place, and the browser may split a surrogate pair.
- TypeRegistry.TextareaSummary: cuts at 80 Unicode scalar values rather than 80 UTF-16 code units, for the reason given under `Prefix`.
- TypeRegistry.RichtextSummary: cuts at 80 Unicode scalar values rather than 80 UTF-16 code units, for the reason given under `Prefix`.
- An admin column without `labelColumn` is not modelled: the column's `labelColumn` is always a string. The source would read `datum[undefined]`, the property named `"undefined"` (line 374).
- Delete validators receive the columns as specifications (`SpecsOf(schema)`) that record only whether each column has a validator. The source passes `options.schema`, validators included (line 603), which a Dafny datatype cannot hold inside the validator's own argument type.
- The `success` callbacks are not modelled, including local rank's call of `params.success`, which the sortable handler does not pass.
- `options.create`, `update`, `remove`, `rank` and `refreshData` supplied by the caller in place of the local ones are not modelled.
- Data that the caller supplies as something other than an array, or as `null`, is not modelled. The store holds either no data or a sequence.
- Local `update` (lines 61-66) has no function of its own, because it changes nothing. `EditSession.ReadingKeepsCollection` states why the collection already holds the update.
- A column naming an unregistered type is excluded by a precondition (`Registered`), where the widget would throw a TypeError.
- A delete validator is a total function here. One that throws is not modelled.

## Findings

| source | as written | input that shows it | evidently intended | confidence | as-written member | corrected member |
|---|---|---|---|---|---|---|
| web/js/jquery.restAdmin.js:43 | each widget starts its temporary-identifier counter at 1, also a nested admin reopened over a sub-array whose records already carry `_temp_` identifiers (lines 378-385) | a sub-array holding `{id: "_temp_1"}`: create hands out `_temp_1` again, and remove of the new record takes out the old one | the counter starts past the temporary identifiers already in the data, so created identifiers never collide; the `SharedSource.LocalSource` constructor starts its counter this way | medium; not executed | LocalStore.InitialCounterAhead, LocalStore.ReopenedAdminRepeatsId | LocalStore.CounterAfter, LocalStore.Resume, LocalStore.ResumedCreateIsFresh |
| web/js/jquery.restAdmin.js:104-116 | local `rank` pushes `byId[id]`, the whole `_.groupBy` entry, an array of records (or `undefined` for an unknown identifier) | data `[{id: "a"}]`, order `["a"]`: the data becomes `[[{id: "a"}]]` | each position receives the record with that identifier, so ranking only reorders the records | high; not executed | LocalStore.RankedAsWritten, LocalStore.RankAsWritten, LocalStore.RankAsWrittenWrapsRecords | LocalStore.Ranked, LocalStore.Rank, LocalStore.RankPermutes, SharedSource.LocalSource.Rank |
