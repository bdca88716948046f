# Restaurant picker (rizzerv.js, click variant), modelled in Dafny

rizzerv.js is a browser page that does the following:

- fetches `restaurants.csv` and reads it with a small quote-aware CSV reader;
- shows the restaurants as cards, which can be filtered by category through a drop-down;
- lets the user select up to four restaurants by clicking their cards (a thumbnail is shown for each);
- reports the selected names when the send button is pressed.

This project models the logic behind that page and proves properties about it. The modules follow the parts of the script:

- `Seqs` holds generic sequence helpers: `Array.prototype.filter`, the drop-while used to express the anchored regular expressions, and a flat-map for "skip or push" loops.
- `Text` holds the string built-ins the script relies on: `trim`, `split` on one character, `join`, and the default order of `Array.prototype.sort`.
- `Csv` holds the record shape, `parseCSVLine` (an imperative scan, proved against a recursive definition of the cells of a line) and `parseCSV` (an imperative loop, proved against a definition of the records of the data lines).
- `Catalog` holds the category filter of the apply-filter handler and the sorted category list of `populateCategorySelect`.
- `Selection` holds the list logic of `toggleSelection` with its capacity of four, the card marking done by `renderRestaurantList`, and the send summary.
- `Slug` holds `slugify`, which builds the card and thumbnail element ids.
- `App` holds the class `Picker`. Its fields are the three module-level arrays of the script (`allRestaurants`, `filteredRestaurants`, `selectedRestaurants`). Its methods are the handlers that reassign those arrays.

Three facts about the script shape the model:

- Loading and filtering leave `selectedRestaurants` as it was (rizzerv.js:53-58, 266-276). `Load` and `ApplyFilter` keep the selection.
- The click branch is chosen by the clicked card's `selected` class, not by a lookup in the list (rizzerv.js:170-176). So the list is not deduplicated: a second card carrying an already selected name is appended again (`Selection.SameNameSelectedTwice`), and deselecting removes every entry with that name.
- The card's class is page state that the model does not hold, so it is a parameter (`cardSelected`). `Selection.RenderAfterToggle` relates it to the list. After a selection the next rendering marks the card, and after a deselection it does not. After a capacity warning the list is unchanged, and so is the marking of every card. That marking follows names, so a card whose name another selected card carries is marked even though its own click was refused (rizzerv.js:125).

## Model

| member | source | states |
|---|---|---|
| Seqs.Filter | rizzerv.js:273 | the result is a subsequence of the input (order kept), no longer than it, and holds exactly the elements that pass the predicate |
| Seqs.FilterIdempotent | rizzerv.js:273 | filtering twice with the same predicate is filtering once |
| Seqs.FilterAppend | rizzerv.js:273 | filtering distributes over concatenation |
| Seqs.FilterFilter | rizzerv.js:232-234 | filtering by one predicate and then another is filtering once by their conjunction |
| Seqs.FilterMultiset | rizzerv.js:273 | every element that passes keeps its number of occurrences; every other element occurs zero times |
| Seqs.StripsEndsOfDrop | rizzerv.js:107 | dropping a predicate from the front and then from the back removes only a leading and a trailing run of such elements, leaving a contiguous slice |
| Seqs.FilterStripsEnds | rizzerv.js:236-237 | stripping runs of elements that a second predicate rejects does not change the filter by that second predicate |
| Seqs.CollapseRunsCons | rizzerv.js:233-235 | the position-by-position collapse of runs (an element outside a run kept, the first element of a run replaced, the rest of the run dropped) is the same as reading the text run by run: a run becomes one replacement followed by the collapse of what comes after it |
| Seqs.CollapsePlainPrefix | rizzerv.js:233-235 | a head with no element of a run passes through the collapse unchanged |
| Text.Trim | rizzerv.js:107 | the result has no whitespace at either end and is the contiguous slice of the input left after removing a leading and a trailing run of whitespace (nothing else is removed); an already trimmed string is unchanged |
| Text.TrimSkipsLeadingSpace | rizzerv.js:107 | a leading whitespace character does not change the trimmed result |
| Text.Split | rizzerv.js:67 | `split` always yields at least one piece |
| Text.SplitPieces | rizzerv.js:67 | one more piece than there are separators in the text, and no piece contains the separator |
| Text.JoinSplit | rizzerv.js:67 | joining the pieces of `split` with the separator gives back the text exactly |
| Text.SplitJoin | rizzerv.js:67 | splitting a join of separator-free pieces gives back the pieces |
| Text.SplitPlain | rizzerv.js:67 | a separator-free head only lengthens the first piece |
| Text.Join | rizzerv.js:290 | joining no pieces gives the empty string; joining one piece gives that piece |
| Text.JoinSnoc | rizzerv.js:290 | joining one more piece appends the separator and then that piece |
| Text.LessIrreflexive | rizzerv.js:248 | the string order of `sort` is irreflexive |
| Text.LessTransitive | rizzerv.js:248 | the string order of `sort` is transitive |
| Text.LessTotal | rizzerv.js:248 | any two different strings are ordered one way or the other |
| Text.LessAsymmetric | rizzerv.js:248 | no two strings are each below the other |
| Text.LessIff | rizzerv.js:248 | `Less`, the default order of `sort`, puts `a` first exactly when `a` is a proper prefix of `b`, or when at the first position where they differ `a` has the smaller character |
| Text.StrictlySortedWitness | rizzerv.js:248 | two different strictly sorted lists disagree on the membership of some string |
| Text.StrictlySortedUnique | rizzerv.js:248 | a strictly sorted list is determined by its set of elements |
| Csv.Cells | rizzerv.js:95-106 | a line always yields at least one cell |
| Csv.CellsQuotedSpan | rizzerv.js:97-103 | inside quotes, quote-free text (commas included) only lengthens the current cell |
| Csv.CellsQuotedField | rizzerv.js:97-103 | a quoted quote-free span at the start of a line becomes the first cell without its quotes, commas kept |
| Csv.QuotedCommaExample | rizzerv.js:95-106 | the line `a,"b,c"` has exactly the two cells `a` and `b,c` |
| Csv.Fields | rizzerv.js:106-107 | one field per cell of the line |
| Csv.TrimAll | rizzerv.js:107 | one trimmed field per cell |
| Csv.TrimAllTrims | rizzerv.js:107 | each field is trimmed and is its cell with only a leading and a trailing run of whitespace removed |
| Csv.CellsQuoteFree | rizzerv.js:97-98 | no cell contains a double quote: every quote only flips the flag |
| Csv.FieldsClean | rizzerv.js:90-108 | one field per cell; every field is trimmed and free of double quotes |
| Csv.InQuotesStep | rizzerv.js:97-98 | the quote state after a character flips exactly when that character is a double quote |
| Csv.SeparatorsStep | rizzerv.js:99-101 | a position is a field separator exactly when it is a comma outside quotes |
| Csv.ScanStep | rizzerv.js:96-104 | each step of the scan keeps its loop state consistent with the cells of the line |
| Csv.ScanDone | rizzerv.js:106 | at the end of the line, the finished fields plus the last one are the cells of the line |
| Csv.ScanStateStep | rizzerv.js:95-105 | each of the three branches of the loop body (quote, comma outside quotes, other character) keeps the loop state in step with the line read so far |
| Csv.ParseLine | rizzerv.js:90-108 | the imperative scan returns exactly the trimmed cells of the line, one more than the commas outside quotes |
| Csv.CellsJoin | rizzerv.js:95-105 | joining the cells with "," gives back the line with its double quotes removed: nothing but quotes is lost |
| Csv.CellsPlainPrefix | rizzerv.js:99-103 | text without quotes or commas at the start of a line only lengthens the first cell |
| Csv.ToRestaurant | rizzerv.js:75-82 | the six record fields are trimmed; an already trimmed name or category column is taken unchanged |
| Csv.RecordOfFields | rizzerv.js:75-82 | for a line with enough fields, the record is exactly columns 0, 1, 3, 4, 5 and 9 of `parseCSVLine`'s result |
| Csv.LineRecord | rizzerv.js:72-82 | a line yields at most one record |
| Csv.Records | rizzerv.js:71-84 | at most one record per data line |
| Csv.DataLines | rizzerv.js:67-68 | one data line fewer than the pieces of the trimmed text split on line feeds: the header is dropped |
| Csv.DataLinesCount | rizzerv.js:67-68 | after the header is dropped there are as many data lines as line feeds in the trimmed text, and no data line holds a line feed |
| Csv.RecordsAppend | rizzerv.js:71-84 | records of concatenated lines are the concatenated records (order kept) |
| Csv.DropsShortLine | rizzerv.js:73 | a line with fewer than ten fields contributes nothing |
| Csv.RecordsOfLongLines | rizzerv.js:73-82 | when every line has at least ten fields, there is one record per line, built from that line's fields 0, 1, 3, 4, 5 and 9 |
| Csv.RecordsSnoc | rizzerv.js:71-83 | one more line adds that line's record, or nothing when it is short |
| Csv.LineRecordClean | rizzerv.js:76-81 | a record's name and category are trimmed and free of double quotes |
| Csv.RecordsClean | rizzerv.js:76-81 | every parsed record's name and category are trimmed and free of double quotes |
| Csv.ParseCsv | rizzerv.js:66-85 | the imperative loop returns exactly the records of the data lines, at most one per line |
| Catalog.FilterByCategory | rizzerv.js:270-274 | the empty value shows the whole catalogue; otherwise exactly the records of that category are shown, in catalogue order |
| Catalog.FilterIdempotent | rizzerv.js:270-274 | applying the same category a second time changes nothing |
| Catalog.FilterKeepsOrder | rizzerv.js:273 | filtering distributes over concatenation of catalogues |
| Catalog.Insert | rizzerv.js:244-248 | adding a category to a strictly sorted list keeps it strictly sorted, with that category added and nothing else |
| Catalog.Categories | rizzerv.js:243-248 | strictly sorted (sorted and duplicate-free), holding every non-empty category and nothing that is not a category of some record |
| Catalog.CategoriesCanonical | rizzerv.js:244-248 | any strictly sorted list of exactly the non-empty categories equals the computed list, which is therefore the sorted set |
| Catalog.OfferedCategoryNonEmpty | rizzerv.js:243-276 | every category the drop-down offers shows at least one restaurant |
| Selection.RemoveName | rizzerv.js:201 | the result keeps the order of the list; every entry with another name keeps its number of occurrences and the name no longer occurs; nothing changes when the name is absent |
| Selection.Toggle | rizzerv.js:170-201 | an unmarked card is appended at the end below capacity, leaves the list alone at capacity (the warning), and a marked card removes every entry with its name while every other entry keeps its number of occurrences; within capacity stays within capacity |
| Selection.SessionBounded | rizzerv.js:174 | from a list within capacity, no sequence of clicks selects more than four restaurants |
| Selection.DeselectUndoesSelect | rizzerv.js:172-201 | selecting a name not yet selected and then deselecting it restores the list |
| Selection.SameNameSelectedTwice | rizzerv.js:170-176 | clicking an unmarked card whose name is already selected, below capacity, appends it again, so the entries carrying that name grow by one |
| Selection.Marked | rizzerv.js:125 | a card is rendered as selected exactly when its name is among the selected names |
| Selection.RenderAfterToggle | rizzerv.js:124-127 | after a click, the next rendering marks the card when it was selected and not when it was deselected; after a warning the list, and so every card's marking, is unchanged |
| Selection.Names | rizzerv.js:290 | the names of the selection, one per entry, in selection order |
| Selection.SendSummary | rizzerv.js:285-291 | refused with the alert text exactly when nothing is selected; one selection gives its name |
| Selection.SendSummarySnoc | rizzerv.js:290 | selecting one more restaurant appends ", " and its name to the summary |
| Selection.CellsOfJoinedNames | rizzerv.js:290 | read as a CSV line, names joined by ", " give one cell per name |
| Selection.SummaryReadBack | rizzerv.js:290 | the summary of parsed records with comma-free names, read back by the CSV reader, gives the selected names in order |
| Selection.SelectTwoThenSend | rizzerv.js:285-291 | two clicks on unmarked cards from an empty selection, then send, report the two names in click order separated by ", " |
| Slug.ToLower | rizzerv.js:232 | same length; each upper-case letter becomes the lower-case letter at the same alphabet position and every other character is kept in place |
| Slug.SpacesToDashes | rizzerv.js:233 | every character left is a dash or a non-space character of the input, and the non-dash characters of the input that are not whitespace all survive, in order |
| Slug.SpacesToDashesRuns | rizzerv.js:233 | position by position: a character that is not whitespace is kept, a whitespace character at the start or after a non-space becomes one dash, and any other whitespace character is dropped |
| Slug.KeepWordChars | rizzerv.js:234 | exactly the characters of `[\w\-]` are kept, in order and with their number of occurrences; all others are dropped |
| Slug.SqueezeDashes | rizzerv.js:235 | no two dashes in a row; only characters of the input; empty exactly when the input is; starts with a dash exactly when the input does; the non-dash characters are those of the input, in order |
| Slug.SqueezeDashesRuns | rizzerv.js:235 | position by position: every character is kept except a dash that directly follows a dash |
| Slug.SqueezeStep | rizzerv.js:235 | one step of the squeeze keeps the first character and squeezes the rest, preserving all the squeeze properties |
| Slug.Clean | rizzerv.js:232-234 | after the first three replacements only `[a-z0-9_-]` is left, and its non-dash characters are exactly the `\w` characters of the lower-cased name, in order |
| Slug.CleanRuns | rizzerv.js:232-234 | the first three replacements are the lower-cased name with each whitespace run replaced in place by one dash, then filtered to `[\w\-]` |
| Slug.StripDashes | rizzerv.js:236-237 | stripping the dashes at both ends of such a text gives a slug, and only a leading and a trailing run of dashes is removed |
| Slug.Slugify | rizzerv.js:230-238 | the result is a slug (only `[a-z0-9_-]`, no dash at either end, no two dashes in a row) whose non-dash characters are exactly the `\w` characters of the lower-cased name, in order |
| Slug.SlugifyRuns | rizzerv.js:230-238 | the whole chain with the dashes placed: each dash run of the cleaned name becomes one dash in place, then the dashes at both ends are dropped |
| Slug.SlugifyWords | rizzerv.js:230-238 | words of `[a-z0-9_]` joined by single spaces slugify to the same words joined by dashes |
| Slug.SpacesToDashesWords | rizzerv.js:233 | the whitespace replacement turns the single spaces between such words into dashes |
| Slug.SlugWordsSlug | rizzerv.js:230-238 | such words joined by dashes form a slug |
| Slug.SpacesToDashesNoSpace | rizzerv.js:233 | a text without whitespace is unchanged by the whitespace replacement |
| Slug.SqueezeNoDoubleDash | rizzerv.js:235 | a text without a double dash is unchanged by the squeeze |
| Slug.SlugifyIdempotentOnSlug | rizzerv.js:230-238 | every slug is its own slug |
| Slug.CleanOfSlug | rizzerv.js:232-234 | the first three replacements leave a slug unchanged |
| Slug.StripDashesOfSlug | rizzerv.js:236-237 | stripping the end dashes leaves a slug unchanged |
| Slug.SlugifyIdempotent | rizzerv.js:230-238 | slugifying a slug changes nothing, so ids built from slugs are stable |
| App.Picker.constructor | rizzerv.js:25-30 | the page starts with an empty catalogue, an empty shown list and an empty selection |
| App.Picker.Load | rizzerv.js:53-58 | the catalogue becomes the parsed records and is shown whole; the selection is kept; the drop-down values are "" followed by the sorted categories |
| App.Picker.ApplyFilter | rizzerv.js:266-276 | the shown list becomes the catalogue filtered by the chosen value; catalogue and selection unchanged |
| App.Picker.ToggleSelection | rizzerv.js:169-212 | the selection moves as `Toggle` says, the send button shows exactly when something is selected, catalogue and shown list unchanged, capacity kept |
| App.Picker.Send | rizzerv.js:285-291 | the result is the send summary of the current selection, refused exactly when nothing is selected |

## Left out

- The DOM is not modelled: card and thumbnail elements, `classList`, `scrollIntoView`, the highlight and its 1000 ms timer, the filter panel toggle, and page visibility. What a handler passes to the page is returned instead: drop-down values, send-button visibility, the outcome of a click, and the send summary.
- `fetch` and its error path (`console.error`) are left out. `App.Picker.Load` takes the fetched text as a parameter.
- The `alert` calls are left out. The capacity alert becomes the `CapacityWarning` outcome. The send alert's "You selected: " prefix is presentation around `SendSummary`'s value.
- The commented-out POST to `/submit-selections` is left out, because it is not executed code.
- Thumbnail creation and removal are left out, since they are DOM work. The ids they use come from `Slug.Slugify`.
- Text is modelled as ASCII. The characters `trim` and `\s` treat as whitespace are space, tab, line feed, vertical tab, form feed and carriage return. Non-ASCII whitespace is not modelled.
- Slug.ToLower: does not model the lower-casing of non-ASCII letters, because the model treats text as ASCII. For the same reason `\w` is taken as ASCII letters, digits and underscore, as JavaScript defines it.
- Text.Less: orders strings by character, which agrees with the UTF-16 code-unit order of `sort` on the Basic Multilingual Plane. Characters outside it are not modelled.
- Selection.Toggle: takes the card's `selected` class as the parameter `cardSelected`, because the card element is not modelled. `Selection.RenderAfterToggle` ties it to the list for the next rendering.
- The swipe-deck variant of the page is not part of this model.
