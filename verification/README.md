# FileLocator record engine in Dafny

FileLocator is a browser tool that remembers where physical or digital files are
kept. Each record has a title, a storage location and free-form information. This
project models the record logic of `script.js`:

- **Import**: the merge step of `importFiles`. Imported records whose id is
  already stored are dropped. The rest are appended, and the count is reported.
- **Store**: the three mutations `addFile`, `performEdit` and `performDelete`.
  Each takes the loaded list and returns the list to save, or the reason
  nothing is saved.
- **Query**: the three-field, case-insensitive substring filter of
  `displayAllFiles`.
- **Timeline**: the results view of `displayAllFiles`.
  - Matches are sorted newest first.
  - They are filed into a year → "Month Year" → records dictionary.
  - Years are read back largest first. Months keep the order they were filed in.
- **Escape**: `escapeHtml` and its inverse.

Modules:

| module | file | contents |
|---|---|---|
| `Results` | results.dfy | `Option` and `Result` |
| `Seqs` | seqs.dfy | subsequences, `Filter` (`Array.prototype.filter`), key membership, ordering predicates |
| `Text` | text.dfy | `String.prototype.trim` (the JavaScript white-space set), ASCII lower-casing, `includes`, decimal rendering of years |
| `Escape` | escape.dfy | `escapeHtml` and its inverse |
| `Records` | records.dfy | the record, its timestamp, `getYear` and `getMonthYear` |
| `Store` | store.dfy | add, edit, delete |
| `Import` | merge.dfy | merge-on-import |
| `Query` | search.dfy | the search filter |
| `Sorting` | sorting.dfy | the stable sort `Array.prototype.sort` performs, as a descending insertion sort |
| `Grouping` | grouping.dfy | a dictionary whose keys keep insertion order (as a JavaScript object keeps string keys such as the month labels), modelled as a sequence of keyed groups |
| `Timeline` | timeline.dfy | the nested year/month listing and the whole results view |

A timestamp is the triple `Timestamp(instant, year, month)`:

- `instant` is what subtracting two `Date`s compares.
- `year` and `month` are what `getFullYear` and `getMonth` return.

The clock and the id source (`Date.now()`, `new Date()`) are parameters of the
operations that use them. The edit prompts are `Option<string>` parameters;
`None` is a dismissed prompt.

## Model

| member | source | states |
|---|---|---|
| Import.Novel | script.js:43-44 | The imported records kept are exactly those whose id no stored record carries. Import order is kept, and each is kept as many times as it was imported. |
| Import.Merge | script.js:43-49 | The stored list comes first and is unchanged. What follows is the imported records with a new id, in import order, with their multiplicities. The reported count is the number appended. The id set of the result is the union of both id sets. |
| Import.MergeById | script.js:43-46 | Per id, the merge is all or nothing. A stored id keeps exactly its stored records. A new id brings every imported record carrying it, duplicates included. |
| Import.MergeNothingNew | script.js:43-49 | Importing only stored ids, or nothing, leaves the store as it was and reports zero. |
| Import.MergeIdempotent | script.js:43-49 | Importing the same file twice adds nothing the second time. |
| Import.MergeKeepsIdsUnique | script.js:43-46 | If stored ids are unique and imported ids are unique, the merged ids are unique. |
| Import.MergeExample | script.js:43-49 | Stored id 1, imported ids 1 and 2: the stored record 1 stays, record 2 is appended, and the count is 1. |
| Text.Includes | script.js:160-162 | True exactly when the query occurs as a contiguous substring at some position. |
| Text.Trim | script.js:96-98 | The result is the slice of the input with no white space at either end. Everything before and after it is white space. |
| Text.TrimIsUnique | script.js:96-98 | Only one string is the trimmed form of a given input. |
| Text.TrimEmptyIffBlank | script.js:100 | Trimming leaves nothing exactly when every character is white space. |
| Text.TrimIdempotent | script.js:96-98 | Trimming a trimmed string changes nothing. |
| Query.Matches | script.js:159-163 | The filter predicate holds exactly when the lower-cased query occurs in the lower-cased title, location or information. |
| Query.Search | script.js:157-163 | The result keeps source order. It holds exactly the records that mention the query, each as many times as it is stored. |
| Query.SearchAfterDelete | script.js:294-297 | Searching after a delete equals searching first and then dropping the deleted id. |
| Query.SearchIdempotent | script.js:157-163 | Searching the results again for the same query returns them unchanged. |
| Store.Add | script.js:95-114 | Refuses exactly when the title or location trims to nothing. Otherwise it appends one record, leaving the stored ones untouched. The new record has the given id and time, no update time, trimmed fields, and a non-empty title and location. |
| Store.FindIndex | script.js:245-247 | Absent exactly when no record carries the id. Otherwise it is the first position carrying it. |
| Store.Edit | script.js:243-274 | Not-found exactly when the id is absent. Prompts are checked in order: a dismissed prompt cancels, and an empty trimmed title or location refuses. It succeeds exactly when all three prompts are answered with a non-blank title and location. On success, only the first record with that id changes: its three text fields are replaced by their trimmed values and it is stamped as updated. Its id and creation time stay. |
| Store.Delete | script.js:294-297 | Keeps source order and every record not carrying the id. Its length drops by the number carrying the id, and the id leaves the id set. An absent id changes nothing. |
| Store.DeleteIdempotent | script.js:296 | Deleting an id twice is the same as deleting it once. |
| Store.DeleteUndoesAdd | script.js:294-297 | Deleting the id of a freshly added record, when that id was new, restores the store. |
| Store.AddKeepsIdsUnique | script.js:106-107 | Adding with an id not yet stored keeps ids unique. |
| Store.EditKeepsIdentity | script.js:268-274 | A successful edit keeps the list's length and its sequence of ids. |
| Store.AddKeepsValidated | script.js:96-112 | If every stored record has trimmed fields and a non-empty title and location, this still holds after an add. |
| Store.EditKeepsValidated | script.js:250-274 | The same invariant holds after an edit. |
| Store.DeleteKeepsValidated | script.js:296 | The same invariant holds after a delete. |
| Records.MonthLabelWithinYear | script.js:132-137 | Within one year, two records share a "Month Year" label exactly when they share a month. |
| Sorting.SortDesc | script.js:176 | The result is a permutation of the input and is ordered newest first. |
| Sorting.SortStable | script.js:176 | Records with equal keys keep their relative input order. |
| Sorting.StableSortIsUnique | script.js:176 | Every stable, non-increasing permutation of the input equals this sort. Any stable sort engine therefore gives the same listing. |
| Sorting.SortOrderedIsIdentity | script.js:176 | An already ordered list is returned unchanged. |
| Sorting.SortDistinctIgnoresOrder | script.js:193 | When no two elements share a rank, every rearrangement of the input sorts to the same result. |
| Sorting.SortAscending | script.js:176 | A strictly ascending list comes back reversed. |
| Grouping.GroupByPartitions | script.js:178-190 | Filling a dictionary in insertion order gives non-empty buckets with distinct keys. Each bucket holds, in source order, exactly the records of its key. Keys appear in order of first occurrence. |
| Grouping.RankedGroupByFlattens | script.js:178-190 | When the input is already ordered by a rank that decides the key, reading the buckets back in order gives the input. |
| Grouping.RankedGroupByOrder | script.js:178-190 | Under the same condition, the buckets run from the highest rank to the lowest. |
| Timeline.AccumulateIsNested | script.js:178-190 | The single pass that fills the nested year/month dictionary equals grouping by year, then grouping each year by month label. |
| Timeline.GroupByTime | script.js:176-193 | The years of the listing are strictly descending. |
| Timeline.YearContents | script.js:178-199 | Every listed year holds the records of that year, newest first. They are grouped by month label, with the labels in order of first occurrence. |
| Timeline.YearsListed | script.js:178-193 | The listed years are exactly the creation years of the records. |
| Timeline.GroupByTimeKeepsRecords | script.js:176-199 | Reading the listing year by year and month by month gives back every record, each exactly as many times. |
| Timeline.Chronological | script.js:176-199 | With coherent calendar fields, the listing reads back as the records sorted newest first, and within each year the months run latest first. |
| Timeline.Display | script.js:146-199 | An empty query shows the placeholder. A query no record mentions shows "No files found". Otherwise the match count is shown, with every match listed once per occurrence, and the listing is the year/month listing of the matches, so everything proved about `GroupByTime` holds for the view. |
| Timeline.YearOrderUnobservable | script.js:193 | Whatever order the dictionary yields its years in, sorting them largest first gives the same listing. |
| Timeline.ThreeMonthsExample | script.js:176-199 | Records from March 2023, November 2023 and January 2024 list January 2024 first. Then comes 2023, with November before March. |
| Escape.EscapeHtml | script.js:310-319 | The output contains none of `<`, `>`, `"`, `'` and is never shorter than the input. |
| Escape.UnescapeEscapeHtml | script.js:310-319 | Decoding the five entities inverts the escaping exactly. |

## Left out

- Persistence is not modelled: `localStorage` and JSON encoding (script.js:1-15). Operations take and return the record list instead.
- Export and import file handling is not modelled: file picking, reading and JSON parsing (script.js:18-39 and 50-56). Only the merge of an already-parsed list of records is modelled. A file that parses to something else, where `filter` would throw, is not.
- HTML rendering, status messages, alerts, modals, the password gate and the `pendingAction` globals are not modelled. They are user-interface effects with no bearing on the data.
- The clock is not modelled. `Date.now()`, ISO date strings, time-zone conversion and invalid dates (a `NaN` year key) become the parameters `newId` and `now`, and the `Timestamp` triple.
- Records.MonthLabel: the year is rendered as a decimal string. Locale-dependent formatting is not modelled.
- Text.Lower: lower-cases ASCII letters only. JavaScript's `toLowerCase` maps all of Unicode, which is not modelled.
- Timeline.Chronological: assumes the calendar fields agree with the instants (`CalendarCoherent`). A real clock in one time zone gives that; arbitrary triples need not.
- Store.Edit: the three prompt answers are parameters supplied up front. The script reads them one at a time, but the model checks them in the same order and with the same early exits.
- Search on a white-space-only query: the script only skips the empty string (script.js:146), so it searches a blank query; `Timeline.Display` shows the placeholder only for the empty query.
- Timeline.Accumulate: lists the years in the order they are first met. `Object.keys` on the script's object lists non-negative integer years in ascending numeric order instead (script.js:183-193). The difference cannot be seen, because script.js:193 re-sorts the years before display; `Timeline.YearOrderUnobservable` proves any order gives the same listing.
- Timeline.Display: the HTML of each year and month section is not modelled. The view is the structured listing that the HTML renders.
