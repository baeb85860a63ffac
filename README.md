# Greyhawk calendar engine in Dafny

This project models the calendar engine of the Greyhawk campaign site and proves properties of the model. The engine lives in scripts/calendar.js. A small item-grouping core comes from scripts/render-sheet.js.

The World of Greyhawk calendar has 16 months:
- four 7-day festivals: Needfest, Growfest, Richfest and Brewfest;
- twelve 28-day months.

Together they make a 364-day year of exactly 52 weeks.

The engine does the following:
- It computes weekdays from prefix sums of month lengths.
- It looks up the campaign events and recurring holidays on a date.
- It sorts the campaign events into a timeline and buckets them by year.
- It lists the holidays season by season.
- It keeps the in-memory stores of events and characters. The admin form appends to these stores, and the JSON loader replaces them.

Modules, in dependency order:

- `Wrappers`: `Option`.
- `Seqs`: `Array.prototype.filter` as `Filter`, and the stable, comparator-driven `Array.prototype.sort` as a stable insertion sort `SortBy`. It proves the sort's ordering, that it permutes its input, and that it is stable.
- `Calendar`: the month, holiday and weekday tables, the weekday arithmetic, and the day choices of the admin form.
  - JavaScript's truncating `%` is written out as `JsRem7`.
- `Events`: campaign events, holiday ids (`"holiday-"` plus the slug of the name), holiday entries, and the value that `findEvents` computes.
- `Timeline`: the chronological comparator, the decimal year keys, the text order that `Object.keys(...).sort()` uses, and year buckets.
- `HolidayList`: the (month, day) holiday sort and the four-season split.
- `Campaign`: the class `CampaignStore`, whose fields `events` and `characters` stand for `CAMPAIGN_EVENTS` and `CHARACTERS`.
  - It has the methods `FindEvents`, `GenerateTimeline`, `SaveAdminContent` and `LoadCampaignData`.
- `CharacterSheet`: `groupItemsByContainer`, the quantity default, and the upload merge.

The program has no conversion between dates and day ordinals. `Calendar.Ordinal` is a yardstick that only the lemmas use: it shows that the weekday formulas and the comparator agree with a plain day count. Nothing in the model converts back from an ordinal.

`Campaign.CampaignStore.GenerateTimeline` returns both year orders of the finding below. `keyOrder` is the as-written listing: the bucket keys in text order. `yearOrder` is the corrected listing: the years in ascending numeric order. The two coincide when every year is non-negative and has the same number of digits.

## Model

| member | source | states |
|---|---|---|
| Calendar.MonthTable | scripts/calendar.js:10-27 | 16 months and 7 weekday labels; each month's id is its index; months 0, 4, 8 and 12 are the festivals and have 7 days; every other month has 28 |
| Calendar.FindMonthIn | scripts/calendar.js:119 | `find` returns the first month with the id, and `undefined` (None) only when no month has it |
| Calendar.FindMonthInPositional | scripts/calendar.js:119 | in a table whose ids count up from its first id, the lookup returns the month at position id − first, and None outside the table |
| Calendar.FindMonth | scripts/calendar.js:119 | looking a month up by id succeeds exactly for ids 0..15 and returns the month at that index |
| Calendar.JsRem7 | scripts/calendar.js:633 | the JavaScript remainder by 7: it differs from the dividend by a multiple of 7; it is in [0,7) for a non-negative dividend and in (-7,0] for a negative one |
| Calendar.DaysBeforeClosedForm | scripts/calendar.js:627-630 | the days in the months before month m total 7·(4m − 3·⌈m/4⌉) |
| Calendar.DaysBeforeWholeWeeks | scripts/calendar.js:627-630 | that prefix sum is a non-negative whole number of weeks |
| Calendar.YearIsWholeWeeks | scripts/calendar.js:618-619 | a year has 364 = 52·7 days |
| Calendar.DaysBeforeMonotone | scripts/calendar.js:627-630 | a later month begins after an earlier month ends |
| Calendar.YearStartDay | scripts/calendar.js:612-621 | the constant start weekday 0 agrees with the day count: it is the first day of the year's count from the epoch, mod 7 |
| Calendar.EveryMonthStartsOnYearStart | scripts/calendar.js:624-634 | for a non-negative year start, every month starts on weekday `yearStartDay % 7` |
| Calendar.EveryMonthStartsOnStarday | scripts/calendar.js:612-634 | every month of every year starts on Starday |
| Calendar.DateWeekdayClosedForm | scripts/calendar.js:122-127 | the banner's weekday of (month, day) is (day − 1) mod 7 and lies in [0,7) |
| Calendar.FestivalWeekday | scripts/calendar.js:572-575 | the festival layout's weekday formula gives (day − 1) mod 7, the banner's weekday, for every month and day from 1 on |
| Calendar.DateWeekdayIsOrdinalWeekday | scripts/calendar.js:122-127 | the weekday of any day of a month is its day count from the epoch mod 7, in every year |
| Calendar.CalculateMonthStartDay | scripts/calendar.js:624-634 | the summing loop returns the month-start weekday; it is in [0,7) for a non-negative year start |
| Calendar.CurrentDateWeekday | scripts/calendar.js:122-127 | the summing loop returns the banner's weekday; it is in [0,7) from day 1 on |
| Calendar.SumMonthDays | scripts/calendar.js:627-630 | the month-length loop ends with the day count of all months before the given one |
| Calendar.CountDays | scripts/calendar.js:398-403 | the option loop yields exactly the days 1 up to the month's length, in order |
| Calendar.DayOptions | scripts/calendar.js:392-404 | the day choices for a month are 1, 2, …, days(m) in order: exactly the valid days of that month |
| Events.Slugify | scripts/calendar.js:645 | the slug has the name's length and holds no whitespace and no capital letter |
| Events.HolidayId | scripts/calendar.js:645 | the id is `holiday-` followed by the slug of the name, 8 characters longer than the name |
| Events.SlugifyAt | scripts/calendar.js:645 | each character is mapped on its own: whitespace becomes `-`, capitals become lower case |
| Events.SlugifyIdempotent | scripts/calendar.js:645 | slugifying a second time changes nothing: the slug of a slug is the slug itself |
| Events.MidwinterId | scripts/calendar.js:645 | "Midwinter's Night" gets the id `holiday-midwinter's-night` |
| Events.HolidayEntries | scripts/calendar.js:642-655 | no more entries than holidays; every entry is of type `holiday` and is stamped with the queried year, month and day |
| Events.HolidayEntriesAppend | scripts/calendar.js:642-655 | entries come in holiday-table order: a split table gives the concatenated entries |
| Events.HolidayEntriesExact | scripts/calendar.js:643-654 | there is an entry for a holiday exactly when its month and day match; each entry carries the holiday's name and id |
| Events.HolidayEntriesRecur | scripts/calendar.js:650 | holidays recur: querying another year gives the same entries, with the year changed |
| Events.EventsOn | scripts/calendar.js:637-662 | the lookup gives the store's events on the date, in store order, followed by the holiday entries |
| Events.EventsOnExact | scripts/calendar.js:658-661 | every result falls on the queried date; a store event is in the result exactly when its year, month and day match; every matching holiday is there |
| Events.MidwinterScenario | scripts/calendar.js:642-655 | day 4 of Needfest 568 CY yields exactly the Midwinter's Night entry; day 5 yields none |
| Seqs.SortBySorted | scripts/calendar.js:735-739 | for a total, transitive comparator, the sort's output is ordered by it |
| Seqs.SortByStable | scripts/calendar.js:735-739 | elements that the comparator ties keep their input order |
| Timeline.CompareChronologically | scripts/calendar.js:735-739 | the comparator is negative exactly when the first event's (year, month, day) comes first, and zero exactly on the same date |
| Timeline.ChronoLeTotalPreorder | scripts/calendar.js:735-739 | the timeline comparator is total and transitive |
| Timeline.ChronoLeIsOrdinalOrder | scripts/calendar.js:735-739 | for valid dates, the (year, month, day) comparator orders events by day count |
| Timeline.SortChronologicallySpec | scripts/calendar.js:735-739 | the sorted timeline is ascending, is a permutation of the store, and keeps store order among events of the same date |
| Timeline.NatToDecimal | scripts/calendar.js:745 | a year's key text is made of digits, spells the number's value, has no leading zero, and has one digit exactly for years below 10 |
| Timeline.YearKey | scripts/calendar.js:745 | a key is never empty, and it starts with a minus sign exactly for negative years |
| Timeline.YearKeyValue | scripts/calendar.js:745 | a key spells its year: the year itself, or a minus sign followed by its magnitude |
| Timeline.StrLeLexicographic | scripts/calendar.js:751 | the text order of `sort()` is the lexicographic order: a prefix comes first, otherwise the smaller character at the first difference decides (exact on the keys' alphabet of `-` and digits) |
| Timeline.StrLeTotalPreorder | scripts/calendar.js:751 | the text order of `sort()` is total and transitive |
| Timeline.StrLeAntisymmetric | scripts/calendar.js:751 | two texts ordered both ways are equal |
| Timeline.DecimalOrder | scripts/calendar.js:751 | keys of equal width compare as texts the way their numbers compare |
| Timeline.YearKeyInjective | scripts/calendar.js:745-748 | different years get different bucket keys |
| Timeline.YearKeyOrderSameWidth | scripts/calendar.js:751 | for non-negative years with keys of the same width, the key order is the year order |
| Timeline.YearKeyOrderNotChronological | scripts/calendar.js:751 | as written, the key "100" sorts before "99" |
| Timeline.YearBucketOwnYear | scripts/calendar.js:743-748 | an event is in a year's bucket exactly when it is that year's event |
| Timeline.ChronologicalYearOrder | scripts/calendar.js:751 | corrected: years are listed in ascending numeric order, each one kept |
| Timeline.KeyListing | scripts/calendar.js:751 | `Object.keys(...).sort()` lists the same keys, in text order |
| Timeline.KeyListingAnyOrder | scripts/calendar.js:751 | the listing of distinct keys does not depend on the order in which the keys are handed to `sort` |
| Timeline.KeyOrderChronologicalSameWidth | scripts/calendar.js:751 | for distinct non-negative years whose keys have the same width, text order and numeric order agree pair by pair, and the as-written listing equals the corrected years written as keys |
| Timeline.ListingNotChronological | scripts/calendar.js:751 | as written, years 99 and 100 are listed as "100", "99" |
| Timeline.ChronologicalListing | scripts/calendar.js:751 | corrected, years 99 and 100 are listed as "99", "100" |
| HolidayList.CompareHolidays | scripts/calendar.js:210-213 | the comparator is negative exactly when the first holiday's (month, day) comes first, and zero exactly on the same date |
| HolidayList.SortHolidays | scripts/calendar.js:210-213 | the sorted holidays are a permutation of the table and ascend by (month, day) |
| HolidayList.ExactlyOneSeason | scripts/calendar.js:216-224 | a holiday in months 0..15 is in exactly one season, season month / 4; a holiday in any other month is in none |
| HolidayList.BySeasonIsSorted | scripts/calendar.js:210-224 | reading the seasons one after another gives the sorted list back: nothing is lost or repeated, and the order is kept |
| HolidayList.Sections | scripts/calendar.js:223-229 | no more sections than seasons; no section is shown empty; every section is a season's name over exactly that season's holidays |
| HolidayList.SectionHeadingsDistinct | scripts/calendar.js:223-229 | seasons with distinct names give sections with distinct headings |
| HolidayList.SeasonHeadingsShownOnce | scripts/calendar.js:216-229 | each of the four season headings is shown at most once |
| HolidayList.ShownHolidays | scripts/calendar.js:205-253 | the list shows each holiday once, in (month, day) order, under non-empty season headings |
| HolidayList.GenerateHolidaysList | scripts/calendar.js:223-227 | the season loop builds exactly the non-empty sections, in season order |
| Campaign.WithHolidayEntries | scripts/calendar.js:639-655 | the pushed copy is the store followed by the holiday entries of the date |
| Campaign.FilterOnDate | scripts/calendar.js:658-661 | the filter loop keeps exactly the events on the date, in order |
| Campaign.CampaignStore.constructor | scripts/calendar.js:3-7 | both stores start empty |
| Campaign.CampaignStore.FindEvents | scripts/calendar.js:637-662 | the result is the store's events on the date, then the holiday entries; the store is not modified |
| Campaign.FileByYear | scripts/calendar.js:742-748 | after the walk there is one bucket per year key met, each holding its events in walk order, and each year is recorded once |
| Campaign.FilingIsFiled | scripts/calendar.js:742-748 | walking the sorted events one by one ends with one bucket per year key, holding that key's events, and each year met listed once |
| Campaign.FileStep | scripts/calendar.js:744-748 | pushing one event onto its bucket, and creating the bucket if needed, keeps that state |
| Campaign.CampaignStore.GenerateTimeline | scripts/calendar.js:730-751 | the sorted events; one bucket per year key, each being that key's sorted events; as written, the bucket keys, each once, in text order; corrected, the years that occur, each once, ascending; the two agree when all years are non-negative and of the same width |
| Campaign.KeyListingOfFiled | scripts/calendar.js:751 | the text-order listing of the filed years' keys names every bucket exactly once |
| Campaign.TimelineBuckets | scripts/calendar.js:743-760 | each year's bucket is non-empty, chronologically sorted, and holds exactly that year's events |
| Campaign.YearListing | scripts/calendar.js:751 | the listed years are the years met, strictly ascending |
| Campaign.CampaignStore.SaveAdminContent | scripts/calendar.js:407-446 | an empty title saves nothing; the type "character" appends one NPC and leaves the events alone; any other type appends one event of that type, year, month and day, and leaves earlier entries and the characters unchanged |
| Campaign.CampaignStore.LoadCampaignData | scripts/calendar.js:54-88 | a loaded response replaces its store with exactly the loaded items in order; a response that is not ok leaves its store alone; a rejection of the events request stops the load before the characters |
| CharacterSheet.ContainerKey | scripts/render-sheet.js:14 | the group key is never empty; it is `Loose Items` or the item's own parent name |
| CharacterSheet.ContainerKeyCases | scripts/render-sheet.js:14 | a present, non-empty parent is the key; a missing system, a missing location, a missing parent or an empty parent all give `Loose Items` |
| CharacterSheet.FirstSeenKeys | scripts/render-sheet.js:13-16 | the groups in creation order: no key twice, and exactly the keys of the items |
| CharacterSheet.GroupItemsByContainer | scripts/render-sheet.js:11-19 | the groups are exactly the keys met, created in first-seen order; each group holds that key's items in input order |
| CharacterSheet.GroupingIsGrouped | scripts/render-sheet.js:11-19 | pushing items one by one ends with the groups in first-met order, each holding its container's items |
| CharacterSheet.ItemInOneGroup | scripts/render-sheet.js:13-16 | an item is in a group exactly when the group is its own container's, and that group exists |
| CharacterSheet.GroupNonEmpty | scripts/render-sheet.js:15-16 | no group is empty |
| CharacterSheet.GroupSizesCover | scripts/render-sheet.js:11-19 | over distinct keys that cover every item, the group sizes add up to the number of items |
| CharacterSheet.GroupSizesSum | scripts/render-sheet.js:11-19 | the sizes of the groups add up to the number of items |
| CharacterSheet.DisplayQuantity | scripts/render-sheet.js:44 | a given quantity is shown as is; 1 is shown only when no quantity (or no system) is given |
| CharacterSheet.ZeroQuantityKept | scripts/render-sheet.js:44 | a quantity of 0 is shown as 0 |
| CharacterSheet.MergeUploads | scripts/render-sheet.js:102 | the merged list is the stored characters, unchanged, followed by the new ones in file order |

## Left out

- Rendering is not modelled: the DOM building of the calendar grid, the timeline, the holiday list, the event modal and the character cards; `makeDraggable`; event wiring; `clearAdminForm`; `alert` and `console`. This is presentation only.
- `fetch`, `await`, `response.json()`, `Promise.all`, `file.text()`, `JSON.parse`/`stringify` and `localStorage` are not modelled. They are I/O. A request's outcome is a `Fetch` value passed in, and the stores are in-memory sequences.
- `Date.now()` in the generated ids is an opaque `stamp` parameter.
- `parseInt` of the admin form's fields is not modelled, including a `NaN` result. Years, months and days are integers.
- Loaded JSON is assumed to have the event and character shape with numeric date fields. Data with string dates would never match `===` in the real lookup, and that case is not modelled.
- The constant holiday table stands for `GREYHAWK_HOLIDAYS`. The optional loading of custom holidays is commented out in the source and is not modelled.
- Events.Slugify: lower-casing covers only the ASCII capitals. `toLowerCase` on other letters (accented, Greek, …) is not modelled. The built-in holiday names are plain ASCII.
- Timeline.NatToDecimal: keys are plain decimal text. JavaScript's exponent form for numbers of 10^21 and above is not modelled.
- Timeline.StrLe compares characters as Unicode scalar values, while `sort()` compares UTF-16 code units. The two orders differ only where a character outside the Basic Multilingual Plane meets one from U+E000 to U+FFFF. Year keys hold only a minus sign and digits.
- The order in which `Object.keys`/`Object.entries` hand over the keys of `grouped` and `eventsByYear` is not modelled: integer-like keys come first, in ascending numeric order, and the other keys follow in insertion order. The timeline sorts its keys afterwards, and Timeline.KeyListingAnyOrder shows that the result does not depend on the order they arrive in. For item groups, `order` is the creation order.
- CharacterSheet.GroupItemsByContainer: a container named after an inherited object property, such as `constructor` or `toString`, makes the real `grouped[container]` truthy but not an array, so its `push` fails. That case is not modelled: every key is treated as fresh.
- CharacterSheet.ContainerKey: a parent that is a non-string JSON value (a number, `false`) is not modelled. Such a value is truthy or falsy by JavaScript's rules.
- The garbled text at scripts/calendar.js:129-140 and the stray brace at scripts/calendar.js:480 are not coherent code and are not modelled.
- Calendar.CalculateMonthStartDay and Calendar.CurrentDateWeekday require a month id up to 16. The source reads `GREYHAWK_MONTHS[i].days` past the table for larger ids and throws.
- Calendar.DayOptions requires a month id of the table (0 to 15). `month.days` on a failed lookup throws in the source.

## Findings

| source | as written | input that shows it | evidently intended | confidence | as-written member | corrected member |
|---|---|---|---|---|---|---|
| scripts/calendar.js:751 | `Object.keys(eventsByYear).sort()` orders the year buckets as text | events in 99 CY and 100 CY: the bucket "100" is shown before "99" | years shown in ascending numeric order | high; not executed | Timeline.ListingNotChronological | Timeline.ChronologicalYearOrder |
