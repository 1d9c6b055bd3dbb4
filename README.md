# Pharmacy chalkboard: task selection and the admin task list

This project models the pure logic of two pages of a pharmacy's "chalkboard"
web app.

- **Kiosk board** (`pages/index.js`). An iPad shows today's tasks and the staff.
  - The board keeps the active task rows that are due today. "daily" tasks are
    due every day, "weekly" tasks on the listed weekdays and "dated" tasks on
    their date. Any other recurrence is never due.
  - It orders those rows by `String(due_time)`.
  - It draws a time label and a kind label for each task, and initials for each
    staff member.
- **Admin page** (`pages/admin.js`).
  - Rows of the task table get safe defaults.
  - They are sorted by sort index, then by title.
  - The list is narrowed by a search box and by frequency and active filters.
  - Three formatters show the frequency, its detail and the due time.

The files:

- `js.dfy` (module `Js`) holds the JavaScript values these pages handle:
  - a `Value` datatype, with truthiness, `??` and `String(v)`;
  - `trim`, `split(":")` and `split(/\s+/)`;
  - `includes` on strings, and ASCII case mapping;
  - the string order that stands in for `localeCompare`.
- `sequences.dfy` (module `Sequences`) holds `Array.prototype.filter` and a
  stable `Array.prototype.sort`.
  - The sort is given by a reference definition `Sort`, which is a stable
    insertion sort.
  - An in-place `InsertionSort` method on an array is proved equal to `Sort`.
  - `Sort` is proved to be a permutation, ordered by the comparator, stable and
    idempotent.
- `kiosk.dfy` (module `Kiosk`) models the kiosk board.
- `admin.dfy` (module `Admin`) models the admin page.

The clock is not modelled. The weekday `dow` and the date `todayYMD` that the
board reads from the Perth clock are parameters. The rows returned by the
database query are parameters too.

## Model

| member | source | states |
|---|---|---|
| Kiosk.IsDueToday | pages/index.js:71-82 | An inactive task is never due. Only "daily", "weekly" and "dated" tasks can be due (fail-closed). An active daily task is always due. A weekly task is due iff it is active and `days_of_week` is an array holding `dow`. A dated task is due iff it is active and `due_date` equals `todayYMD`. |
| Kiosk.DatedShowsOnOneDate | pages/index.js:78-80 | A dated task is due on at most one date. |
| Kiosk.DueDependsOnlyOnRule | pages/index.js:71-82 | Whether a task is due depends on the weekday only for weekly tasks, and on the date only for dated tasks. |
| Kiosk.SelectDue | pages/index.js:71-82 | The selection is an order-preserving subsequence of the rows. Every selected row is due. Every due row is kept as many times as it occurs in the rows, and no other row is kept. |
| Kiosk.RowsOf | pages/index.js:71 | The rows the filter starts from: none when the query returned no data, and otherwise the rows as the query returned them. |
| Kiosk.DueTimeLe | pages/index.js:84 | The comparator `String(a.due_time).localeCompare(String(b.due_time)) <= 0` puts any two tasks one way round or the other. |
| Kiosk.DueTimeOrderConsistent | pages/index.js:84 | Comparing `String(due_time)` is a total preorder, so `sort` is well defined. |
| Kiosk.SortByDueTime | pages/index.js:84 | The in-place sort leaves exactly the stable sort of the old contents. The result is ordered by `String(due_time)` and is a permutation of the input. |
| Kiosk.TodaysTasks | pages/index.js:56-85 | The error message is cleared first. On an error it becomes the error's message and the list shown so far stays. Otherwise the list is the stable sort by `String(due_time)` of the due rows. It is ordered, it is a permutation of the selection, and every entry is due today. A missing `data` gives no rows. |
| Kiosk.UntimedAfterClockTimes | pages/index.js:84 | In the sorted list, every task whose due time is null or undefined comes after every task whose due time starts with a digit. |
| Kiosk.TimeLabel | pages/index.js:147 | The label is "" for a falsy due time. Otherwise it is the first `min(5, length)` characters of `String(due_time)`. |
| Kiosk.KindLabelNamesRule | pages/index.js:148-160 | For a task on the board, the kind label is "Daily", "Weekly" or "Specific date" exactly when the recurrence is daily, weekly or dated. Only dated tasks are highlighted. |
| Kiosk.KindLabel | pages/index.js:160 | The kind label is one of "Daily", "Weekly" and "Specific date". It is "Specific date" exactly for dated tasks and "Weekly" exactly for weekly ones. |
| Kiosk.IsHighlighted | pages/index.js:148-154 | A row is highlighted exactly when its kind label is "Specific date". |
| Kiosk.InitialsOfBlank | pages/index.js:26-32 | A falsy or whitespace-only name gives "". |
| Kiosk.InitialsOneWord | pages/index.js:26-32 | A one-word name gives its first character, upper-cased. |
| Kiosk.InitialsSeveralWords | pages/index.js:26-32 | A name of several words gives the upper-cased first characters of the first word and of the word after the last whitespace. |
| Kiosk.Initials | pages/index.js:26-32 | A falsy name gives "". Initials are never longer than two characters and hold no lower-case ASCII letter. |
| Kiosk.InitialsOfWords | pages/index.js:28-31 | The upper-cased first and last initials of the split words hold no lower-case ASCII letter. |
| Kiosk.OneWordInitials | pages/index.js:28-31 | On a non-empty trimmed name without whitespace, the initials are its first character, upper-cased. |
| Kiosk.WordsInitials | pages/index.js:28-31 | On a trimmed name with a last whitespace at k, the two characters taken are the first one and the one at k+1. |
| Admin.Normalize | pages/admin.js:99-111 | Field-by-field defaults. `id` is copied. A null `title` becomes "". `active` defaults to true unless it is a boolean. `points` defaults to 1 unless it is a number. `sort_index` defaults to 1000 unless it is a number. `weekly_day` is kept only when it is a number. `due_time`, `frequency`, `days_of_week`, `day_of_month` and `specific_date` are kept when not nullish and become null when nullish. |
| Admin.NormalizeAll | pages/admin.js:99 | Missing data gives no rows. Otherwise there is one normalised row per row, in order. |
| Admin.NormalizeWellTyped | pages/admin.js:99-111 | A row that already has the normalised types is unchanged by normalisation. |
| Admin.NormalizeIdempotent | pages/admin.js:99-111 | Normalisation always produces such a row, so normalising twice is normalising once. |
| Admin.Compare | pages/admin.js:114-118 | The comparator is negative iff the sort index is smaller, or the indices are equal and the title comes first. It is zero iff both the index and the title are equal. |
| Admin.AdminLe | pages/admin.js:114-118 | `cmp(a, b) <= 0`, "a may stay in front of b", holds iff a has a smaller sort index, or an equal index and a title that is not greater. |
| Admin.AdminOrderConsistent | pages/admin.js:114-118 | The comparator is a total preorder. |
| Admin.SortTasks | pages/admin.js:114-118 | The in-place sort leaves exactly the stable sort of the old contents. The result is ordered by index, then title, and is a permutation of the input. |
| Admin.LoadTasks | pages/admin.js:94-121 | On an error the list is empty and the message is the error's, or "Failed to load tasks" when it has none. Otherwise the message is "", and the list is the normalised rows, sorted and permuted. |
| Admin.FilterTasks | pages/admin.js:131-156 | The result is an order-preserving subsequence. Every kept row matches the query, frequency and active filters. Every matching row is kept as many times as it occurs, and no other row is kept. |
| Admin.MatchesQuery | pages/admin.js:135-137 | A non-empty query matches iff the lower-cased trimmed query is included in the lower-cased title. A whitespace-only query, like the empty one, matches every row. |
| Admin.MatchesFrequency | pages/admin.js:140-143 | "all" matches every row. Otherwise a row matches only when its frequency is the filter value, or it has no frequency and the filter is "none". A row whose frequency is a non-empty string equal to the filter value always matches. |
| Admin.MatchesActive | pages/admin.js:146-151 | "all" matches every row. Any other value matches exactly the active rows when it is "active", and exactly the inactive rows otherwise. |
| Admin.Matches | pages/admin.js:133-153 | A row is shown exactly when it passes all three tests. The query test: the query is empty, or the title contains the trimmed query, case-insensitively. The frequency test: the filter is "all", or the row's non-empty frequency equals the filter, or it has no frequency and the filter is "none". The active test: the filter is "all", or the row is active exactly when the filter is "active". A blank query with both filters at "all" shows every row. |
| Admin.NoFilterKeepsAll | pages/admin.js:135-151 | With an empty query and both filters at "all", the list is unchanged. |
| Admin.BlankQueryFiltersNothing | pages/admin.js:135-137 | A whitespace-only query filters exactly like the empty query, because emptiness is tested before trimming. |
| Admin.QueryIsSubstringSearch | pages/admin.js:135-137 | A non-empty query keeps a row iff the lower-cased trimmed query occurs at some position of the lower-cased title. |
| Admin.NoFrequencyIsNone | pages/admin.js:140-143 | A row without a frequency matches "none" and no other filter value except "all". |
| Admin.ActiveFilterPartitions | pages/admin.js:146-151 | "active" keeps exactly the active rows, and "inactive" exactly the inactive ones. |
| Admin.FreqPretty | pages/admin.js:6-20 | One of the five keys gives its label. Anything else, including a missing frequency, gives "—". |
| Admin.FreqLabel | pages/admin.js:6-12 | `FREQ_LABELS` has a label exactly for the five frequencies, and no label is empty or the dash. |
| Admin.OwnKeysNotInherited | pages/admin.js:6-12 | None of the five frequencies is a name inherited from Object.prototype. |
| Admin.FreqPrettyInheritedMember | pages/admin.js:16-20 | As written, frequency "toString" reads an inherited member of `FREQ_LABELS`, and the formatter returns it instead of "—". The corrected formatter returns "—". |
| Admin.FreqLabelsRead | pages/admin.js:6-19 | The property read `FREQ_LABELS[f]` gives a label exactly for the five own keys, and an inherited member exactly for the names inherited from Object.prototype. Any other name gives undefined. |
| Admin.FreqPrettyAsWritten | pages/admin.js:16-20 | As written, a missing frequency gives "—". The result is a string or, exactly for a name inherited from Object.prototype, the inherited member. |
| Admin.FreqPrettyAgrees | pages/admin.js:16-20 | Except for inherited names, the formatter as written and the corrected one agree. |
| Admin.DowNamesDays | pages/admin.js:14 | `DOW` holds seven distinct day names, Sunday first and Saturday last, in the order of `getDay()`. |
| Admin.DowRead | pages/admin.js:14-32 | `DOW[n]` is a day name, the array's length 7 (exactly for the key "length"), or undefined. |
| Admin.DowReadNumber | pages/admin.js:14 | `DOW[n]` names the day for 0 ≤ n < 7 and is undefined for any other integer. |
| Admin.DayEntry | pages/admin.js:28 | A day-list entry (`DOW[n] ?? "?"`) never contains a comma. |
| Admin.DayList | pages/admin.js:28 | Split on ",", the joined day list has exactly one part per element. The first part is the first entry, and each later part is " " followed by that element's entry. |
| Admin.DayListEntries | pages/admin.js:26-29 | The i-th comma-separated part of the day list is the i-th element's day name (`DOW[n]`) for a day number 0-6, and "?" for any other number. Every part after the first keeps the space of ", ". |
| Admin.FreqDetail | pages/admin.js:22-42 | A missing frequency gives "—". "few_days_per_week" gives the day list, or "—" for an empty or non-array list. "weekly" gives `DOW[weekly_day]`, or "—" without a number. "monthly" gives "Day d", or "—" for a falsy day. "specific_date" gives the date, or "—" when nullish. Any other frequency gives "—". |
| Admin.WeeklyIgnoresDaysOfWeek | pages/admin.js:30-33 | A weekly task's detail does not depend on `days_of_week`. |
| Admin.WeeklyDetail | pages/admin.js:30-33 | A weekly day number in range names its day. Out of range the detail is undefined, not "—". |
| Admin.TimePretty | pages/admin.js:44-45 | A falsy input gives "—". |
| Admin.TimePrettyPrefix | pages/admin.js:47-48 | With a colon, the result is a string that is a prefix of the input's text and has exactly one colon. It ends where the input ends or just before the input's second colon, so it is the first two parts joined by ":". |
| Admin.TimePrettyClock | pages/admin.js:46-48 | "HH:MM:SS" gives "HH:MM", and "HH:MM" gives itself. |
| Admin.TimePrettyNoColon | pages/admin.js:48 | Without a colon, the input is returned as it is. |
| Admin.TimePrettyTwoParts | pages/admin.js:46-48 | Two colon-free parts joined by ":" are shown as they are. |
| Admin.TimePrettyIdempotent | pages/admin.js:44-49 | Formatting a formatted time changes nothing. |
| Sequences.Filter | pages/index.js:71 | `filter` returns an order-preserving subsequence. It keeps only elements that pass, every passing element, and everything when all pass. |
| Sequences.FilterCount | pages/admin.js:133 | Each passing element is kept as many times as it occurs, and a failing one not at all. |
| Sequences.Sort | pages/index.js:84 | The reference `sort` returns a permutation of its input, of the same length. |
| Sequences.SortSorted | pages/admin.js:114 | With a consistent comparator, `sort` leaves the elements in comparator order. |
| Sequences.SortStable | pages/admin.js:114 | The elements the comparator ranks equal keep their input order. |
| Sequences.SortIdempotent | pages/index.js:84 | Sorting a sorted list changes nothing. |
| Sequences.SortOfSorted | pages/index.js:84 | A list already in order is left as it is. |
| Sequences.InsertionSort | pages/index.js:84 | Sorting an array in place leaves exactly `Sort` of its old contents, which is a permutation of them. |
| Sequences.InsertInPlace | pages/index.js:84 | One insertion step puts the next element into the sorted prefix and leaves the rest of the array alone. |
| Js.Trim | pages/index.js:28 | `trim` leaves a contiguous piece of the string with only whitespace before and after it. That piece starts and ends with non-whitespace, and it is "" iff the string is whitespace only. |
| Js.Contains | pages/admin.js:136 | Every string includes ""; a string includes only needles no longer than itself. |
| Js.ContainsIffOccurs | pages/admin.js:136 | `includes` holds iff the needle occurs at some position. |
| Js.ToString | pages/index.js:84 | `String(v)` is the string itself for a string, and "undefined", "null", "true" or "false" for those values. For an integer it is a non-empty numeral. It starts with "-" exactly when the integer is negative. Its digits denote the integer's magnitude in base 10, with no leading zero. |
| Js.IntToString | pages/admin.js:37 | An integer prints as its base-10 digits, with no leading zero and a leading "-" exactly when it is negative. A single character is printed exactly for 0 to 9. |
| Js.Truthy | pages/admin.js:23 | The falsy values are exactly undefined, null, false, 0 and "". |
| Js.Coalesce | pages/admin.js:100-110 | `v ?? d` is d when v is null or undefined, and v otherwise. |
| Js.Upper | pages/index.js:31 | `toUpperCase` keeps the length, upper-cases each ASCII letter, and leaves no lower-case ASCII letter. Every other character is unchanged. |
| Js.Lower | pages/admin.js:136 | `toLowerCase` keeps the length, lower-cases each ASCII letter, and leaves no upper-case ASCII letter. Every other character is unchanged. |
| Js.Join | pages/admin.js:28 | Joining no parts gives "". Otherwise the result starts with the first part. `Js.JoinSplit` and `Js.SplitJoinParts` relate it to `split`. |
| Js.Split | pages/admin.js:47 | `split(":")` gives at least one part, and no part holds the separator. |
| Js.JoinSplit | pages/admin.js:47 | Joining the parts of `split(":")` with ":" gives back the string. |
| Js.SplitPrefixFirst | pages/admin.js:28 | A prefix without the separator is glued onto the first part of what follows, and the other parts are unchanged. |
| Js.SplitJoinParts | pages/admin.js:28 | A list of comma-free entries joined with ", " splits on "," back into the first entry, followed by " " plus each later entry, in order. |
| Js.SplitSpaces | pages/index.js:28 | `split(/\s+/)` gives at least one part, and no part holds whitespace. This contract alone does not fix the parts. `initials` reads only the count and the first and last parts; `Js.SplitSpacesLast` and the lemmas behind `Kiosk.InitialsOneWord` and `Kiosk.InitialsSeveralWords` fix those. |
| Js.SplitSpacesLast | pages/index.js:28 | The last part of `split(/\s+/)` is the text after the last whitespace. |
| Js.StrLeBasics | pages/admin.js:117 | The ordinal stand-in for `a.localeCompare(b) <= 0`: a prefix comes no later than the longer string, and a non-empty string that comes no later starts with a character no greater. |
| Js.StrCompare | pages/admin.js:117 | Comparing titles gives zero iff they are equal, and a non-positive result iff the first is not greater. |
| Js.StrLeTotal | pages/index.js:84 | Any two strings are ordered one way or the other. |
| Js.StrLeTransitive | pages/index.js:84 | The string order is transitive. |

## Left out

- The database queries (`supabase.from(...)`) are network I/O. Their result, the rows and the error's message, is a parameter of `Kiosk.TodaysTasks` and `Admin.LoadTasks`. The list shown before the query is a parameter of `Kiosk.TodaysTasks`.
- React state and effects, `setInterval`, the `cancelled`/`isMounted` flags and all JSX rendering are left out. That includes the staff grid, the tabs, `Chip` and the row and table markup.
- `getPerthNow` and `formatTodayPerth` read the clock and format for a locale. `dow` and `todayYMD` are parameters instead.
- `localeCompare` is modelled as ordinal code-point order (`Js.StrLe`), not locale collation. Collation is a total preorder: distinct but canonically equivalent strings compare equal. The sort results (`Sequences.SortSorted`, `Sequences.SortStable`, `Sequences.InsertionSort`) need only a total preorder, so they carry over. `Admin.Compare`'s "zero iff the titles are equal" holds only for the ordinal order.
- `toUpperCase`/`toLowerCase` are modelled on ASCII letters only. Full Unicode case mapping can change a string's length (German "ß" upper-cases to "SS"), which the model does not capture.
- Strings are sequences of Unicode code points, while JavaScript strings index and slice UTF-16 code units. For a character outside the Basic Multilingual Plane (say "𝒜lice"), `parts[0][0]` and `slice(0, 5)` in the page take a lone surrogate or cut a character in half. `Kiosk.Initials`, `Kiosk.TimeLabel` and the lengths in the other string contracts count whole characters instead.
- Kiosk.Initials: "at most two characters" holds for ASCII case mapping. With full Unicode mapping a name starting with "ß" would give longer initials.
- Numbers are unbounded integers. Fractions, NaN and Infinity are not modelled, and `Number.isFinite(v)` is "v is a number".
- Js.ToString: `String(n)` is modelled as the plain decimal numeral for every integer. JavaScript prints integers of 1e21 and above in exponent form ("1e+21"), and integers beyond 2^53 are not exact, so the "digits denote the integer" clauses hold for JavaScript only below those bounds.
- `String(v)` of an object or function is "[object Object]". A function's source text is not modelled.
- A row that is itself null (`t?.active`) is not modelled. Rows are records whose fields may be null or missing.
- The admin `title` column is text or null. Other types there are not modelled.
- An inherited member of `Array.prototype` read through `DOW[n]` (say `n` = "map") is read as undefined. Only "length" is modelled.
- The trailing `.map((t) => t)` at pages/admin.js:155 copies the list and is left out, since values have no identity here.
- `lib/recordCompletion.*`, `lib/supabaseClient.js` and `pages/_app.js` are not part of this model.

## Findings

| source | as written | input that shows it | evidently intended | confidence | as-written member | corrected member |
|---|---|---|---|---|---|---|
| pages/admin.js:16-20 | `FREQ_LABELS[f]` is a plain property read. It also finds members inherited from Object.prototype. | A row with `frequency` "toString" (or "constructor", "valueOf", "__proto__") makes the formatter return an inherited function or object instead of "—". | Any frequency that is not one of the five own keys gives "—". | not executed | Admin.FreqPrettyInheritedMember | Admin.FreqPretty |
