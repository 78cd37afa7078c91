# Dashboard service — a verified model

This project models the read-side aggregation layer of the learning-platform
dashboard, `src/features/dashboard/dashboard.service.js`:

- `svcSummary` folds a user's enrollment records into the dashboard KPIs. It
  picks the most recently updated active course, lists that course's next
  lessons and builds one summary row per enrollment.
- `computeNextLessons` joins a course's lesson records with the user's
  progress records through their composite sort keys. It drops completed
  lessons, sorts the rest stably by `(modulePos, order)` and keeps the first
  `limit`.
- `svcWeeklyActivity` fills one zero bucket per day of a window ending today,
  in an insertion-ordered `Map`. It then adds each activity record's minutes to
  the bucket named by the date decoded from the record's key.
- `svcStreak` walks back from today while the date has an activity record.
- `toISO` renders a UTC date as `YYYY-MM-DD`.

The four DynamoDB queries become inputs:

- the enrollment list is a sequence of records;
- the course tree and progress records of each course come from a `Store` map,
  where a missing entry stands for an empty query result;
- the activity records of the queried range are a sequence.

Dates are day numbers counted from 1970-01-01. `today` is the day number of the
UTC date of `now`.

## Layout

- `options.dfy` — `Option`. A JavaScript field read with `x || default` is an
  `Option` read with `GetOr`.
- `strings.dfy` — the string operations the service relies on:
  - `startsWith`, `replace` with a string pattern, `split('#')`, `slice`;
  - `String(n)`, `padStart(2, '0')` and `Number` of a digit string;
  - the code-point order that stands in for `localeCompare`.
- `calendar.dfy` — the Gregorian calendar, day number to civil date, and
  `toISO`.
- `keys.dfy` — the sort-key formats (`COURSE#`, `LESSON#…`,
  `PROGRESS#LESSON#`, `ACT#YYYYMMDD…`) and their round trips.
- `lessons.dfy` — `computeNextLessons`, a pure pipeline.
- `enrollments.dfy` — `svcSummary`. The in-place sort of the active list is an
  insertion sort on an `array`.
- `activity.dfy` — `svcWeeklyActivity` and `svcStreak`, as methods with the
  source's loops.

## Model

| member | source | states |
|---|---|---|
| `Strings.StartsWith` | src/features/dashboard/dashboard.service.js:72 | no contract of its own: `startsWith`; `Keys.LessonKeyRoundTrip` shows every lesson key passes it |
| `Strings.RemoveFirst` | src/features/dashboard/dashboard.service.js:28 | `replace('COURSE#', '')` with a string pattern: when the string starts with the pattern, the result is what follows it; it is never longer than the input |
| `Strings.FindFrom` | src/features/dashboard/dashboard.service.js:68 | the first occurrence of a pattern at or after a position, or none, as `replace` looks it up |
| `Strings.Split` | src/features/dashboard/dashboard.service.js:74 | `split('#')` returns at least one field and no field contains the separator |
| `Strings.SplitJoin` | src/features/dashboard/dashboard.service.js:74 | joining the fields of `split` with the separator gives back the string |
| `Strings.SplitField` | src/features/dashboard/dashboard.service.js:74 | a separator-free field followed by the separator is split off as the first field |
| `Strings.SplitNoSeparator` | src/features/dashboard/dashboard.service.js:74 | a string without the separator splits into itself alone |
| `Strings.Slice` | src/features/dashboard/dashboard.service.js:108-109 | `slice(start, end)` clamps both bounds and equals the subsequence when they are in range |
| `Strings.Decimal` | src/features/dashboard/dashboard.service.js:143 | `String(n)` of a natural number is a non-empty string of digits |
| `Strings.ParseDigits` | src/features/dashboard/dashboard.service.js:78-79 | no contract of its own: `Number` of a digit string; `ParseDecimal` shows it inverts `String(n)` |
| `Strings.ParseDecimal` | src/features/dashboard/dashboard.service.js:78-79 | `Number(String(n)) == n` |
| `Strings.DecimalInjective` | src/features/dashboard/dashboard.service.js:143 | different numbers have different numerals |
| `Strings.DecimalLength` | src/features/dashboard/dashboard.service.js:143-145 | a numeral has 1, 2, 3 or 4 digits exactly when the number is below 10, 100, 1000 or 10000 |
| `Strings.Pad2` | src/features/dashboard/dashboard.service.js:144-145 | `padStart(2, '0')` yields digits, two of them below 100, that parse back to the number |
| `Strings.LexLess` | src/features/dashboard/dashboard.service.js:20 | no contract of its own: the code-point order standing in for `localeCompare`; the `Lex*` lemmas below show it is a strict total order |
| `Strings.LexIrreflexive` | src/features/dashboard/dashboard.service.js:20 | the order standing in for `localeCompare` is irreflexive |
| `Strings.LexTransitive` | src/features/dashboard/dashboard.service.js:20 | and transitive |
| `Strings.LexTotal` | src/features/dashboard/dashboard.service.js:20 | and total on distinct strings |
| `Strings.LexAsymmetric` | src/features/dashboard/dashboard.service.js:20 | and asymmetric |
| `Strings.LexNotLessTransitive` | src/features/dashboard/dashboard.service.js:20 | "not before" is transitive, which the sort comparator needs |
| `Calendar.MonthStep` | src/features/dashboard/dashboard.service.js:144 | the days before month m+1 are those before m plus the length of m; all twelve months make the year |
| `Calendar.MonthWalk` | src/features/dashboard/dashboard.service.js:144-145 | the n-th day after the start of a month is a valid date of that year, at the right day of the year |
| `Calendar.YearWalk` | src/features/dashboard/dashboard.service.js:143-145 | the n-th day after 1 January of a year is a valid date, n days after it |
| `Calendar.DateOfDay` | src/features/dashboard/dashboard.service.js:143-145 | `getUTCFullYear`, `getUTCMonth() + 1` and `getUTCDate` of a day number: a valid date from 1970 on whose day number is that day |
| `Calendar.MonthWalkNext` | src/features/dashboard/dashboard.service.js:103 | inside a year, one more day is the next calendar date |
| `Calendar.MonthWalkLast` | src/features/dashboard/dashboard.service.js:103 | the last day of a year is 31 December |
| `Calendar.YearWalkNext` | src/features/dashboard/dashboard.service.js:103 | one more day is the next calendar date, across years |
| `Calendar.NextDayIsNextDate` | src/features/dashboard/dashboard.service.js:103 | `setUTCDate(getUTCDate() + 1)` on day n lands on the calendar date after day n's |
| `Calendar.FormatDate` | src/features/dashboard/dashboard.service.js:146 | `${y}-${mm}-${dd}` is six characters longer than the year's numeral |
| `Calendar.FormatDateInjective` | src/features/dashboard/dashboard.service.js:142-147 | different dates are rendered differently |
| `Calendar.ToISOInjective` | src/features/dashboard/dashboard.service.js:142-147 | `toISO` never gives two days the same string, so dates can key a `Map` and a `Set` |
| `Calendar.ToISO` | src/features/dashboard/dashboard.service.js:142-147 | no contract of its own: it is the rendering of `DateOfDay`, whose contract ties it to the calendar; `ToISOInjective` and `NextDayIsNextDate` carry its properties |
| `Keys.CourseKeyRoundTrip` | src/features/dashboard/dashboard.service.js:42 | stripping `COURSE#` from an enrollment key gives back the course id |
| `Keys.ProgressKeyRoundTrip` | src/features/dashboard/dashboard.service.js:68 | stripping `PROGRESS#LESSON#` from a progress key gives back the lesson id |
| `Keys.CourseIdOf` | src/features/dashboard/dashboard.service.js:28 | no contract of its own: the course id, `replace('COURSE#', '')`; `CourseKeyRoundTrip` carries its property |
| `Keys.ProgressLessonId` | src/features/dashboard/dashboard.service.js:68 | no contract of its own: the lesson id of a progress record; `ProgressKeyRoundTrip` carries its property |
| `Keys.IsLessonKey` | src/features/dashboard/dashboard.service.js:72 | no contract of its own: the `startsWith('LESSON#')` filter; `LessonKeyRoundTrip` and `LessonsOfMembers` carry its property |
| `Keys.ParseLessonKey` | src/features/dashboard/dashboard.service.js:74-79 | no contract of its own: the fields of a lesson key; `LessonKeyRoundTrip` carries its property |
| `Keys.ActivityDate` | src/features/dashboard/dashboard.service.js:107-109 | no contract of its own: the date decoded from an activity key; `DecodeCompact` and `ActivityKeyRoundTrip` carry its properties |
| `Keys.LessonKeyRoundTrip` | src/features/dashboard/dashboard.service.js:72-79 | a key `LESSON#<modulePos>#<order>#<lessonId>` passes the `LESSON#` filter and parses back to its position, order and id, for an id without `#` |
| `Keys.UndashAppend` | src/features/dashboard/dashboard.repo.js:44 | removing dashes distributes over concatenation |
| `Keys.UndashDigits` | src/features/dashboard/dashboard.repo.js:44 | removing dashes leaves a digit string unchanged |
| `Keys.UndashDashed` | src/features/dashboard/dashboard.repo.js:44 | removing the dashes of `Y-M-D` gives `YMD` |
| `Keys.DecodeCompact` | src/features/dashboard/dashboard.service.js:107-109 | slicing `ACT#YYYYMMDD…` at 4..12 and re-dashing gives `YYYY-MM-DD` |
| `Keys.ActivityKeyRoundTrip` | src/features/dashboard/dashboard.service.js:106-109 | decoding the key written for a day, `ACT#` plus its undashed ISO date plus anything, gives that day's ISO date back (years up to 9999) |
| `NextLessons.CompletedIds` | src/features/dashboard/dashboard.service.js:65-69 | no contract of its own: the ids of progress records whose status is exactly `completed`; `PendingIff` carries its property |
| `NextLessons.ToLesson` | src/features/dashboard/dashboard.service.js:73-83 | no contract of its own: one lesson, `durationMinutes` defaulting to 0; `PendingIff` carries its property |
| `NextLessons.LessonsOf` | src/features/dashboard/dashboard.service.js:71-84 | no contract of its own: `LessonsOfMembers` states what it holds |
| `NextLessons.Incomplete` | src/features/dashboard/dashboard.service.js:85 | no contract of its own: `IncompleteMembers` states what it keeps |
| `NextLessons.Pending` | src/features/dashboard/dashboard.service.js:65-85 | no contract of its own: `PendingIff` and `PendingNotCompleted` state what it holds |
| `NextLessons.Before` | src/features/dashboard/dashboard.service.js:86 | no contract of its own: the comparator is negative; `SortByPosition` and `SortIsStable` sort by it |
| `NextLessons.InsertByPosition` | src/features/dashboard/dashboard.service.js:86 | one insertion step adds exactly the new lesson |
| `NextLessons.InsertOrdered` | src/features/dashboard/dashboard.service.js:86 | inserting into an ordered list keeps it ordered by `(modulePos, order)` |
| `NextLessons.SortByPosition` | src/features/dashboard/dashboard.service.js:86 | the sort is a permutation ordered ascending by `(modulePos, order)` |
| `NextLessons.ComputeNextLessons` | src/features/dashboard/dashboard.service.js:59-90 | at most `limit` lessons, in `(modulePos, order)` order, none completed and none whose id has a `completed` progress record |
| `NextLessons.SortedPrefixPending` | src/features/dashboard/dashboard.service.js:85-87 | every prefix of the sorted pending list is ordered and free of completed lessons |
| `NextLessons.PendingNotCompleted` | src/features/dashboard/dashboard.service.js:65-85 | no pending lesson is completed or has a completed id |
| `NextLessons.IncompleteMembers` | src/features/dashboard/dashboard.service.js:85 | `filter(l => !l.completed)` keeps exactly the incomplete lessons |
| `NextLessons.LessonsOfMembers` | src/features/dashboard/dashboard.service.js:71-84 | the lessons are exactly the parsed `LESSON#` records, each completed exactly when its id is in the completed set |
| `NextLessons.PendingIff` | src/features/dashboard/dashboard.service.js:65-85 | a lesson is pending exactly when some `LESSON#` record parses to it and its id has no `completed` progress record |
| `NextLessons.WithKeyAppend` | src/features/dashboard/dashboard.service.js:86 | the lessons at one position of a concatenation are those of each part, in order |
| `NextLessons.InsertKeepsTies` | src/features/dashboard/dashboard.service.js:86 | an insertion places the new lesson after every lesson at its position |
| `NextLessons.SortIsStable` | src/features/dashboard/dashboard.service.js:86 | the sort keeps lessons at equal `(modulePos, order)` in tree order |
| `NextLessons.PrefixIsEarliest` | src/features/dashboard/dashboard.service.js:86-87 | a prefix of an ordered permutation leaves out no element that sorts before one it keeps |
| `NextLessons.NextLessonsAreEarliest` | src/features/dashboard/dashboard.service.js:85-87 | the result has `min(limit, pending)` lessons, drawn from the pending ones, and no pending lesson left out sorts before one returned |
| `NextLessons.WithKeyPrefix` | src/features/dashboard/dashboard.service.js:87 | a prefix keeps a prefix of the lessons at each position |
| `NextLessons.NextLessonsKeepTreeOrder` | src/features/dashboard/dashboard.service.js:86-87 | lessons at equal `(modulePos, order)` come out in tree order |
| `Enrollments.StatusOf` | src/features/dashboard/dashboard.service.js:53 | no contract of its own: `status || 'active'`; `StatusClasses` carries its property |
| `Enrollments.IsActive` | src/features/dashboard/dashboard.service.js:11 | no contract of its own: `StatusClasses` states exactly which statuses are active |
| `Enrollments.IsCompleted` | src/features/dashboard/dashboard.service.js:12 | no contract of its own: `StatusClasses` states it excludes every active enrollment |
| `Enrollments.StatusClasses` | src/features/dashboard/dashboard.service.js:11-12 | active means status absent, empty or `'active'`; no enrollment is both active and completed |
| `Enrollments.ActiveOf` | src/features/dashboard/dashboard.service.js:11 | no contract of its own: the active enrollments in input order; `StatusClasses` and `CountsPartition` carry its properties |
| `Enrollments.CompletedOf` | src/features/dashboard/dashboard.service.js:12 | no contract of its own: the enrollments with status exactly `completed`; `CountsPartition` carries its property |
| `Enrollments.CountsPartition` | src/features/dashboard/dashboard.service.js:11-12 | the two counts add up to at most the number of enrollments, and to all of them exactly when every status is active or completed |
| `Enrollments.RoundedMean` | src/features/dashboard/dashboard.service.js:14-16 | `Math.round(sum / n)`: the nearest integer, halves rounding up |
| `Enrollments.ProgressSum` | src/features/dashboard/dashboard.service.js:15 | no contract of its own: `ProgressSumBounds` carries its property |
| `Enrollments.AvgProgress` | src/features/dashboard/dashboard.service.js:13-17 | 0 for no enrollments, otherwise the rounded mean of `progressPercent` (missing is 0) over enrollments of every status |
| `Enrollments.ProgressSumBounds` | src/features/dashboard/dashboard.service.js:15 | percentages in [0, 100] sum to between 0 and 100 per enrollment |
| `Enrollments.AvgProgressBounds` | src/features/dashboard/dashboard.service.js:13-17 | percentages in [0, 100] average to a percentage in [0, 100] |
| `Enrollments.LessonSum` | src/features/dashboard/dashboard.service.js:38 | no contract of its own: `LessonSumAppend`, `LessonSumByRecency` and `CountedLessonsSplit` carry its properties |
| `Enrollments.CountedLessons` | src/features/dashboard/dashboard.service.js:38 | no contract of its own: the `totalLessons` KPI in one pass over the enrollments; `CountedLessonsSplit` shows it equals the source's sum over active then completed |
| `Enrollments.LessonSumAppend` | src/features/dashboard/dashboard.service.js:38 | the lesson total of `active.concat(completed)` is the sum of the two totals |
| `Enrollments.CountedLessonsSplit` | src/features/dashboard/dashboard.service.js:38 | the `totalLessons` KPI counts each active or completed enrollment once and no other |
| `Enrollments.Recency` | src/features/dashboard/dashboard.service.js:20 | no contract of its own: `updatedAt || ''`; `ByRecencyHead` and `LatestIndex` are stated over it |
| `Enrollments.LatestIndex` | src/features/dashboard/dashboard.service.js:19-22 | the first enrollment whose `updatedAt` (missing is '') no other exceeds |
| `Enrollments.LatestIsNew` | src/features/dashboard/dashboard.service.js:20 | an enrollment newer than the latest so far is newer than all before it |
| `Enrollments.InsertByRecency` | src/features/dashboard/dashboard.service.js:20 | one insertion step adds exactly the new enrollment |
| `Enrollments.ByRecency` | src/features/dashboard/dashboard.service.js:20 | the sort is a permutation of the active list |
| `Enrollments.InsertByRecencyHead` | src/features/dashboard/dashboard.service.js:20 | the new enrollment becomes the front exactly when it is strictly newer than the front |
| `Enrollments.InsertByRecencyOrdered` | src/features/dashboard/dashboard.service.js:20 | inserting into a newest-first list keeps it newest first |
| `Enrollments.ByRecencyOrdered` | src/features/dashboard/dashboard.service.js:20 | the sorted list is newest first |
| `Enrollments.ByRecencyHead` | src/features/dashboard/dashboard.service.js:19-22 | the front of the sorted list is the first enrollment with the greatest `updatedAt`, so the sort is stable at the front |
| `Enrollments.LessonSumInsert` | src/features/dashboard/dashboard.service.js:38 | an insertion adds the new enrollment's lessons to the total |
| `Enrollments.LessonSumByRecency` | src/features/dashboard/dashboard.service.js:20-38 | sorting the active list does not change its lesson total |
| `Enrollments.InsertByRecencyAt` | src/features/dashboard/dashboard.service.js:20 | an insertion places the new enrollment after the last one not older than it |
| `Enrollments.InsertInPlace` | src/features/dashboard/dashboard.service.js:20 | shifting the older elements right and dropping the new one into the gap leaves the array holding the insertion, the rest untouched |
| `Enrollments.ShiftedIsInserted` | src/features/dashboard/dashboard.service.js:20 | the array contents the shifting loop leaves are the insertion |
| `Enrollments.SortByRecency` | src/features/dashboard/dashboard.service.js:20 | `active.sort(...)` in place leaves the array holding the stable newest-first order of its old contents |
| `Enrollments.ByRecencyStep` | src/features/dashboard/dashboard.service.js:20 | sorting one more element inserts it into the sorted prefix |
| `Enrollments.LatestActive` | src/features/dashboard/dashboard.service.js:19-22 | `activeCourse` is none exactly when there is no active enrollment, otherwise the first one with the greatest `updatedAt` |
| `Enrollments.ActiveCourseOf` | src/features/dashboard/dashboard.service.js:40-47 | no contract of its own: the `activeCourse` object with its defaults; `Summary` states which enrollment it is built from |
| `Enrollments.RowOf` | src/features/dashboard/dashboard.service.js:48-54 | no contract of its own: one `coursesSummary` entry with its defaults; `Summary` states there is one per enrollment, in order |
| `Enrollments.Summary` | src/features/dashboard/dashboard.service.js:8-57 | the counts, the average, the lesson total, the chosen course with its next four lessons (none without one), and one row per enrollment in input order with the source's defaults |
| `Activity.WindowDistinct` | src/features/dashboard/dashboard.service.js:102-104 | the window names no date twice |
| `Activity.RenderedDistinct` | src/features/dashboard/dashboard.service.js:102-104 | consecutive days rendered by an injective function are distinct |
| `Activity.ToISODistinct` | src/features/dashboard/dashboard.service.js:142-147 | different days have different ISO dates, for all days at once, so dates can key the bucket `Map` and the streak `Set` |
| `Activity.KeysAfter` | src/features/dashboard/dashboard.service.js:106-111 | no contract of its own: the keys of a `Map` after each `set`; the `KeysAfter*` lemmas and `AddAll` carry its properties |
| `Activity.TotalOn` | src/features/dashboard/dashboard.service.js:106-111 | no contract of its own: the value a key holds after the `set` calls; `AddAll`, `TotalOverStep` and `TotalOverAll` carry its properties |
| `Activity.KeysAfterPrefix` | src/features/dashboard/dashboard.service.js:106-111 | `Map.set` only appends keys: the pre-filled window stays first, in order |
| `Activity.KeysAfterMembers` | src/features/dashboard/dashboard.service.js:106-111 | the keys are exactly the window's dates and the records' dates |
| `Activity.KeysAfterDistinct` | src/features/dashboard/dashboard.service.js:106-111 | a `Map` never holds a key twice |
| `Activity.KeysAfterExact` | src/features/dashboard/dashboard.service.js:106-111 | no key is appended exactly when every record's date is already a key |
| `Activity.TotalOverStep` | src/features/dashboard/dashboard.service.js:110 | one record adds its minutes to its own key's total only, once |
| `Activity.TotalOverAll` | src/features/dashboard/dashboard.service.js:106-111 | over distinct keys covering every record, the per-key totals add up to the total minutes |
| `Activity.AddAll` | src/features/dashboard/dashboard.service.js:106-111 | the accumulation loop leaves the keys in `Map` insertion order, each holding the minutes of its records |
| `Activity.ZeroBuckets` | src/features/dashboard/dashboard.service.js:102-104 | the date-cursor loop leaves one zero entry per day of the window, in date order |
| `Activity.MapKeys` | src/features/dashboard/dashboard.service.js:102-111 | the window comes first, no key twice, every record's key present, nothing beyond the window exactly when every record's key is in it, and every key beyond the window is a record's key not in the window |
| `Activity.BucketTotalIsTotalOver` | src/features/dashboard/dashboard.service.js:116 | the bucket list's minutes are the per-key totals summed |
| `Activity.Weekly` | src/features/dashboard/dashboard.service.js:92-118 | `from` and `to`; the first `days` buckets are the window's dates in order; no date twice; each bucket holds its date's minutes; every record has a bucket; the minutes add up; exactly `days` buckets iff every decoded date is in the window; and the bucket dates are exactly the window followed by the records' new dates in first-seen order, the keys of the `Map` |
| `Activity.WeeklyLayout` | src/features/dashboard/dashboard.service.js:102-116 | the window's dates come first, in order, and no date has two buckets |
| `Activity.WeeklyMinutes` | src/features/dashboard/dashboard.service.js:106-116 | each bucket holds its date's minutes, every record's date has a bucket, and the minutes add up |
| `Activity.WeeklyExact` | src/features/dashboard/dashboard.service.js:106-111 | no bucket beyond the window exactly when every record's date is in it |
| `Activity.WeeklyOrder` | src/features/dashboard/dashboard.service.js:102-116 | the bucket dates are the window followed by the records' dates not yet present, in first-seen order |
| `Activity.AppendedKeys` | src/features/dashboard/dashboard.service.js:106-111 | in a `Map` pre-filled with distinct keys, every key after them is a key that was set and is not one of them |
| `Activity.AppendedDates` | src/features/dashboard/dashboard.service.js:106-116 | in a result of `Weekly`, each bucket after the window is the decoded date of some record and lies outside the window |
| `Activity.KeyedRecordsInWindow` | src/features/dashboard/dashboard.repo.js:44-45 | records written under the activity key of a window day decode to window dates, so `Weekly` then returns exactly `days` buckets |
| `Activity.ActiveDates` | src/features/dashboard/dashboard.service.js:126-131 | no contract of its own: the set of decoded record dates; `Streak` is stated over it |
| `Activity.Streak` | src/features/dashboard/dashboard.service.js:120-140 | 0 ≤ streak ≤ `maxWindowDays`; the last `streak` days up to today all have records; the day before them has none unless the window is used up; 0 when today has none |
| `Activity.StreakIn` | src/features/dashboard/dashboard.service.js:133-138 | the backward walk with `break` stops at the first day without a record or at the window's start |

## Left out

- The DynamoDB queries in `dashboard.repo.js`, the Lambda handlers, `env.js` and `http.js` are not part of this model. Query results are inputs: a sequence of enrollments, a `Store` of per-course records, a sequence of activity records. The user id only selects partitions, so it does not appear.
- `Promise.all` in `computeNextLessons`: the two reads are independent inputs.
- `now` is an input: its UTC date as a day number `today`. Dates before 1970-01-01 are not modelled. So `Activity.Weekly` requires the window to start on or after that day, and `Activity.Streak` requires `maxWindowDays <= today + 1`.
- `Keys.ActivityKeyRoundTrip` holds for years up to 9999 only. A five-digit year does not fit the eight characters the decoder slices.
- `Enrollments.RoundedMean` is exact integer rounding of `sum / n`, halves up. The source rounds the double nearest to the quotient. The two agree while the sum of percentages stays below 2^52 in magnitude; above that the double quotient can land on a half that the exact one is not (sum 3·2^51 + 1 over 3 enrollments).
- All numbers are exact integers; the source's are doubles. The two agree while values stay below 2^53. Above that, `Number` of a lesson-key field rounds, so `Strings.ParseDigits` can separate positions the source ties (`9007199254740993` and `9007199254740992`), and the minute sums and lesson sums round as well.
- `Strings.LexLess` is code-point order. `localeCompare` follows locale collation. That differs on non-ASCII text and on case, and also on plain ASCII: collation puts punctuation before symbols and digits. So `"2024-05-01T10:00:00.5Z"` and `"2024-05-01T10:00:00+02:00"` sort in opposite orders under the two. The orders agree on `updatedAt` values that share one layout, such as all `toISOString()` output, where the first difference is always between two digits.
- Strings are sequences of Unicode scalar values; JavaScript strings are sequences of UTF-16 code units. `Strings.Slice`, `Strings.Split` and lengths therefore count positions differently from the source for characters above U+FFFF, for example `slice(4, 12)` of an activity key holding an emoji.
- Fields are integers or absent. `NaN` from `Number` of a non-numeric lesson-key field and a short lesson key with no fourth field are excluded: `NextLessons.ComputeNextLessons` requires every `LESSON#` key to have at least four fields with digit strings in the second and third. `Enrollments.Summary` requires this only of the tree of the course it picks, the one tree the source parses.
- `Activity.Weekly` requires `1 <= days <= 14`, the handler's clamp. A fractional or non-numeric `days` query parameter is not modelled.
- `svcSummary` trusts the stored `progressPercent` and `totalLessons` fields and never recomputes them from lesson or progress records; the model does the same.
- The decoded activity date is not checked. A record whose key holds a malformed or out-of-window date gets its own bucket after the window, as in the source.
