# Test helpers of a Nuxt personal website, in Dafny

This project models the pure logic of a personal website's test helpers.
There are two parts.

- `tests/helpers/file-utils.ts`:
  - the frontmatter reader (`extractFrontmatter`);
  - the numeric-prefix test for content file names (`hasNumericPrefix`);
  - the parent-directory name of a path (`getParentDirName`);
  - the extension test (`hasExtension`, with `path.extname` written out by Node's posix rule);
  - the predicate that `getSourceFiles` passes to `filter`, applied to a given list of paths.
- `formatDate`: the unit tests of the meditations list and of the note card each declare their own copy. It turns an optional date string into the en-US long display ("January 20, 2024"), or into "" when the argument is falsy or is an Invalid Date.

Modules:

- `Wrappers`: the `Option` type, used where the source returns `null` or an Invalid Date.
- `Text`: the JavaScript string operations the helpers rely on.
  - `trim`, using the ECMAScript white space and line terminators;
  - `indexOf` and `lastIndexOf` for one character, which return -1 when it is absent;
  - `split` on one character and its inverse `Join`;
  - `includes`;
  - decimal numerals.
- `FileUtils`: the file-utils helpers. `ExtractFrontmatter` is a method whose loop fills the dictionary line by line, as the source does. It is proved equal to the specification function `Frontmatter`, and the lemmas about `Collect` state what the dictionary holds.
- `Calendar`: calendar days in the proleptic Gregorian calendar.
  - the en-US long display `LongDate` and its inverse `ParseLongDate`;
  - `ParseIso`, a parser for the date forms of the ECMAScript date time string format that the tests use.
- `DateDisplay`: the two copies of `formatDate`. Building a `Date` from a string is host behaviour, so `FormatDate` takes the parser as a parameter (`string -> Option<Date>`, with `None` for an Invalid Date). Its contract holds for every parser. The examples from the tests are proved with `ParseIso`.

## Model

| member | source | states |
|---|---|---|
| FileUtils.FrontmatterBlock | tests/helpers/file-utils.ts:80-85 | The pattern fails (null) exactly when no "\n---" follows an opening "---\n". Otherwise the captured text lies between the opening fence and the FIRST closing fence, and no earlier position closes the block (lazy match). |
| FileUtils.BlockClosesAt | tests/helpers/file-utils.ts:80 | If the closing fence can start at k and at no earlier position, the captured text is exactly what lies between the opening fence and k. |
| FileUtils.LineEntry | tests/helpers/file-utils.ts:93-97 | A line contributes an entry exactly when its first colon is at index > 0. The key is trimmed and colon-free, and the value is trimmed. |
| FileUtils.ExtractFrontmatter | tests/helpers/file-utils.ts:79-102 | The loop's result equals the fold `Frontmatter` over the block's lines. Every key is trimmed and colon-free, and every value is trimmed. |
| FileUtils.CollectKeys | tests/helpers/file-utils.ts:91-99 | A key is in the dictionary exactly when some line's first colon is at index > 0 and that line's trimmed prefix is the key. Every key comes from a line. |
| FileUtils.CollectWithKeys | tests/helpers/file-utils.ts:92-99 | For a loop that adds each line's entry, overwriting: a key is in the result exactly when some line has an entry for it. |
| FileUtils.CollectWithLastWins | tests/helpers/file-utils.ts:92-99 | For the same loop, the value of the last line with an entry for a key is the one kept. |
| FileUtils.CollectWithBindings | tests/helpers/file-utils.ts:92-99 | For the same loop, every key/value pair of the result is the entry of some line. |
| FileUtils.CollectLastWins | tests/helpers/file-utils.ts:92-98 | For a repeated key, the value of the last line with that key is the one kept. |
| FileUtils.CollectEntriesTrimmed | tests/helpers/file-utils.ts:95-97 | Every key and value is trimmed, and no key contains ':'. |
| FileUtils.EntryOfKeyValue | tests/helpers/file-utils.ts:93-96 | A line key + ":" + value with a non-empty, colon-free key has an entry. Its key is the trimmed key, and its value is the whole trimmed value, including any further colons. |
| FileUtils.CollectSkipsNonEntries | tests/helpers/file-utils.ts:93-94 | A line with no colon, or with a colon at index 0, leaves the dictionary unchanged. |
| FileUtils.SharedNewlineIsNoBlock | tests/helpers/file-utils.ts:80-85 | "---\n---" has no frontmatter (null). The opening newline cannot also begin the closing fence. |
| FileUtils.ShortestBlock | tests/helpers/file-utils.ts:80 | With two closing fences ("---\na: 1\n---\nb: 2\n---"), the captured block ends at the first one ("a: 1"). |
| FileUtils.HasNumericPrefix | tests/helpers/file-utils.ts:107-110 | True exactly when the name starts with one or more ASCII digits immediately followed by '.'. |
| FileUtils.ParentDirName | tests/helpers/file-utils.ts:115-118 | The result never contains '/'. A path without '/' (fewer than two segments) gives "". |
| FileUtils.ParentDirOfSegments | tests/helpers/file-utils.ts:116-117 | For a path joined from two or more '/'-free segments, the result is the second-to-last segment. |
| FileUtils.Extname | tests/helpers/file-utils.ts:72-74 | The extension is "" or starts with its only '.' and contains no '/'. NoDotNoExtension, DotFileHasNoExtension, DotDotHasNoExtension and ExtnameOfFileName pin the result for each kind of file name. |
| FileUtils.NoDotNoExtension | tests/helpers/file-utils.ts:72-74 | A file name without '.' ("Makefile"), in any directory, has extension "". So hasExtension fails for every non-empty ext, and the source filter rejects the file. |
| FileUtils.HasExtension | tests/helpers/file-utils.ts:72-74 | hasExtension compares the path's extension with ext. It can only hold for "" or for a '/'-free ext with exactly one '.', at its start. |
| FileUtils.DotDotHasNoExtension | tests/helpers/file-utils.ts:72-74 | The extension of ".." is "". |
| FileUtils.TrailingDotIsExtension | tests/helpers/file-utils.ts:72-74 | The extension of "index." is ".". |
| FileUtils.TrailingSlashIgnored | tests/helpers/file-utils.ts:72-74 | Trailing '/' are ignored: the extension of "a/b.ts/" is ".ts". |
| FileUtils.ExtnameOfFileName | tests/helpers/file-utils.ts:72-74 | For a file name stem + "." + e in any directory, the extension is "." + e, so hasExtension holds for exactly that ext. |
| FileUtils.DotFileHasNoExtension | tests/helpers/file-utils.ts:72-74 | A name whose only '.' is its first character has extension "". |
| FileUtils.SourceFiles | tests/helpers/file-utils.ts:133-149 | The result keeps order (a subsequence). It keeps each accepted path with its multiplicity and drops every rejected path. Every path kept passes the filter. |
| FileUtils.IsSourceFile | tests/helpers/file-utils.ts:136-148 | A path passes the filter exactly when none of "node_modules", ".nuxt", ".output" and ".git" occurs in it and its extension is ".ts", ".js" or ".vue". |
| FileUtils.Filter | tests/helpers/file-utils.ts:136 | `filter` returns a subsequence holding exactly the elements that satisfy the predicate, with their multiplicities. |
| FileUtils.GithubPathsDropped | tests/helpers/file-utils.ts:138-143 | A path containing ".github" is dropped, because it contains ".git". |
| Text.Trim | tests/helpers/file-utils.ts:95-96 | The result neither starts nor ends with white space. It is s with only white space removed at the two ends. |
| Text.IndexOf | tests/helpers/file-utils.ts:93 | -1 exactly when the character is absent. Otherwise the index of its first occurrence. |
| Text.Split | tests/helpers/file-utils.ts:91 | At least one piece, and no piece contains the separator. |
| Text.JoinSplit | tests/helpers/file-utils.ts:91 | Joining the pieces of a split with the separator gives the string back. |
| Text.SplitJoin | tests/helpers/file-utils.ts:116 | Splitting a join of separator-free pieces gives the pieces back. |
| Text.Contains | tests/helpers/file-utils.ts:138-141 | True exactly when the pattern occurs at some position of the string. |
| Calendar.DaysInMonth | tests/unit/NoteCard.formatDate.test.ts:54-57 | Months have 28 to 31 days. The month has 29 days exactly when it is February of a leap year. |
| Calendar.LongDateRoundTrip | tests/unit/formatDate.test.ts:21-26 | `LongDate`, the en-US long display "<Month> <day>, <year>" that `toLocaleDateString` produces, reads back as the day it displays. So different days display differently. |
| Calendar.ParseLongDateCanonical | tests/unit/formatDate.test.ts:21-26 | A string that reads back as a day is exactly that day's display: "<Month> <day>, <year>", without leading zeros. |
| Calendar.ParseIso | tests/unit/formatDate.test.ts:16-19 | The stand-in for `new Date(s)`: the empty string is an Invalid Date, and every day it returns has a four-digit year. |
| Calendar.ParseIsoText | tests/unit/formatDate.test.ts:16-19 | Text of the shape YYYY-MM-DD parses exactly when its fields name a valid day (month 1-12, day within the month, leap years included), and then as that day. |
| Calendar.ParseIsoMonthText | tests/unit/formatDate.test.ts:90-99 | Text of the shape YYYY-MM parses as the first of that month when the year and month are in range. |
| Calendar.IsoDateRoundTrip | tests/unit/formatDate.test.ts:16-19 | The YYYY-MM-DD rendering of a day parses back as that day. |
| Calendar.TimeOfDayKeepsDay | tests/unit/formatDate.test.ts:36-39 | Appending "T" and a time of day to a date string does not change the day it parses to. |
| Calendar.TimeTextIsTimeForm | tests/unit/formatDate.test.ts:37 | "HH:mm:ss" with fields in range, with or without "Z", is an accepted time of day. |
| DateDisplay.FormatDate | tests/unit/formatDate.test.ts:11-27 | For any parser: null, undefined and "" give "". The result is "" exactly when the argument is falsy or is an Invalid Date. Otherwise it is the display that reads back as the parsed day. |
| DateDisplay.NoteCardFormatDate | tests/unit/NoteCard.formatDate.test.ts:11-25 | The note card's copy, for any parser: "" exactly when the argument is falsy or is an Invalid Date. Otherwise it is the display that reads back as the parsed day. |
| DateDisplay.CopiesAgree | tests/unit/NoteCard.formatDate.test.ts:11-25 | The note card's copy of formatDate returns what the meditations list's copy returns, for every argument and every parser. |
| DateDisplay.FalsyIgnoresParser | tests/unit/formatDate.test.ts:12-13 | For a falsy argument the result is "" whatever the parser would say: parsing is not attempted. |
| DateDisplay.FormatIsoDate | tests/unit/formatDate.test.ts:31-34 | A day written as YYYY-MM-DD displays as that day's long form. |
| DateDisplay.TimestampSameDisplay | tests/unit/formatDate.test.ts:36-39 | A date string and the same date with a time of day display identically. |
| DateDisplay.ImpossibleIsoTextIsBlank | tests/unit/formatDate.test.ts:80-83 | Under ParseIso: text of the shape YYYY-MM-DD displays as "" exactly when its fields name no day. |
| DateDisplay.UnshapedTextIsBlank | tests/unit/formatDate.test.ts:85-88 | Under ParseIso: non-empty text without 'T' that is not 4, 7 or 10 characters long ("hello world", say) displays as "". |
| DateDisplay.IsoTextDisplaysAs | tests/unit/formatDate.test.ts:31-54 | The YYYY-MM-DD text of a valid day displays as that day's long form. |
| DateDisplay.DisplaysJanuaryTwentieth | tests/unit/formatDate.test.ts:31-34 | "2024-01-20" displays as "January 20, 2024". |
| DateDisplay.DisplaysTimestamp | tests/unit/formatDate.test.ts:36-39 | "2024-01-20T10:30:00Z" displays as "January 20, 2024". |
| DateDisplay.IsoTimestampDisplaysAs | tests/unit/NoteCard.formatDate.test.ts:34-37 | A valid day followed by a UTC time of day "THH:mm:ssZ" displays as that day's long form. |
| DateDisplay.DisplaysChristmas | tests/unit/formatDate.test.ts:41-44 | "2024-12-25" displays as "December 25, 2024". |
| DateDisplay.DisplaysDayWithoutLeadingZero | tests/unit/formatDate.test.ts:46-49 | "2024-03-05" displays as "March 5, 2024", with no leading zero on the day. |
| DateDisplay.DisplaysOtherYear | tests/unit/formatDate.test.ts:51-54 | "2023-06-15" displays as "June 15, 2023". |
| DateDisplay.DisplaysLeapDay | tests/unit/NoteCard.formatDate.test.ts:54-57 | The leap day "2024-02-29" displays as "February 29, 2024". |
| DateDisplay.NoLeapDayIn2023 | tests/unit/NoteCard.formatDate.test.ts:54-57 | Under ParseIso: "2023-02-29" names no day, so it displays as "". |
| DateDisplay.ThirteenthMonthIsBlank | tests/unit/NoteCard.formatDate.test.ts:83-86 | "2024-13-45" displays as "". |
| DateDisplay.NotADateIsBlank | tests/unit/NoteCard.formatDate.test.ts:78-81 | "not-a-date" displays as "". |
| DateDisplay.IsoMonthTextDisplaysAs | tests/unit/formatDate.test.ts:90-99 | A year and month in range, written "YYYY-MM", display as the first day of that month. |
| DateDisplay.PartialDateDisplays | tests/unit/formatDate.test.ts:90-99 | "2024-01" parses, so its display is not "" ("January 1, 2024"). |

## Left out

- `fileExists`, `readFileContent`, `readJsonFile`, `getFilesInDirectory` and `getFilesRecursive` (tests/helpers/file-utils.ts:7-67) are left out. They read the filesystem. `getSourceFiles` is modelled as `SourceFiles`, its filter applied to a given list of paths.
- `findImports` (tests/helpers/file-utils.ts:123-128) is left out. It builds regular expressions at run time from a package name.
- DateDisplay.FormatDate: the `Date` constructor is a parameter. Its contract holds for any parser, and `ParseIso` stands in for the host's parser. It only covers the date forms YYYY, YYYY-MM and YYYY-MM-DD. An optional time follows as "THH:mm", "THH:mm:ss" or "THH:mm:ss.sss", with an optional "Z". Out of the concrete parser:
  - UTC offsets such as "+01:00", hour 24, the year 0000 and expanded years;
  - the implementation-defined fallback formats of Node's V8 engine, the host the tests run on (vitest.config.ts:7). V8 reads "12345" as a year and "January 20, 2024" as a day, where `ParseIso` returns an Invalid Date;
  - V8's roll-over of a day from 1 to 31 past the end of its month. Under V8, "2023-02-29" is March 1, 2023, where `ParseIso` returns an Invalid Date (DateDisplay.NoLeapDayIn2023).
- Calendar.ParseIso: the model assumes a host whose time zone is UTC. ECMAScript reads a date-only string, and a date-time string ending in "Z", as UTC, but a date-time string without an offset as local time, and `toLocaleDateString` displays the day in the host's zone. West of UTC, "2024-01-20" and "2024-01-20T10:30:00Z" can therefore display the previous day, and a date-time string without "Z" need not display like its date (DateDisplay.TimestampSameDisplay). Time zones are not modelled.
- `toLocaleDateString` is represented only by its en-US output for `{year: 'numeric', month: 'long', day: 'numeric'}`. Other locales and options are not modelled.
- Calendar.Date only covers years from 1 on. Dates before the common era are not modelled.
- The frontmatter dictionary is a map from strings to strings. Keys that a plain JavaScript object treats specially (`__proto__`) are not modelled.
- Strings are sequences of characters. JavaScript's UTF-16 code units (surrogate pairs counted as two) are not distinguished from code points.
- The content lister that `tests/unit/MeditationsList.checkpoint.spec.ts` exercises is not part of this model. Nor are the remaining tests (`tests/property/example.test.ts`, `tests/unit/setup.test.ts`) or the configuration files.
- Text.Split is defined only for a one-character separator, which is all the helpers use.
- The "should not throw" test is not stated separately. Every Dafny function is total, so `FormatDate` returns a string for every argument.
- The "hello world" and "12345" cases are covered by DateDisplay.UnshapedTextIsBlank rather than stated on the literal strings. "12345" yields "" only under `ParseIso`; V8 accepts it.
