# Mailbox sender/date extraction and its analysis queries, in Dafny

This project models the core of a small extract-transform-analyze script
for a mailbox log (`extraction.py`).

`extract_and_transform` reads the log line by line. It searches each line
for an mbox separator, `From <sender> <weekday> <month> <day> <HH:MM:SS> <year>`.
For a line that has one, it parses the date with `datetime.strptime`, trying
a second format when the first one fails. It then writes the date back out
as `YYYY-MM-DD HH:MM:SS` and appends `{email, date}` to the result.

The records are later copied into an SQLite table `user_history`. A fixed
set of SQL queries then counts them per day, per month, per domain and per
sender. The queries also find each sender's first and last email and the
busiest day.

Modules, leaf first:

- `Wrappers` (`wrappers.dfy`): `Option` and `Result`.
- `Chars` (`chars.dfy`): Python's ASCII character classes `\s`, `\S`, `\w`
  and `\d`, decimal digit strings, zero padding and lower-casing.
- `LinePattern` (`line_pattern.dfy`): the regular expression of lines 16-18
  and `pattern.search`.
  - The pattern is a sequence of atoms. A match is a split of the text into
    one piece per atom (`PiecesAt`).
  - A greedy scanner without backtracking is proved to find exactly those
    matches (`ScanSound`, `ScanComplete`, `SeparatorIsGreedy`).
  - `SearchFrom` is proved to return the leftmost match.
- `Timestamps` (`timestamps.dfy`): CPython's `_strptime` on the captured date
  for both formats of lines 29 and 31, and `strftime("%Y-%m-%d %H:%M:%S")`.
- `Extraction` (`extraction.dfy`): one line's outcome (`ProcessLine`), the
  loop as a method (`ExtractAndTransform`), and what the result is in terms
  of the lines.
- `TextOrder` (`text_order.dfy`): the order SQLite uses to compare TEXT
  values (BINARY collation).
- `Chronology` (`chronology.dfy`): proves that canonical timestamps sort as
  text in the order of their times.
- `Queries` (`queries.dfy`): queries 1-8 of lines 99-106 as functions over
  the table rows, each with the lemma that says what its rows mean.

How the model reads the source where the code leaves something open:

- **Whitespace in the date.** `_strptime` turns every whitespace run of a
  format into `\s+`. The two formats on lines 29 and 31 therefore compile to
  the same pattern, and the fallback on line 31 can never succeed where line
  29 failed. The fallback's error is then the one that propagates
  (`FallbackNeverRescues`).
  - The comment on lines 26-27 speaks of variable spacing in the day
    field. In fact one or more whitespace characters are accepted between
    the five whitespace-separated fields (weekday, month, day, clock,
    year), both by the separator pattern and by `strptime`
    (`GapsIgnored`). The clock `HH:MM:SS` admits none between its parts.
- **What `strptime` reads.** `strptime` is modelled on the eleven pieces
  into which the separator match splits group 2 (`RawDate`: weekday, month,
  day, hour, minute, second and year, and the four whitespace gaps; the two
  colons are fixed), not on the captured text itself. The split is unique:
  the greedy scan finds every match and only matches (`ScanSound`,
  `ScanComplete`, `SeparatorIsGreedy`). The model takes `_strptime`'s
  compiled pattern `%a\s+%b\s+%d\s+%H:%M:%S\s+%Y` to split the text at
  the same places, since its gaps are `\s+` and its directives take fields
  of the same shapes.
- **Invalid dates.** A date that the separator pattern accepts but
  `datetime` rejects aborts the whole extraction with the `ValueError` of
  the first such line. Examples: `Feb 30`, second `60`, an unknown month
  name, hour `24`.
- **The weekday.** The weekday name must be a known abbreviation, but it is
  not checked against the date.
- **The sender.** The sender is any non-empty run of non-whitespace
  characters. The code does not require an `@`.
- **Row order of GROUP BY.** GROUP BY rows are modelled in ascending key
  order. SQLite sorts an unindexed GROUP BY on its key. DISTINCT rows are
  modelled in order of first appearance, which is how SQLite emits a
  DISTINCT over a table scan.
- **Ties in `ORDER BY count DESC`.** The model ranks by an insertion sort,
  but no lemma states an order among groups with equal counts, because SQL
  leaves that order open.

## Model

| member | source | states |
|---|---|---|
| LinePattern.SeparatorIsGreedy | extraction.py:16-18 | each variable-width atom of the pattern is followed by one that cannot start with a character the first could still take, so the match needs no backtracking |
| LinePattern.ScanSound | extraction.py:16-18 | what the greedy scan returns is a split of the text into pieces matched by the pattern's atoms |
| LinePattern.ScanComplete | extraction.py:16-18 | whenever the pattern matches at a position with some pieces, the greedy scan returns exactly those pieces, so the split is unique |
| LinePattern.Scan | extraction.py:16-18 | computes the pattern tried at one position: atom by atom, the longest run each variable-width atom can take there, or nothing when an atom does not fit; `ScanSound` and `ScanComplete` state what it returns |
| LinePattern.MatchAt | extraction.py:16-18 | computes the pattern tried at position `i`, Python's `pattern.match(s, i)`: the scanner's split as a match that starts at `i`; `MatchAtExact` states when it succeeds |
| LinePattern.MatchAtExact | extraction.py:16-18 | the pattern tried at one position succeeds exactly when the text there splits into the pattern's pieces |
| LinePattern.SearchFrom | extraction.py:23 | `search` returns a match at or after the starting position, and no position before the match start (or no position at all, when it returns None) has a match |
| LinePattern.Search | extraction.py:23 | computes `pattern.search(line)`: the search from position 0, so the leftmost match, as `SearchFrom` states |
| LinePattern.NoMatchBefore | extraction.py:23 | exposes the second half of `SearchFrom`'s contract for one position and one split: positions before the found match, or every position when nothing is found, hold no match |
| LinePattern.MatchSender | extraction.py:25 | a match begins with `From `, group 1 and a space, and group 1 is a non-empty run without whitespace between those two spaces, so the whole run at that place |
| LinePattern.MatchDate | extraction.py:25 | group 2 has the field shapes `\w{3}`, `\w{3}`, `\d{1,2}`, `\d{2}:\d{2}:\d{2}`, `\d{4}` with whitespace gaps |
| LinePattern.ConcatPieces | extraction.py:16-18 | pieces that each fit their atom, written one after the other, match the pattern at the place where they are written, whatever surrounds them |
| LinePattern.SearchAtStart | extraction.py:23 | a line on which the pattern matches at position 0 makes `search` return that match |
| LinePattern.LineText | extraction.py:16-18 | the pieces of a separator line, written out, are `From `, the sender, a space and the date text |
| LinePattern.SeparatorLineMatch | extraction.py:16-25 | a line that starts with `From `, a sender without whitespace, a space and a date of the right shape is matched at its start, with that sender as group 1 and that date as group 2 |
| Timestamps.FormatsCompileAlike | extraction.py:29-31 | both formats compile to the same pattern, `%a\s+%b\s+%d\s+%H:%M:%S\s+%Y` |
| Timestamps.CompileFields | extraction.py:29-31 | a format of whitespace-free fields separated by whitespace compiles to the fields joined by `\s+` |
| Timestamps.CompileFormat | extraction.py:29-31 | computes the whitespace step of `_strptime`'s format compiler: each whitespace run of the format becomes `\s+`; `FormatsCompileAlike` states what both formats become |
| Timestamps.IndexOf | extraction.py:29 | the month lookup returns the first position holding the name, or None exactly when the name is absent |
| Timestamps.DayMatchesRange | extraction.py:29 | the `%d` alternatives accept exactly the days 1 to 31 |
| Timestamps.HourMatchesRange | extraction.py:29 | the `%H` alternatives accept exactly the hours up to 23 |
| Timestamps.MinuteMatchesRange | extraction.py:29 | the `%M` alternatives accept exactly the minutes up to 59 |
| Timestamps.SecondMatchesRange | extraction.py:29 | the `%S` alternatives accept exactly the seconds up to 61 |
| Timestamps.Fields | extraction.py:29 | the month read from the name is 1 to 12, and its lower-cased name is that month's abbreviation |
| Timestamps.ParseDate | extraction.py:29 | `strptime` succeeds exactly when both names are known and the fields form a valid `datetime`, and then returns those fields |
| Timestamps.ParseDateErrors | extraction.py:29 | which ValueError is raised: format mismatch, then year 0, then day out of range, then second 60 or 61, each with both directions |
| Timestamps.Strptime | extraction.py:29-31 | computes `datetime.strptime(date_str, fmt)` for a format that compiles to the pattern both formats compile to; it requires that compilation, so each call rests on `FormatsCompileAlike`, and `ParseDate` states its result |
| Timestamps.YearLength | extraction.py:29-31 | the calendar that `strptime` checks dates against has months that add up to 366 days in a leap year and 365 otherwise |
| Timestamps.MonthLength | extraction.py:29-31 | every month has 28 to 31 days; 29 exactly for February of a leap year, 28 exactly for February of any other year |
| Timestamps.LeapCycle | extraction.py:29-31 | the Gregorian leap-year rule repeats every 400 years, and a century year is a leap year exactly when it is a multiple of 400 |
| Timestamps.LeapDay | extraction.py:29-31 | a captured February 29th, with known names, a non-zero year and an in-range clock, is parsed exactly in leap years; in any other year `strptime` raises the day-out-of-range error |
| Timestamps.MatchesIffInRanges | extraction.py:29 | the directive patterns accept the numeric fields exactly when they are within the ranges of the pattern |
| Timestamps.ParseCtime | extraction.py:29 | every valid date, written the way an mbox separator writes it, with a two-space gap before a one-digit day, is read back exactly |
| Timestamps.StrftimeLayout | extraction.py:33 | the output is 19 characters with each field zero-padded at its position |
| Timestamps.Strftime | extraction.py:33 | computes `strftime("%Y-%m-%d %H:%M:%S")`: the zero-padded date and clock fields; `StrftimeLayout` and the round trips state what it writes |
| Timestamps.StrftimeRoundTrip | extraction.py:33 | the output is canonical and reads back as the same date |
| Timestamps.CanonicalRoundTrip | extraction.py:33 | a canonical text of a valid date is exactly what strftime writes for that date |
| Timestamps.CtimeDate | extraction.py:25 | the separator text written for a valid date has the field shapes of group 2 |
| Extraction.TransformDate | extraction.py:28-33 | the date is transformed exactly when the names are known and the date is valid, and the result is canonical and reads back as the parsed date |
| Extraction.FallbackNeverRescues | extraction.py:28-31 | the second format gives the same result as the first, so a failure carries the first attempt's error |
| Extraction.GapsIgnored | extraction.py:29-31 | dates that differ only in whitespace between fields parse the same |
| Extraction.MatchRecord | extraction.py:25-34 | the match succeeds as a record exactly when the date names are known and the captured fields form a valid date; the record then has group 1 as its email, non-empty and without whitespace, and as its date the `strftime` text of the captured fields, which is canonical and valid |
| Extraction.ProcessLine | extraction.py:23-34 | computes one pass of the loop: nothing when `search` finds no match, otherwise the record built from the leftmost match or the date's error; `SkippedLines` and `MatchedLines` state both cases |
| Extraction.SeparatorLineRecord | extraction.py:22-34 | a line `From <sender> <date in ctime layout><anything>` with a valid date gives the record of that sender and that date as `strftime` writes it, whatever weekday is written |
| Extraction.SkippedLines | extraction.py:23-24 | a line gives nothing only when the pattern matches nowhere in it |
| Extraction.MatchedLines | extraction.py:23-25 | a line gives an outcome only when `search` finds a match, and the outcome comes from that leftmost match |
| Extraction.ExtractAndTransform | extraction.py:19-35 | the loop returns what `Extract` specifies: the records in order, or the first error |
| Extraction.Collect | extraction.py:21-35 | computes the loop over the lines' outcomes: the records appended in order, or the first error, after which nothing else runs; `CollectSucceeds` and `CollectFailsAtFirst` state both cases |
| Extraction.Extract | extraction.py:19-35 | computes the whole function on the lines of the log; `ExtractSucceeds`, `ExtractFailsAtFirst` and `ExtractedRecords` state its result |
| Extraction.CollectSucceeds | extraction.py:21-35 | the loop succeeds exactly when no outcome is an error, and then returns the records of the outcomes in order |
| Extraction.FailurePersists | extraction.py:28-31 | once a line raises, the result is that error whatever follows |
| Extraction.CollectFailsAtFirst | extraction.py:28-31 | a failure carries the error of the first failing outcome |
| Extraction.RecordsCount | extraction.py:24-34 | one record per matching line and none for other lines |
| Extraction.RecordsFromLines | extraction.py:34 | every record returned is the record of some line |
| Extraction.ExtractSucceeds | extraction.py:19-35 | the extraction succeeds exactly when no line fails, and returns one record per matching line, in file order |
| Extraction.ExtractFailsAtFirst | extraction.py:28-31 | a failed extraction raises the error of the first failing line |
| Extraction.ExtractedRecords | extraction.py:23-34 | every record is the record built from some line's leftmost match: its email is group 1 of that match, non-empty and without whitespace, and its date is the canonical, valid text of that match's date |
| TextOrder.BelowTotal | extraction.py:101 | the text order used by MIN, MAX and GROUP BY relates any two different strings |
| TextOrder.BelowTransitive | extraction.py:101 | the text order is transitive |
| TextOrder.DigitsOrder | extraction.py:101 | digit strings of one width sort as their values do |
| Chronology.TimestampOrder | extraction.py:101 | canonical timestamps sort as text exactly in the order of the times they stand for |
| Queries.ExtractionStored | extraction.py:34 | the table rows, being extracted records, all hold canonical valid timestamps |
| Queries.Distinct | extraction.py:99 | DISTINCT yields each email of the table exactly once, and no other value |
| Queries.DistinctOrder | extraction.py:99 | DISTINCT keeps the order of first appearance |
| Queries.UniqueEmails | extraction.py:99 | query 1 returns each sender of the table exactly once |
| Queries.GroupCount | extraction.py:100 | one row per different key in ascending key order, with the number of rows that have the key |
| Queries.GroupCountTotal | extraction.py:100 | the group counts add up to the number of rows |
| Queries.Day | extraction.py:100 | `date(date)` of a stored timestamp is its calendar day written `YYYY-MM-DD` |
| Queries.DayOrder | extraction.py:100 | day keys sort in calendar order |
| Queries.EmailsPerDay | extraction.py:100 | computes query 2: the emails counted per `date(date)`; `EmailsPerDayCounts` states its rows |
| Queries.EmailsPerDayCounts | extraction.py:100 | query 2 has one row per day with email, in calendar order, counting that day's emails, and the counts add up to the total |
| Queries.Least | extraction.py:101 | MIN returns one of the values, at or below all of them |
| Queries.Greatest | extraction.py:101 | MAX returns one of the values, at or above all of them |
| Queries.DatesOf | extraction.py:101 | the dates of a sender are exactly the dates of that sender's rows |
| Queries.FirstAndLastSenders | extraction.py:101 | query 3 has one row per sender, in ascending address order |
| Queries.FirstAndLastBounds | extraction.py:101 | a sender's first and last dates are dates of that sender, first no later than last, and every date of the sender lies between them |
| Queries.FirstAndLastInTime | extraction.py:101 | on stored rows, no email of the sender is earlier than the first or later than the last |
| Queries.FirstAndLast | extraction.py:101 | computes query 3: per sender, the least and the greatest date text; `FirstAndLastSenders`, `FirstAndLastBounds` and `FirstAndLastInTime` state its rows |
| Queries.Instr | extraction.py:102 | `instr` is the 1-based position of the first `@`, or 0 when there is none |
| Queries.Domain | extraction.py:102 | the domain is what follows the first `@`, or the whole address when there is no `@` |
| Queries.EmailsPerDomain | extraction.py:102 | computes query 4: the emails counted per domain; `EmailsPerDomainCounts` states its rows |
| Queries.EmailsPerDomainCounts | extraction.py:102 | query 4 has one row per domain, ascending, counting that domain's emails, and the counts add up to the total |
| Queries.TotalEmails | extraction.py:103 | computes query 5, `COUNT(*)`: the number of rows |
| Queries.DistinctLength | extraction.py:99 | `DISTINCT` never gives more rows than it reads, and gives as many exactly when no value repeats |
| Queries.TotalEmailsCounts | extraction.py:99-103 | query 5 is at least the number of rows of query 1, and equal to it exactly when no sender sent two emails |
| Queries.Month | extraction.py:104 | `strftime('%Y-%m', date)` of a stored timestamp is its year and month, zero-padded |
| Queries.MonthOfDay | extraction.py:104 | the month key is the first seven characters of the day key |
| Queries.MonthOrder | extraction.py:104 | month keys sort in calendar order |
| Queries.EmailsPerMonth | extraction.py:104 | computes query 6: the emails counted per `strftime('%Y-%m', date)`; `EmailsPerMonthCounts` states its rows |
| Queries.EmailsPerMonthCounts | extraction.py:104 | query 6 has one row per month with email, in calendar order, counting that month's emails, and the counts add up to the total (query 5) |
| Queries.RankSorted | extraction.py:105 | ORDER BY count DESC returns the groups with the largest counts first |
| Queries.RankMembers | extraction.py:105 | ORDER BY returns the same groups, each as often |
| Queries.RankTotal | extraction.py:105 | ranking keeps the total of the counts |
| Queries.FrequencyRanking | extraction.py:105 | computes query 7: the per-sender counts ranked by count, highest first; `FrequencyRankingOrder` states its rows |
| Queries.FrequencyRankingOrder | extraction.py:105 | query 7 lists every sender's count, largest first, and the counts add up to the total |
| Queries.RankedFirst | extraction.py:106 | the first ranked group is one of the groups and no group has a larger count |
| Queries.MostActiveDay | extraction.py:106 | computes query 8: the first row of the per-day counts ranked by count, or no row; `MostActiveDayIsBusiest` states it |
| Queries.MostActiveDayIsBusiest | extraction.py:106 | query 8 returns no row exactly on an empty table, and otherwise a day of the table with no day having more emails |

## Left out

- Reading the file (`open`, iterating over lines): the model takes the lines as a sequence. Line terminators are part of a line and never match `\S`. A file that cannot be opened is not modelled.
- `save_to_mongodb`, `transfer_to_sqlite`, `main` and the printing in `run_sql_queries`: the table rows are modelled as the extracted records in order. The per-query exception handler is not modelled.
- Query 9 (`strftime('%w', date)`, emails by weekday) is not modelled.
- Query 10 (`AVG` over per-day counts) is not modelled, because its result is a floating-point number.
- Python's Unicode-aware `\s`, `\w` and `\d`, and case-insensitive matching of non-ASCII letters: the model uses the ASCII classes.
  - For example, the pattern's `\w{3}` would also take non-ASCII letters, which `strptime` then rejects as an unknown name.
- Locale: the weekday and month names are the C locale's English abbreviations.
- `%Y` padding: strftime is modelled as writing four digits. Some older glibc-based Python builds write years below 1000 without zero padding.
- SQLite's `date()` and `strftime()` on text that is not a canonical timestamp: `Queries.Day`, `Queries.Month` and the day and month queries require stored rows (`Queries.Stored`). `Queries.ExtractionStored` shows that extracted records always are.
- Queries.RankSorted: states the descending order and the permutation, not the order among equal counts, which SQL leaves open.
- LinePattern.MatchSender: states the space on either side of the sender as `StartsAt` facts about the line, not as a lemma that no longer non-whitespace run exists there.
- `strptime`'s `%d` alternative ` [1-9]` (a space, then one digit): it moves one space from the gap into the field and yields the same number as `[1-9]`, so the model reads the field as digits only.
