# phishstat in Dafny

A model of the core of phishstat, a tool that reports on a phishing
campaign. It correlates three inputs:

- a roster of targets, one `email,role` line each;
- a mapping from each target's email to its tracking token (`email,ref`);
- an Apache access log.

It loads them into three relations, Employee, Link and Payload, and then
builds seven statistics worksheets from those relations. The model covers
three parts, file by file.

- **Log classifier** (`parse_apache_log`, modules `LogParser` and `Query`).
  - Each line is matched against the nine-field Extended Common Log Format
    pattern. The pattern is written as a deterministic field splitter.
  - A matched line is judged a link click, a download click, or nothing.
  - The token is the concatenated values of the parameter in a URL query.
  - The loop is the method `ParseApacheLog`. It is proved equal to the
    function `ParseLog`.
- **Loaders** (`populate_Employee`, `populate_Link`, `populate_Payload`,
  modules `Database`, `Schema`, `Timestamp` and `Strings`).
  - The database is the class `Store`. It holds the three tables as
    sequences and the Payload auto-increment counter.
  - Each `Populate*` method inserts one row per line into a pending copy
    and commits it only after the last line.
  - The first line that cannot be split, whose date does not parse, or that
    breaks a key or foreign-key constraint ends the load. The tables are
    then unchanged.
  - Each method is proved against a pure `Load*` function. The constraints
    of the schema are an invariant of the class (`Store.Valid`).
  - Dates are parsed from the fixed `DD/Mon/YYYY:HH:MM:SS` shape into
    integer seconds on the proleptic Gregorian calendar.
- **Statistics** (the seven `generate_*` functions and `write_worksheet`,
  modules `Statistic` and `Grouping`).
  - Every SQL query is a pure function over the relations.
  - Each table builder is a method that follows the source's code, with its
    loop where the source has one. It is proved to hand `WriteWorksheet`
    the table that a pure `*Table` function describes.
  - Lemmas state what each table means: its keys, its counts, its order
    and its totals.

The payload kind is the enumeration `Kind = Link | Download`. The
classifier stores `"link"` and `"download"`, while the statistics compare
with `'Link'` and `'Download'`. The comparison only succeeds because the
database collation ignores case, and the enumeration captures that
outcome.

## Model

| member | source | states |
|---|---|---|
| LogParser.MatchComplete | phishstat.py:106-112 | Any line that begins with a well-formed nine-field record matches with exactly those fields, whatever text follows (the match is anchored only at the start) |
| LogParser.MatchSound | phishstat.py:106-112 | A match yields fields free of their stop characters, and the line begins with the record they render |
| LogParser.MatchFailsIff | phishstat.py:106-114 | A line fails to match exactly when it begins with no well-formed record |
| LogParser.WellFormedFits | phishstat.py:106-108 | A record is well formed exactly when each group avoids the character that ends it in the pattern |
| LogParser.GroupsComplete | phishstat.py:106-108 | Groups that fit the steps, followed by any rest, are recovered by the splitter |
| LogParser.GroupsSound | phishstat.py:106-108 | A successful split renders back to a prefix of the line |
| LogParser.TakeSound | phishstat.py:106-108 | A step that succeeds takes a group free of its stop character, and the text is that group, the literal and the rest |
| LogParser.TakeExact | phishstat.py:106-108 | One step takes back a group free of its stop character, followed by its literal |
| LogParser.LinkEntryIff | phishstat.py:118-124 | A link entry arises exactly when the status is "200", the parameter occurs in the request, the request has a second token, and that token's query has the parameter as a key; the ref is the concatenation of its values |
| LogParser.DownloadEntryIff | phishstat.py:125-132 | A download entry arises exactly when the status is "200", the parameter does not occur in the request, "download" does, and the referer's query has the parameter; the ref comes from the referer |
| LogParser.JudgeDownload | phishstat.py:125-132 | The same condition for a matched record; the test that the parameter occurs in the referer never changes the result |
| LogParser.RequestWithoutKey | phishstat.py:118-125 | If the parameter occurs in the request but is not a key of its query, no entry arises and the download branch is not tried |
| LogParser.OnlyStatus200 | phishstat.py:118-125 | Any status other than "200" gives no entry |
| LogParser.SplitFailureIff | phishstat.py:118-119 | `request.split()[1]` fails exactly on a matched "200" line whose request holds the parameter and has fewer than two tokens |
| LogParser.EntryFields | phishstat.py:115-131 | An entry's host is the first group, its agent the ninth, and its date the bracketed group unchanged |
| LogParser.ParseApacheLog | phishstat.py:101-137 | The loop returns the result of `ParseLog`: entries appended in line order, unmatched lines warned about, and a stop at the first failing split |
| LogParser.RunStep | phishstat.py:111-135 | One more line extends the result exactly as the loop body does |
| LogParser.RunCrashedStays | phishstat.py:111-119 | Lines after the failing split are never read |
| LogParser.RunCrashedIff | phishstat.py:111-119 | The run crashes at line k exactly when k is the first line whose verdict is a split failure |
| LogParser.RunFirstFailure | phishstat.py:111-119 | Any split failure makes the run crash at or before it |
| LogParser.RunSources | phishstat.py:111-132 | The entries are the emitting verdicts' entries, one per emitting line, in line order |
| LogParser.RunWarnings | phishstat.py:111-135 | The warnings are exactly the unmatched lines' indices, in order |
| LogParser.CrashedIff | phishstat.py:111-119 | Over the log lines, the result is `Crashed(k)` exactly when line k is the first line whose request cannot be split |
| LogParser.ParsedShape | phishstat.py:111-135 | A completed parse lists the emitted entries in input order, at most one per line and none missing, and warns exactly about the lines that do not match the pattern; processing continues past them |
| Query.QueryOfBuilt | phishstat.py:119 | The query of `path?query#fragment` is `query` |
| Query.QueryOfContained | phishstat.py:127-129 | A URL's query occurs inside the URL |
| Query.PairsEncode | phishstat.py:121-122 | Pairs written as `name=value&...` parse back to exactly those pairs |
| Query.KeptSegments | phishstat.py:121-122 | Each written segment gives back its pair |
| Query.EncodedValues | phishstat.py:121-122 | So the values of a key are exactly the values written for it, in order |
| Query.HasKeyContained | phishstat.py:125-129 | A key with a value in a query occurs in the query as text |
| Query.NamedSegment | phishstat.py:121 | A reported key is the name part of some segment |
| Strings.IndexOf | phishstat.py:106-108 | The first occurrence of a character, or the length when there is none |
| Strings.JoinSplit | database.py:84-85 | Splitting at a character and joining again gives back the line |
| Strings.SplitJoin | database.py:84-85 | Joining separator-free parts and splitting again gives back the parts |
| Strings.SplitSingle | database.py:84-85 | A split has one part exactly when there is no separator |
| Strings.SplitPrefix | database.py:84-85 | Splitting `a,b` with `a` comma-free puts `a` before the parts of `b` |
| Strings.SplitPartContained | phishstat.py:121-122 | Every part of a split occurs in the input |
| Strings.RStrip | database.py:85 | The result is a prefix that ends in no whitespace, and only whitespace was removed |
| Strings.Tokens | phishstat.py:119 | `str.split()` gives non-empty whitespace-free tokens |
| Strings.TokensJoin | phishstat.py:119 | `str.split()` of non-empty whitespace-free words joined by whitespace gives back exactly those words |
| Strings.TokensAfterWord | phishstat.py:119 | A word followed by whitespace is the first token of `str.split()`, and the rest are the tokens of what follows |
| Strings.FirstToken | database.py:134 | The first token of `w` followed by a blank is `w` |
| Strings.TokensOfWord | database.py:134 | A whitespace-free word is its own single token |
| Strings.ContainsMiddle | phishstat.py:118 | `sub in a + sub + b` |
| Strings.ContainsTransitive | phishstat.py:125-126 | Occurring in something that occurs in `s` means occurring in `s` |
| Strings.LessTransitive | statistic.py:78-79 | The ORDER BY order is transitive |
| Strings.LessTotal | statistic.py:78-79 | Any two different keys are ordered one way or the other |
| Strings.LessIrreflexive | statistic.py:78-79 | No key is below itself |
| Database.CommaFieldsNone | database.py:84-85 | Reading the second field fails exactly on a line without a comma |
| Database.CommaFieldsOf | database.py:84-85 | The first field is taken as written, the second right-stripped, and text after a second comma is ignored |
| Database.SplitTwo | database.py:84-85 | `first,second...` splits with those two fields first |
| Database.EmployeesDone | database.py:83-94 | A completed roster load appends one row per line, in order, each `(client, email, role)` of its line with the run's client |
| Database.EmployeesDoneUnique | database.py:31-36 | A completed roster load keeps the key (email, client) unique |
| Database.EmployeesStopped | database.py:83-98 | A stopped roster load stops at a line reached after every earlier line split; the failure is a missing comma (exactly when the line has none) or a duplicate key |
| Database.EmployeesDuplicate | database.py:92-98 | A duplicate key is already in the table or on an earlier line of the same file |
| Database.AppendEmployee | database.py:35 | Inserting an absent key keeps the Employee key unique |
| Database.LinksDone | database.py:107-119 | A completed mapping load appends one `(ref, email)` row per line, in order, the ref right-stripped |
| Database.LinksDoneValid | database.py:38-45 | A completed mapping load keeps refs unique and every email an employee's |
| Database.LinksStopped | database.py:107-123 | A stopped mapping load stops at a line reached after every earlier line split and resolved; the cause is a missing comma, an email no employee has, or a duplicate ref, with the first two as exact conditions |
| Database.LinksDuplicate | database.py:117-123 | A duplicate ref is already in the table or on an earlier line of the same file |
| Database.AppendLink | database.py:41 | Inserting an absent ref keeps the Link key unique |
| Database.EmployeesGrow | database.py:42 | Adding employees keeps every link's email resolved |
| Database.LinksGrow | database.py:57 | Adding links keeps every payload's ref resolved |
| Database.AppendPayload | database.py:50-57 | A row with a resolved ref and the next id keeps refs resolved and ids increasing |
| Database.PayloadsDone | database.py:132-147 | A completed payload load appends one row per entry, in order, with ids `id, id+1, ...`, the entry's kind, host, agent and ref, and its date in seconds |
| Database.PayloadsIff | database.py:132-151 | A payload load completes exactly when every date parses and every ref is a link's ref; otherwise it stops at the first failing entry, with a missing date token, a malformed date or a dangling ref as the exact cause |
| Database.InsertPayloads | database.py:132-145 | The insert loop returns the result of `LoadPayloads`, and the rows it returns keep refs resolved and ids increasing below the new counter |
| Database.Store.constructor | database.py:31-60 | A new database has empty tables, the auto-increment counter at 1, and satisfies every constraint |
| Database.Store.PopulateEmployee | database.py:77-98 | The outcome is that of `LoadEmployees`; the Employee table becomes the loaded rows on success and is unchanged on failure; the other tables and the counter are unchanged; the constraints still hold |
| Database.Store.PopulateLink | database.py:101-123 | The outcome is that of `LoadLinks`; the Link table becomes the loaded rows on success and is unchanged on failure; the other tables are unchanged; the constraints still hold |
| Database.Store.PopulatePayload | database.py:126-151 | The outcome is that of `LoadPayloads` over the parsed dates; on success the Payload table is the loaded rows and the counter has advanced by one per entry; on failure neither changes; the constraints still hold |
| Timestamp.ParseLogDateOfFormat | database.py:133-136 | A date field as the access log writes it, timestamp then zone, parses to that timestamp's seconds |
| Timestamp.ZoneDiscarded | database.py:133-134 | Everything after the first blank, the zone offset, is discarded |
| Timestamp.ParseLogDate | database.py:133-134 | The date is missing exactly when the field has no token |
| Timestamp.ParseFormat | database.py:135 | Parsing a formatted valid timestamp gives it back |
| Timestamp.ParseClock | database.py:135 | Only valid dates are accepted |
| Timestamp.FormatFields | database.py:135 | Each field of `DD/Mon/YYYY:HH:MM:SS` is where the format expects it and reads back |
| Timestamp.MonthNumberOfName | database.py:135 | Each month abbreviation reads back as its month |
| Timestamp.MonthNumber | database.py:135 | A month abbreviation gives a month from 1 to 12 |
| Timestamp.SecondsOrder | statistic.py:133-156 | Comparing seconds orders dates exactly as the calendar does, and equal seconds mean equal dates |
| Timestamp.DayNumberOrder | statistic.py:133-156 | An earlier year, or an earlier month of the same year, gives an earlier day number |
| Timestamp.YearStep | statistic.py:133-156 | Consecutive years are one year's days apart |
| Timestamp.YearMonotone | statistic.py:133-156 | A later year starts after an earlier year ends |
| Timestamp.MonthMonotone | statistic.py:133-156 | A later month starts after an earlier month ends |
| Timestamp.MonthFits | statistic.py:133-156 | Each month ends within its year |
| Statistic.WriteWorksheet | statistic.py:24-56 | No rows means no sheet; otherwise one table keeps name, headers and rows and spans rows 0..len(data) and columns 0..len(headers)-1 |
| Statistic.GenerateClickTypesPerUser | statistic.py:59-115 | The sheet written is `ClickTypesTable` |
| Statistic.ClickTypesKeys | statistic.py:74-86 | One row per distinct Payload.ref, in ascending order |
| Statistic.ClickTypesCounts | statistic.py:88-106 | Each row is `[ref, downloads, links, total]`, the total being the number of payloads with that ref |
| Statistic.ClickTypesTotal | statistic.py:86-106 | The totals add up to the number of payloads |
| Statistic.GenerateClicksOverTime | statistic.py:118-187 | The loop writes `OverTimeTable`: one row per minute from MIN(date) while below MAX(date) |
| Statistic.OverTimeTableSpec | statistic.py:145-178 | Row i is at MIN + 60i, below MAX, with the downloads and links dated up to that time |
| Statistic.OverTimeExtent | statistic.py:145-178 | The rows reach within a minute of MAX, and there are none when MIN equals MAX |
| Statistic.OverTimeMonotone | statistic.py:145-178 | The counts are cumulative and never decrease from row to row |
| Statistic.OverTimeNeverComplete | statistic.py:145-178 | No row counts every payload, because the walk stops before the latest date |
| Statistic.TicksSpec | statistic.py:145-178 | The ticks are MIN + 60i, each below MAX, and the next one would reach MAX |
| Statistic.TicksCount | statistic.py:145-178 | There are n ticks exactly when the n-th step is the first to reach MAX |
| Statistic.MinDate | statistic.py:133-134 | `MIN(Payload.date)` is at most every date and is one of them |
| Statistic.MaxDate | statistic.py:133-135 | `MAX(Payload.date)` is at least every date and is one of them |
| Statistic.CountUpToMonotone | statistic.py:150-156 | A later cut-off counts at least as many payloads |
| Statistic.CountUpToBound | statistic.py:150-156 | Downloads and links up to a time together fall short of all payloads while one is later |
| Statistic.GenerateEmailDistribution | statistic.py:190-242 | The sheet written is `DistributionTable` |
| Statistic.DistributionSpec | statistic.py:204-233 | One row per distinct role, in ascending order, with the number of employees holding it |
| Statistic.DistributionTotal | statistic.py:216-233 | The counts add up to the number of Employee rows |
| Statistic.GenerateClicksPerPayloadType | statistic.py:245-282 | The sheet is always written, with `PayloadTypeTable` |
| Statistic.PayloadTypeTableSpec | statistic.py:258-273 | Exactly two rows, Download then Link, whose counts add up to the number of payloads |
| Statistic.KindsTotal | statistic.py:258-261 | Every payload is either a download or a link |
| Statistic.GenerateClickOriginatingIp | statistic.py:285-335 | The sheet written is `OriginTable` |
| Statistic.OriginSpec | statistic.py:298-326 | One row per distinct host, with no order promised, each with its number of payloads |
| Statistic.OriginTotal | statistic.py:309-326 | The counts add up to the number of payloads |
| Statistic.GenerateUsersWhoDidAndDidNotClick | statistic.py:338-391 | The sheet "User Who Did (Not) Click" is always written, with `ClickedTable` |
| Statistic.ClickedTableSpec | statistic.py:352-382 | Rows "Users Clicked" and "Users Not Clicked", whose counts add up to the number of Link rows, not of employees |
| Statistic.ClickedSplit | statistic.py:352-379 | Every Link row is counted as clicked or as not clicked, once |
| Statistic.GenerateClicksPerDepartment | statistic.py:394-501 | The sheet written is `DepartmentTable` |
| Statistic.DepartmentSpec | statistic.py:409-492 | One row per distinct role, in ascending order, with the downloads and links whose ref is a link of an employee with that role, and their sum |
| Statistic.DepartmentKindsBound | statistic.py:425-490 | A department's downloads and links never exceed the payloads |
| Statistic.RefKindsTotal | statistic.py:88-104 | Per ref, downloads plus links are all payloads with that ref |
| Statistic.RefsOfMembers | statistic.py:74-79 | The ref column holds exactly the payloads' refs |
| Statistic.HostsOfMembers | statistic.py:298-302 | The host column holds exactly the payloads' hosts |
| Statistic.RolesOfMembers | statistic.py:204-209 | The role column holds exactly the employees' roles |
| Statistic.ColumnSumOfCounts | statistic.py:86-106 | Summing per-key counts gives the sum of occurrences over the keys |
| Grouping.DistinctSorted | statistic.py:74-79 | `SELECT DISTINCT ... ORDER BY`: strictly ascending, with exactly the column's values |
| Grouping.SortedUnique | statistic.py:74-79 | Only one strictly ascending list has given elements, so the order is determined |
| Grouping.Dedup | statistic.py:298-302 | `SELECT DISTINCT` without ORDER BY: no repeats, exactly the column's values |
| Grouping.Insert | statistic.py:74-79 | Inserting into a strictly ascending list keeps it so and adds exactly the new key |
| Grouping.Occ | statistic.py:221-225 | `COUNT(*) ... WHERE key = k` is positive exactly when k occurs |
| Grouping.SumOccCoversColumn | statistic.py:216-233 | Counting each distinct key and adding up counts every row once |
| Grouping.SortedIsDistinct | statistic.py:74-79 | A strictly ascending list has no repeats |

## Left out

- The MySQL connection, the DDL statements and the SQL text are not
  modelled. Keys and foreign keys are checks on the sequences. VARCHAR
  length limits and their truncation are not modelled.
- Collation is not modelled. The utf8 collation compares keys without
  regard to case or trailing spaces, but the model compares them exactly.
  This affects every comparison of keys:
  - duplicate-key detection;
  - foreign-key checks: `Payload.ref` against `Link.ref`, and `Link.email`
    against `Employee.email`;
  - `WHERE key = ...` and `ref IN (...)`;
  - the grouping of `SELECT DISTINCT`;
  - ORDER BY, which the model reads as code-point order.

  Two examples follow.
  - A Link with ref `AAA` and a log entry with ref `aaa`, or `AAA ` with a
    trailing blank, pass the database's foreign-key check. The database
    commits that payload. The model's `LoadPayloads` instead stops with
    `DanglingReference`, and `Store.PopulatePayload` returns `Failed` with
    the Payload table unchanged. A mapping line whose email differs from
    an employee's only in case behaves the same way under `LoadLinks`.
  - The roles `Eng` and `eng` form one group in the database but two rows
    of `DepartmentTable` and `DistributionTable`.

  In such inputs the model stops loads that the source completes, and it
  splits groups that the source merges. The source relies on the
  collation deliberately in one place, the case of the payload kind, and
  `Kind` captures that.
- SQL injection through quotes in keys is not modelled. Neither is the
  `'{}'.format` quoting.
- The TIMESTAMP column's range and time zone are not modelled. A date is
  whole seconds since 0001-01-01 on the proleptic Gregorian calendar.
- The `%H:%M:%S` rendering of the time column is not modelled. A `Clock`
  cell holds the seconds.
- xlsxwriter styling, the workbook and the output file name are not
  modelled. A sheet is its name, headers, rows and extent.
- Logging and the command line are not modelled: `parse_args`, `main` and
  `KeyboardInterrupt`. Warnings are represented only as the list of
  unmatched line indices and the `Skipped` sheet's message.
- `sys.exit(1)` is not modelled. A MySQL error and an uncaught
  IndexError or ValueError both end the run with nothing from that file
  committed. The model returns `Failed(cause, line)` and leaves the store
  unchanged. The CLI would then end, so no later load runs.
- Auto-increment values consumed by a rolled-back insert are not modelled.
  After a failed payload load, the counter is unchanged.
- `Timestamp.ParseClock`: accepts only the fixed shape that an access log
  writes. That shape is two-digit day, hour, minute and second, and a
  four-digit year. `strptime` would also accept one-digit fields.
- `Query.Pairs`: percent-decoding and '+'-decoding are not modelled.
  Neither is the `urlparse` ValueError on malformed IPv6 netlocs. Blank
  values are dropped, as `parse_qs` does by default.
- `LogParser.MatchLogLine`: the regular expression engine is not modelled
  in general. Only this pattern is, as a field splitter. Each group runs
  to the first stop character, so the match is unique.
- `Database.Store.PopulatePayload`: its contract describes the dates of
  all entries together, by `DatesOf`. The loop in `InsertPayloads` still
  parses each entry's date as it reaches it, as the source does.
- The database rejecting a duplicate Link whose email does not exist is
  modelled as a dangling reference, not a duplicate key. Both end the run
  the same way, and only the reported cause differs.
- "Users Clicked" reads as a count of recipients, but the code counts Link
  rows whose ref has a payload. The model follows the code, so the two
  counts add up to the number of Link rows.
- The order of `SELECT DISTINCT Payload.host` is not modelled. The source
  gives no ORDER BY, and the model uses first-occurrence order. The
  `OriginSpec` contract states no order.
