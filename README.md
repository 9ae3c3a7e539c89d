# jocarsa-seagreen report core, modelled in Dafny

jocarsa-seagreen reads Apache access logs and draws charts from them. Before any plotting, each report reads the log line by line and extracts one field. It then classifies or validates that field, counts the results in a Python dict in insertion order, and passes the labels and counts to matplotlib. This project models that logic and proves what each report computes. The charts themselves are not modelled.

The reports covered:

- **Response status, operating systems, browsers, robots** (`funciones/masfunciones.py`).
  - `parse_log_line` matches the Combined Log Format pattern. It is modelled as a deterministic scanner, proved equal to the pattern's meaning.
  - Each report loop keeps the lines the parser accepts and counts one label per record:
    - the status code;
    - the first matching OS rule;
    - the first matching browser rule;
    - robot or human.
  - From those counts each report builds the chart data, or nothing.
- **Countries** (`funciones/paises.py`).
  - The leading token of each line is validated as a dotted-quad IPv4 address and counted per address.
  - The address counts are folded into per-country counts through an abstract GeoIP lookup. Addresses that do not resolve go to `unknown_ips`.
  - The countries are sorted by count, descending and stable, and `combine_small_slices` merges the slices under 2% into a trailing `Other`.
- **Top 20 addresses** (`funciones/distintasips.py`). Lines are counted by their first space-delimited field. The counts are sorted descending and stable, and the result is cut to 20.
- **Hourly** (`funciones/registrosporhora.py`).
  - The text between the first `[` and the first `]` is sliced with Python's slice rules, including `find` returning -1.
  - Its second `:`-field is the hour, and lines are counted per hour.
  - The hours are listed in ascending order. A line without a `:` raises `IndexError` and aborts the report.

## How the model is organised

- `Tables` models a Python dict of counts as a sequence of `Entry(key, count)` in first-insertion order.
  - `Add` is `d[k] = d.get(k, 0) + n`.
  - `Tally` is the dict a counting loop builds from a list of keys.
  - `SortDesc` is `sorted(items, key=count, reverse=True)`, which is stable.
- `Text` holds Python's string operations:
  - `str.find` for one character, `str.split`, and `s[a:b]` with negative and out-of-range bounds;
  - the `\s` and `\d` classes and substring search.
- Each report is a method. Its loop mirrors the source's loop, and it is proved equal to a specification function of the lines (for example `ResponseStatusChart` returns `ChartOf(Tally(Statuses(Records(lines))))`). Lemmas then establish what the source promises about that function.
- The log is a sequence of lines, each with its newline when the file has one. The GeoIP reader is a function parameter `string -> Lookup`.

## Model

| member | source | states |
|---|---|---|
| LogLine.ParseLogLine | funciones/masfunciones.py:16-27 | a parsed record has a non-empty `ip` without white space, a `status` of exactly three digits and a `user_agent` without `"` |
| LogLine.ParseLogLineAccepts | funciones/masfunciones.py:16-19 | a line is accepted exactly when it starts with a well-formed Combined Log Format prefix, followed by any text |
| LogLine.ParseRender | funciones/masfunciones.py:20-25 | parsing a line built from well-formed fields returns exactly their ip, status and agent, whatever follows the prefix |
| LogLine.ParseRejectsNonNumericSize | funciones/masfunciones.py:17 | a size field that is not all digits, such as `-`, makes the line unparseable |
| LogLine.ScanSound | funciones/masfunciones.py:17-19 | a match yields well-formed fields that spell out a prefix of the line |
| LogLine.ScanComplete | funciones/masfunciones.py:17-19 | every well-formed prefix is matched, with exactly its fields |
| LogReports.DashSizeLineIgnored | funciones/masfunciones.py:40-41 | a line with `-` as its size, wherever it stands in the log, adds no record to any report |
| LogReports.RecordsFromLines | funciones/masfunciones.py:39-41 | every record comes from a line the parser accepts, and there are no more records than lines |
| LogReports.AcceptedAppend | funciones/masfunciones.py:39-41 | the records of a log read in two parts are the records of each part, in order |
| LogReports.ResponseStatusChart | funciones/masfunciones.py:36-51 | the status loop returns the tally of the accepted lines' status codes, or no chart when that tally is empty |
| LogReports.StatusChartFacts | funciones/masfunciones.py:36-51 | the chart is missing exactly when no line is accepted. Otherwise its labels are distinct three-digit codes, one per code seen, each sized by its number of lines, and the sizes sum to the accepted lines |
| LogReports.RuleChart | funciones/masfunciones.py:86-106 | the first-match classification loop returns the tally of the labels of the accepted agents, or no chart |
| LogReports.OperatingSystemsChart | funciones/masfunciones.py:75-106 | the OS report is the rule chart of the OS table |
| LogReports.BrowsersChart | funciones/masfunciones.py:130-162 | the browser report is the rule chart of the browser table |
| LogReports.RuleChartFacts | funciones/masfunciones.py:92-106 | the sizes sum to the accepted lines, each label is a rule name, labels are distinct and sized by their occurrences |
| LogReports.CountRobots | funciones/masfunciones.py:186-208 | the loop's two counters are the number of accepted agents that are and are not robots |
| LogReports.RobotPieLists | funciones/masfunciones.py:210-225 | the three lists are built as the robot chart of the two counts |
| LogReports.RobotsChart | funciones/masfunciones.py:186-225 | the robot report is the robot chart of the counted agents |
| LogReports.RobotPieFacts | funciones/masfunciones.py:210-225 | there is no chart exactly when both counts are zero. Otherwise labels, sizes and colours are aligned, `Robot` (`#ff9999`) appears iff robots > 0 and comes first, `Human` (`#66b3ff`) iff humans > 0, and the sizes sum to both counts |
| LogReports.RobotChartFacts | funciones/masfunciones.py:199-225 | there is no chart exactly when no line is accepted. Robots plus humans equal the accepted lines, and each label appears exactly when some agent is of its kind |
| LogReports.CountIfSplit | funciones/masfunciones.py:204-208 | every agent is counted exactly once, as robot or as human |
| LogReports.VirtualHostMeaning | funciones/masfunciones.py:60-61 | the virtual host is the file stem up to its first `-`, or the whole stem when it has none |
| UserAgents.CountAgent | funciones/masfunciones.py:90-98 | the `for … break` loop over a rule table adds one to the label of the first rule that matches, or to `Other` |
| UserAgents.FirstMatch | funciones/masfunciones.py:92-96 | the chosen rule is the first that matches, and no earlier rule matches |
| UserAgents.OsLabels | funciones/masfunciones.py:77-98 | the OS label follows the order Windows NT, Mac OS X, Linux, Android, iPhone/iPad, Other, and the `.*` fallback always matches, so the code at 97-98 is never reached |
| UserAgents.LinuxShadowsAndroid | funciones/masfunciones.py:80-81 | an agent naming Linux, and neither Windows NT nor Mac OS X, counts as Linux even when it also names Android |
| UserAgents.AndroidLabel | funciones/masfunciones.py:77-96 | an agent counts as Android exactly when it says Android and none of the three earlier names |
| UserAgents.ChromePatternMeaning | funciones/masfunciones.py:133 | the Chrome pattern, with its negative lookahead, matches exactly when some `Chrome/` has no `Edg` later on its line and is not directly followed by `OPR` |
| UserAgents.SafariPatternMeaning | funciones/masfunciones.py:135 | the Safari pattern, with its negative lookahead, matches exactly when some `Safari/` has no `Chrome` later on its line |
| UserAgents.BrowserLabels | funciones/masfunciones.py:132-154 | the browser label follows the order Chrome, Firefox, Safari, Edge, Internet Explorer, Opera, Other, and the fallback always matches |
| UserAgents.BrowserTailLabels | funciones/masfunciones.py:136-139 | the four literal rules after Safari pick Edge, Internet Explorer, Opera or Other in that order |
| UserAgents.ChromeWins | funciones/masfunciones.py:133 | an agent that satisfies the Chrome rule counts as Chrome |
| UserAgents.SafariWins | funciones/masfunciones.py:134-135 | an agent that fails Chrome and Firefox but satisfies Safari counts as Safari |
| UserAgents.EdgeAgentNotChrome | funciones/masfunciones.py:133 | a typical Edge agent fails the Chrome rule because `Edg` follows its `Chrome/` |
| UserAgents.EdgeAgentCountsAsSafari | funciones/masfunciones.py:132-136 | a typical Edge agent is counted as Safari, not Edge: the Safari rule comes first and matches |
| UserAgents.OperaAgentCountsAsChrome | funciones/masfunciones.py:132-138 | a typical Opera agent, with `OPR/` after ` Safari/…`, is counted as Chrome |
| UserAgents.RobotTokens | funciones/masfunciones.py:189-204 | an agent is a robot exactly when it contains `bot`, `spider`, `crawl` or `facebookexternalhit` ignoring case; `Googlebot` and `Bingbot` add nothing |
| UserAgents.GooglebotIsRobot | funciones/masfunciones.py:194 | Googlebot's agent string is classified as a robot |
| UserAgents.WindowsBrowserIsHuman | funciones/masfunciones.py:204-208 | a plain Windows browser agent is classified as human |
| Countries.LeadingToken | funciones/paises.py:52-60 | `^(\S+)` captures the longest non-empty prefix without white space, and fails exactly on an empty line or one that starts with white space |
| Countries.IPv4Shape | funciones/paises.py:63 | a token is accepted exactly when it is four parts joined by dots, each 1-3 ASCII digits, at most 255, without a leading zero |
| Countries.BadOctetExamples | funciones/paises.py:63-67 | the parts `01`, `256`, `1000` and the empty part are rejected |
| Countries.ValidAddressExample | funciones/paises.py:63-64 | `192.168.0.1` is accepted |
| Countries.LeadingZeroExample | funciones/paises.py:63-67 | `01.2.3.4` is rejected |
| Countries.LargePartExample | funciones/paises.py:63-67 | `256.1.1.1` is rejected |
| Countries.ThreePartsInvalid | funciones/paises.py:63-67 | an address with three parts is rejected |
| Countries.AddressOfMeaning | funciones/paises.py:57-67 | a line counts for `ip` exactly when `ip` is a valid address, starts the line and is followed by white space or the line's end |
| Countries.IndentedLineSkipped | funciones/paises.py:58-59 | a line that starts with white space is skipped |
| Countries.ValidIpsOf | funciones/paises.py:56-67 | the counted addresses are exactly the valid leading tokens of the lines, at most one per line |
| Countries.CountValidIps | funciones/paises.py:47-67 | the reading loop returns the tally of the lines' valid leading addresses |
| Countries.GetCountryResolved | funciones/paises.py:11-31 | an address resolves exactly when the lookup finds a country name that none of the failure tests rejects; every exception leaves it unresolved |
| Countries.CountryCounts | funciones/paises.py:91-94 | the country table has distinct resolved keys, and each country's count is the sum of the counts of the addresses that resolve to it |
| Countries.UnresolvedOf | funciones/paises.py:91-96 | `unknown_ips` holds exactly the table's unresolved addresses, in their first-seen order |
| Countries.UnresolvedDistinct | funciones/paises.py:95-96 | `unknown_ips` has no duplicates |
| Countries.FoldConserves | funciones/paises.py:91-96 | the country counts plus the counts of the unknown addresses equal the total of the address table |
| Countries.FoldCountries | funciones/paises.py:86-96 | the folding loop returns the country table and `unknown_ips` |
| Countries.CombineSmallSlices | funciones/paises.py:120-146 | the loop returns the labels and sizes of the kept slices followed by `Other` with the sum of the small slices, when that sum is positive |
| Countries.CombineFacts | funciones/paises.py:132-146 | the total size is preserved. The kept slices come first, in their input order; they are input pairs with `size*50 >= total`, and every such pair is kept. At most one entry follows them: `Other`, appended exactly when some small slice has a positive size |
| Countries.KeptMeaning | funciones/paises.py:136-142 | the kept slices are exactly the input pairs that are not small |
| Countries.KeptStable | funciones/paises.py:136-142 | keeping the large slices a second time changes nothing, and nothing small is left |
| Countries.MergedIdempotent | funciones/paises.py:120-146 | merging an already merged list of slices again, with the same total, changes nothing |
| Countries.CombineIdempotent | funciones/paises.py:120-148 | `combine_small_slices` applied to its own result returns that result, even when an input label is `Other` |
| Countries.CountriesPieChart | funciones/paises.py:47-148 | the report computes exactly the outcome `CountryReportOf`: no valid address, no country, or the merged chart and `unknown_ips` |
| Countries.TablesEmpty | funciones/paises.py:72-74 | the address table is empty exactly when no line counts, and the country table is empty exactly when no counted address resolves |
| Countries.CountryTableEmpty | funciones/paises.py:101-103 | the country table is empty exactly when no address of the table resolves |
| Countries.ChartSums | funciones/paises.py:91-148 | the chart's sizes plus the accesses of the unknown addresses equal the number of counted lines |
| Countries.CountryReportFacts | funciones/paises.py:72-148 | no chart is drawn exactly when no valid line exists or no address resolves. Otherwise labels and sizes are aligned, the chart and the unknown addresses account for every counted line, and `unknown_ips` is exactly the unresolved addresses |
| DistinctIps.FirstFieldMeaning | funciones/distintasips.py:12 | the key is the text before the first space: the whole line when it has none, `""` when it starts with one |
| DistinctIps.CountFirstFields | funciones/distintasips.py:9-16 | the counting loop returns the tally of the lines' first fields |
| DistinctIps.FieldTable | funciones/distintasips.py:11-16 | the counts sum to the number of lines, and every line's key is in the table |
| DistinctIps.DistinctIPs | funciones/distintasips.py:9-21 | the report returns the aligned keys and counts of the top entries of the tally |
| DistinctIps.TopSize | funciones/distintasips.py:19 | the top list has min(20, number of distinct keys) entries |
| DistinctIps.TopEntries | funciones/distintasips.py:19-21 | the top list is non-increasing, without repeated keys, and each count is the number of lines with that key |
| DistinctIps.TopOmitted | funciones/distintasips.py:19 | a key left out of the top list has a count no larger than any listed count |
| DistinctIps.TopTies | funciones/distintasips.py:13-19 | keys with equal counts are listed in the order they were first seen in the log |
| DistinctIps.SortedDistinct | funciones/distintasips.py:19 | sorting a table with distinct keys keeps its keys distinct |
| Hourly.TimestampBetween | funciones/registrosporhora.py:12-14 | with a `[` before the first `]`, the text is exactly what lies between them |
| Hourly.TimestampNoOpen | funciones/registrosporhora.py:12-14 | without a `[` the slice starts at index 0 |
| Hourly.TimestampNoClose | funciones/registrosporhora.py:13-14 | without a `]` the end index -1 stops the slice before the last character |
| Hourly.TimestampNoBrackets | funciones/registrosporhora.py:12-14 | a line with neither bracket gives everything but its last character |
| Hourly.TimestampBackwards | funciones/registrosporhora.py:12-14 | a `]` before the first `[`, or right after it, gives `""` |
| Hourly.BracketText | funciones/registrosporhora.py:12-14 | for `pre[stamp]post` without earlier brackets, the text is `stamp` |
| Hourly.HourOfMeaning | funciones/registrosporhora.py:15-16 | a line has an hour exactly when its timestamp text contains `:`; the hour is the text after the first `:` up to the next one |
| Hourly.HourOfShape | funciones/registrosporhora.py:12-16 | `pre[day:hour:rest]post` gives `hour` |
| Hourly.ApacheTimestampHour | funciones/registrosporhora.py:12-16 | `[10/Oct/2000:13:55:36 -0700]` gives the hour `13` |
| Hourly.HourlyReport | funciones/registrosporhora.py:9-23 | the loop either raises at a line or returns the sorted hours and their counts, exactly as `HourlyReportOf` |
| Hourly.HourlyAborts | funciones/registrosporhora.py:15-16 | the report aborts exactly when some line's timestamp text has no `:`, and then at the first such line; no line is skipped |
| Hourly.HourlyCounts | funciones/registrosporhora.py:11-23 | without an abort, the hours are strictly ascending and are exactly the hours of the lines. `numero[i]` is the number of lines with hour `horas[i]`, and the counts sum to the lines |
| Hourly.SortAsc | funciones/registrosporhora.py:22 | the sorted hours are strictly ascending and a permutation of the keys |
| Hourly.AscendingUnique | funciones/registrosporhora.py:22 | there is only one ascending arrangement of a set of keys, so `sorted` is determined |
| Hourly.StrLessTotal | funciones/registrosporhora.py:22 | Python's string order is total on distinct strings |
| Tables.Add | funciones/masfunciones.py:43 | `d[k] = d.get(k, 0) + n` adds `n` to `k` and changes no other key. A new key goes last and an existing key keeps its place, keys stay distinct, and the total grows by `n` |
| Tables.Tally | funciones/masfunciones.py:36-43 | the counting dict has distinct keys, exactly the values seen, each counted by its number of occurrences, summing to the list's length |
| Tables.TallyFirstSeen | funciones/distintasips.py:13-16 | the dict lists its keys in the order they are first seen |
| Tables.TallyPositive | funciones/distintasips.py:13-16 | every count of the dict is at least 1 |
| Tables.SortDesc | funciones/paises.py:106-112 | the sorted list is non-increasing by count and a permutation of the entries, and entries of equal count keep their relative order |
| Tables.SortDescStable | funciones/paises.py:106-112 | two entries with equal counts appear in the sorted list in their original order |
| Tables.TotalPermutation | funciones/paises.py:106-116 | reordering the entries does not change their total |
| Tables.SumLookups | funciones/registrosporhora.py:23 | looking up every key of the dict, in any order, gives counts that sum to its total |
| Text.Find | funciones/registrosporhora.py:12-13 | `str.find` gives the first index of the character, or -1 exactly when it is absent |
| Text.Split | funciones/distintasips.py:12 | `str.split` returns at least one piece, and no piece contains the separator |
| Text.SplitJoin | funciones/distintasips.py:12 | joining the pieces of `str.split` with the separator gives back the string |
| Text.SplitHasSecond | funciones/registrosporhora.py:15-16 | `str.split(c)` has a second piece exactly when `c` occurs in the string |
| Text.SliceBound | funciones/registrosporhora.py:14 | Python's slice bound: a negative index counts from the end, then the bound is clamped to the string |
| Text.SpanNonSpace | funciones/paises.py:52 | a greedy `\S*` stops at the first white-space character or at the end |

## Left out

- Drawing and saving the charts (matplotlib figures, `autopct` percentages, `os.makedirs`, `savefig`) and printing are left out. Each report ends at the labels, sizes and colours it would plot.
- Opening and reading the log, and writing `unknown_ips.log`, are left out. The log is a sequence of lines, each with its newline, and the unknown addresses are returned.
- The `os.path.isfile` check, the file-reading exception handler and the GeoIP database open failures of `countries_pie_chart` are left out. Each of them ends the report with no chart, whatever had been counted by then; the model has no outcome for them.
- The GeoIP2 database is replaced by a function parameter. It returns a country name or one of the three exceptions `get_country` catches. Opening and closing the reader is not modelled.
- A GeoIP answer whose country name is `None` is not modelled: `country.startswith` would raise `AttributeError` in the fold. The lookup always yields a string.
- `\d` is modelled as the ASCII digits only, where Python's `re` also accepts other Unicode decimal digits. `\s` and `\S` follow `str.isspace` exactly.
- `re.I` is modelled as ASCII lower-casing of the agent and the patterns. Python folds Unicode case.
- Countries.Small: `size / total < 0.02` is modelled as `size*50 < total` in exact arithmetic. The float division can round differently only when the total is beyond 2^50.
- Countries.CombineSmallSlices: requires a positive total whenever both lists are non-empty. Python raises `ZeroDivisionError` there, and the caller never gets there because every country count is positive.
- Countries.CombineFacts: requires equally long labels and sizes. The caller always passes such lists, and `zip` silently drops the excess otherwise.
- seagreen.py, which walks `/var/log/apache2/` and calls each report, is not part of this model.
- funciones/ayudante.py (`get_filename_without_extension`) is not part of this model. The virtual host is computed from the file stem, taken as given.
- The comment of `browsers_pie_chart` says Edge is detected, but the code counts a typical Edge agent as Safari, because the Safari rule comes first. The model follows the code, and `UserAgents.EdgeAgentCountsAsSafari` proves it.
