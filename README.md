# node_exporter collectors: oom, filehandles, chef-client

A Dafny model of three collectors of the runtastic fork of the Prometheus
node exporter, with proofs about what each one reports.

- **oom** (`Oom`) picks the system log: `/var/log/kern.log`, else
  `/var/log/messages`, else "". It counts the lines that contain
  `Killed process` and decodes each one into a timestamp (the first 15
  characters), a pid (field 8, parsed as a float, 0 when it does not parse)
  and a program name (field 9, parentheses removed). It sends one count gauge,
  then one pid gauge per kill, in file order.
- **filehandles** (`Filehandles`) walks `/proc`. For every entry whose name
  parses as a base-10 int64, it reads the open-files limit from the
  `limits` file (the last `Max open files` line whose fourth field parses
  wins; 0 when none does). It counts the entries of the `fd` directory. It
  reports the process when `open * 100 / limit` reaches the threshold under
  IEEE 754. A zero limit gives +Inf, or NaN when no file is open. It sends
  one gauge per reported process, then a counter labelled like the last one.
- **chef-client** (`ChefClient`) keeps the last log line that contains
  `chef`. Status 1 means that line contains `status=success`; 0 means it
  does not, or no such line exists. It also reports the seconds since the
  log's modification time. A failed stat sends nothing and returns an error.

Shared pieces:

- `Text`: Go's `strings.Fields`, `Contains`, single-character
  `strings.Replace`, and the "last line that contains a pattern" scan.
- `Numbers`: `strconv.ParseInt(s, 10, 64)` and the float values a division
  can produce.
- `Host`: files by path, standing in for `os.Stat`, `os.Open` and
  `bufio.Scanner`.
- `Metrics`: the samples sent on the channel.

Each loop of the source is a `method` with a loop, proved against a
specification. Most of those specifications are functions written "from the
back" (`Spec(s[..n])` plus the last element), and lemmas state what they
mean. `Oom.FirstExisting` recurses from the front over the candidate logs.
The `Oom.Update` loop is specified by quantifiers over the samples it sends.

## Model

| member | source | states |
|---|---|---|
| Text.Fields | collector/filehandles.go:105 | every field of `strings.Fields` is a non-empty run of non-space characters |
| Text.FieldsOfJoin | collector/oom.go:70 | fields of non-space characters, joined by runs of white space (non-empty between fields, possibly empty at the ends), split back into exactly those fields |
| Text.FieldsGaps | collector/filehandles.go:105 | every line is its fields joined by runs of white space, so `strings.Fields` loses only the white space |
| Text.ContainsIffOccurs | collector/chef-client.go:58 | `Contains(s, pat)` holds exactly when `pat` occurs at some position of `s` |
| Text.Remove | collector/oom.go:73 | removing a character leaves no occurrence of it, adds nothing, and changes nothing when it is absent |
| Text.LastMatching | collector/chef-client.go:57-61 | the kept line, when there is one, is one of the lines and contains the pattern |
| Text.LastMatchingNone | collector/chef-client.go:57-61 | nothing is kept exactly when no line contains the pattern |
| Text.LastMatchingAt | collector/chef-client.go:57-61 | the kept line is the last line that contains the pattern |
| Text.LastMatchingSnoc | collector/chef-client.go:57-61 | one more line replaces the kept line exactly when it contains the pattern |
| Numbers.ParseInt64 | collector/filehandles.go:155 | a name is accepted exactly when it is an optional `+` or `-` and one or more decimal digits whose signed value fits in 64 bits, and the result is that value |
| Numbers.ParseLeadingZero | collector/filehandles.go:155 | leading zeros are accepted and do not change the value, with or without a `-` |
| Numbers.ParseLeadingPlus | collector/filehandles.go:155 | a leading `+` is accepted and does not change the value |
| Numbers.ParseFormatInt | collector/filehandles.go:155 | every int64 written in decimal, as a pid directory is named, parses back to itself |
| Host.Open | collector/oom.go:57-62 | a file opens only when it exists |
| Host.ScannedLines | collector/chef-client.go:49-55 | an open that fails leaves the scanner with no lines |
| Metrics.FQName | collector/chef-client.go:32 | the metric name is "" exactly when the name is empty; otherwise it is the namespace, `_`, the subsystem and `_` when the subsystem is non-empty, then the name |
| Metrics.FQNameInjective | collector/oom.go:34-35 | for subsystems without `_`, two metric names are equal only when built from the same subsystem and name |
| Metrics.Labels | collector/filehandles.go:74-83 | the i-th label pairs the i-th label name with the i-th value |
| ChefClient.LastRunLine | collector/chef-client.go:56-61 | the kept line is "" or mentions `chef` |
| ChefClient.StatusOfLastRunLine | collector/chef-client.go:70-75 | the status is 1 exactly when the last line mentioning `chef` also contains `status=success` |
| ChefClient.NoRunLineIsFailure | collector/chef-client.go:56-75 | a log with no `chef` line reads as status 0, not as an error |
| ChefClient.StatusIsBinary | collector/chef-client.go:70-75 | the status is 0 or 1, and 1 only when the kept line mentions `chef` and success |
| ChefClient.LaterFailureOverrides | collector/chef-client.go:57-61 | a later `chef` line without success makes the status 0 whatever came before |
| ChefClient.GetClientStatus | collector/chef-client.go:48-78 | an error (status 0, age 0) exactly when the stat fails; otherwise the status of the scanned lines and now minus the modification time |
| ChefClient.Update | collector/chef-client.go:38-46 | nothing is sent on error; otherwise the status gauge (0 or 1), then the age gauge |
| Filehandles.MaxOpenFilesStep | collector/filehandles.go:103-109 | one more line sets the limit when its limit field parses, and otherwise keeps the limit found so far |
| Filehandles.MaxOpenFilesUnset | collector/filehandles.go:100-115 | with no line that sets a limit, the limit is 0 |
| Filehandles.MaxOpenFilesLastSet | collector/filehandles.go:103-115 | the limit is the one set by the last `Max open files` line whose field parses |
| Filehandles.GetMaxOpenFiles | collector/filehandles.go:93-116 | the loop computes the limit `MaxOpenFiles` defines |
| Filehandles.ProcessNameUnset | collector/filehandles.go:126-139 | with no `Name:` line, the name is "" |
| Filehandles.ProcessNameLastSet | collector/filehandles.go:129-139 | the name is the second field of the last `Name:` line |
| Filehandles.GetProcessName | collector/filehandles.go:119-140 | the loop computes the name `ProcessName` defines |
| Filehandles.PercentageSpec | collector/filehandles.go:164 | the percentage is finite exactly when the limit is non-zero, and then times the limit gives 100 times the open count; a zero limit gives +Inf with open files and NaN without |
| Filehandles.ScanStep | collector/filehandles.go:152-187 | one more entry adds its record exactly when it qualifies |
| Filehandles.ScanAppend | collector/filehandles.go:152-187 | scanning a listing in two parts gives the first part's records, then the second's |
| Filehandles.NonPidIgnored | collector/filehandles.go:155 | an entry whose name is not a pid changes nothing, wherever it stands |
| Filehandles.UnparsedThresholdReportsNothing | collector/filehandles.go:166 | a threshold that does not parse reports no process |
| Filehandles.ScanCount | collector/filehandles.go:168-183 | there are as many records as qualifying positions |
| Filehandles.ScanAt | collector/filehandles.go:166-183 | the k-th record belongs to the entry at the k-th qualifying position, and that entry is a pid at or above the threshold |
| Filehandles.QualifyingIndicesIncrease | collector/filehandles.go:152-183 | records keep listing order and no entry is reported twice |
| Filehandles.QualifyingIndicesComplete | collector/filehandles.go:155-167 | an entry is reported exactly when it is a pid, the threshold parses and its percentage reaches it |
| Filehandles.ThreeProcessExample | collector/filehandles.go:164-183 | limits 100 with 95, 50 and 10 open files against 90: only the first is reported, with 95 percent |
| Filehandles.GetLimitReachedCount | collector/filehandles.go:142-191 | the process exits exactly when `/proc` cannot be listed; otherwise the records are the scan's, and the count is their number |
| Filehandles.GaugesSpec | collector/filehandles.go:67-84 | one gauge per record, the k-th for the k-th record |
| Filehandles.EmissionSpec | collector/filehandles.go:65-87 | one gauge per record, carrying its open-files count and labels in record order, then one counter whose value is the number of gauges and whose labels are the last record's, or all empty |
| Filehandles.Emit | collector/filehandles.go:65-87 | the loop and the final send produce the emission `Emission` defines |
| Filehandles.Update | collector/filehandles.go:58-90 | the process exits exactly when the listing fails; otherwise the emission of the scan's records |
| Oom.StripParens | collector/oom.go:73 | the program name has no parenthesis left and is no longer than the field |
| Oom.Decode | collector/oom.go:69-74 | the timestamp is the line's first 15 characters and the program holds no parenthesis |
| Oom.StripParensOfParenthesized | collector/oom.go:73 | a name written in parentheses comes out as the bare name |
| Oom.DecodeKillLine | collector/oom.go:69-74 | a line of fields separated by runs of white space decodes to its pid field, its bare program name and its first 15 characters |
| Oom.Matches | collector/oom.go:65-67 | the matches are no more than the lines, and each contains the pattern |
| Oom.MatchesAt | collector/oom.go:65-75 | the k-th match is the line at the k-th matching position |
| Oom.MatchIndicesIncrease | collector/oom.go:65-75 | matches keep file order and no line counts twice |
| Oom.MatchIndicesComplete | collector/oom.go:66 | a line is matched exactly when it contains the pattern |
| Oom.MatchesAppend | collector/oom.go:65-76 | matching a file in two parts gives the first part's matches, then the second's |
| Oom.NonMatchingIgnored | collector/oom.go:66 | a line without the pattern changes nothing, wherever it stands |
| Oom.MatchCountPermutation | collector/oom.go:65-67 | the count does not depend on the order of the lines |
| Oom.DetailsCount | collector/oom.go:67-74 | there are as many details as matching lines |
| Oom.DetailsSpec | collector/oom.go:65-75 | the k-th detail decodes the line at the k-th matching position |
| Oom.DetailsOfMatches | collector/oom.go:65-75 | the details are exactly the matching lines, each decoded, in file order |
| Oom.DetailsNonMatchingIgnored | collector/oom.go:66 | a line without the pattern adds no detail, wherever it stands |
| Oom.DetailsCountPermutation | collector/oom.go:65-76 | the number of details does not depend on the order of the lines |
| Oom.DetailsStep | collector/oom.go:65-75 | one more line adds its decoded detail exactly when it contains the pattern |
| Oom.GrepFile | collector/oom.go:55-81 | a file that cannot be opened gives 0, no details and the error; otherwise the details of the matching lines, and the count is their number |
| Oom.FirstExistingSpec | collector/oom.go:83-95 | the choice is "" exactly when no candidate exists, and otherwise an existing candidate with none existing before it |
| Oom.GetSyslogFile | collector/oom.go:83-95 | the choice is `kern.log` when it exists, else `messages` when it exists, else "" |
| Oom.Update | collector/oom.go:40-53 | nothing is sent when the log cannot be opened; otherwise the count gauge, then one pid gauge per detail in file order |

## Left out

- Flags, collector registration and descriptor construction are not modelled. The defaults appear as constants (`DefaultLogFile`, `DefaultThreshold`). The prefix `node` belongs to a file that is not part of this model and is taken as given.
- Prometheus types, help strings and the channel are not modelled. What a collector sends is a sequence of `Sample` values, in send order.
- File-system access is data (`Host.FileSystem`, `Filehandles.Entry`). A file that cannot be opened scans as no lines, and a `fd` directory that cannot be read counts 0. That is what the source's unchecked errors lead to.
- `time.Now()` is the parameter `now`, in Unix seconds.
- `strconv.ParseFloat` is the parameter `parseFloat` and is otherwise unconstrained. Infinities, NaN and rounding in parsed text are not modelled.
- float64 arithmetic is exact `real` arithmetic. Only the division by a zero limit is modelled as IEEE 754 (`Numbers.Float`). Counters that pass 2^53 are out of scope.
- `strconv.FormatFloat` is not rendered: the labels carry the value and the precision (`Metrics.LabelValue.Formatted`).
- Logging (`log.Error`, printing to stderr) is left out, and so is the text of the errors `Update` returns. `ChefClient.Update` and `Oom.Update` return the underlying `Host.Error` instead.
- `log.Fatal` when `/proc` cannot be listed is the result `ProcessExited` / `ListingFailed`.
- `bufio.Scanner` errors (a line over 64 KiB) are left out: a file is its full list of lines.
- Bytes and runes are not told apart: a line is a sequence of characters. Text that is not valid UTF-8 is not modelled.
- Filehandles.GetLimitReachedCount: entries that index out of range make the source panic. The model requires them absent (`ListingParseable`, `MatchesDecodable`) instead of modelling a crash.
- Oom.GrepFile: a matching line shorter than 15 characters or with fewer than ten fields also panics in the source. It is required absent in the same way.
- `ioutil.ReadDir` returns the `/proc` entries sorted by name. `Filehandles` accepts them in any order, which covers the sorted case.
- Metric names such as `node_chef-client_last_run_status` hold a `-`, which Prometheus metric names do not allow. The Prometheus client is not part of this model, so what `NewDesc` and `MustNewConstMetric` do with such a name is not modelled: a `Sample` carries any string as its name.
- Oom.Update: the count is sent as a gauge, as the code declares it, although its help text calls it a counter.
