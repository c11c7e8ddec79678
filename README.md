# Sample reducers of the sprcom Nagios plugins

The repository holds Nagios probes built on the `nagiosplugin` library. Each
probe fetches raw data, reduces it to at most one metric and hands that metric
to the library, which judges it against the `-w`/`-c` ranges. This project
models the two reducers the repository computes itself. It proves what
metric they pick.

- **Graphite probe** (`check_metric.py`, module `CheckMetric`). A render
  response is a sequence of `Series`, each a target name with `[value, timestamp]`
  datapoints, oldest first. A value may be null (`Option`). `Probe` scans the
  targets in order and each target's datapoints from newest to oldest. It
  returns a one-element list for the first non-null value it meets, labelled
  `ShortName(target)` (`target.split('.')[-1]`). When there is no non-null
  value it returns the empty list. The method is proved equal to the function
  `Reduce`. The lemmas say which target and which datapoint `Reduce` selects,
  when nothing is selected, that all-null targets in front are skipped, that
  later targets are ignored, and that timestamps never matter. Values are
  kept abstract (type parameter `V`), because only their nullness and
  identity matter.
- **Chef-client probe** (`check_chef_client.py`, module `CheckChefClient`).
  `Probe` takes the lines `knife status` printed, as `seq<Option<string>>`.
  It turns the first line that is not `None` into the metric
  `chef-client run`, whose value is `LastUpdate(line)`. That is
  `int(line.split().pop(0))`: 2 for the documented line `2 hours ago, …`.
  `KnifeStatusCommand` builds the argv list. The exceptions the code can
  raise are `Err` values: an IndexError for a line without tokens and a
  ValueError for a first token that is not an integer. They propagate out
  of the probe, as they do in the code.
- **Python built-ins** (module `PyStr`). `SplitOn` is `str.split(sep)`;
  `Split` is `str.split()`; `ParseInt` is `int()` on a decimal token, and
  `ShowInt` is `str()`. They come with their round trips:
  `sep.join(s.split(sep)) == s`, splitting single-space-joined words gives
  the words back, `int(str(n)) == n`, and the converse for canonical digit
  strings.
- `NagiosPlugin.Metric` is the record handed to the library (name, value,
  context). `Wrappers` holds `Option` and `Result`.

The Graphite and ChefClient classes are not modelled as classes. Their fields
(`host`, `metric`, `hostname`) are set once and only parameterise the I/O
call. Each `Probe` method takes that call's result as its argument.

"No data" is meant to end as an UNKNOWN verdict, but the code does not say
so itself. Both probes return an empty metric list, and `nagiosplugin`
(outside this model) decides what an empty list means. This model follows
the code: `Reduce` and `ProbeResult` return `[]`.

The chef probe reads only the leading number of the status line and never
the unit word after it. `LastUpdateIgnoresTail` states this, so
`45 minutes ago, …` yields the same value as `45 hours ago, …` would.
Because `stderr` is merged into `stdout`, an error message printed by
`knife` on the first line becomes a ValueError (`LastUpdateBadToken`).

## Model

| member | source | states |
|---|---|---|
| `CheckMetric.Probe` | check_metric.py:16-23 | the nested scan (targets in order, datapoints newest first, early return at the first non-null value, empty list otherwise) returns exactly `Reduce(response)` |
| `CheckMetric.ShortName` | check_metric.py:21 | the metric name is a suffix of the target with no `.`; it is the whole target when the target has no `.`, and otherwise is preceded by a `.` |
| `CheckMetric.ShortNameUnique` | check_metric.py:21 | those four facts determine the name: any suffix meeting them equals `target.split('.')[-1]` |
| `CheckMetric.ShortNameExample` | check_metric.py:21 | `carbon.agents.cpuUsage` is named `cpuUsage` |
| `CheckMetric.LatestValueNone` | check_metric.py:19-20 | the reversed scan of one target finds nothing exactly when all its datapoints are null |
| `CheckMetric.LatestValueAt` | check_metric.py:19-20 | the reversed scan finds the value of a non-null datapoint after which every datapoint is null |
| `CheckMetric.LatestValueSome` | check_metric.py:19-20 | a value found by the reversed scan belongs to such a datapoint |
| `CheckMetric.HasValueLatest` | check_metric.py:18-20 | a target yields a value exactly when it has a non-null datapoint |
| `CheckMetric.ReduceAtMostOne` | check_metric.py:21-23 | the probe returns at most one metric |
| `CheckMetric.ReduceNoData` | check_metric.py:18-23 | the result is empty exactly when no target has a non-null datapoint, including an empty response |
| `CheckMetric.ReduceSkipsEmpty` | check_metric.py:18-21 | targets that are empty or all null in front of the response do not change the result |
| `CheckMetric.ReduceSelects` | check_metric.py:18-21 | given the first target with a non-null datapoint and that target's last non-null datapoint, the result is exactly one metric with that datapoint's value and the target's short name |
| `CheckMetric.ReduceChosen` | check_metric.py:18-21 | conversely, a non-empty result comes from such a target and datapoint, so all later datapoints of that target are null |
| `CheckMetric.ReduceIgnoresLater` | check_metric.py:18-21 | once a target yields a value, the targets after it do not affect the result |
| `CheckMetric.LatestValueIgnoresTimestamps` | check_metric.py:20 | the value found depends only on `point[0]`, never on the timestamps `point[1]` |
| `CheckMetric.ReduceIgnoresTimestamps` | check_metric.py:20-21 | responses with equal targets and equal values in the same places give the same metrics, whatever their timestamps |
| `PyStr.JoinSplitOn` | check_metric.py:21 | joining the pieces of `s.split(sep)` with `sep` gives back `s`, and no piece contains `sep` |
| `PyStr.SplitOnJoin` | check_metric.py:21 | splitting a `sep`-join of `sep`-free pieces gives back the pieces |
| `PyStr.LastPiece` | check_metric.py:21 | the last piece of `s.split(sep)` is the `sep`-free suffix after the last `sep`, or `s` itself |
| `PyStr.SplitWords` | check_chef_client.py:39 | every token of `str.split()` is non-empty and free of whitespace |
| `PyStr.SplitEmpty` | check_chef_client.py:39 | `str.split()` returns no token exactly when the string is empty or all whitespace |
| `PyStr.SplitSpacePrefix` | check_chef_client.py:39 | leading whitespace does not change the tokens |
| `PyStr.SplitWord` | check_chef_client.py:42 | a whitespace-free non-empty string is one token |
| `PyStr.SplitAppend` | check_chef_client.py:42 | one whitespace character separates the tokens of its two sides: `(a + c + b).split() == a.split() + b.split()` |
| `PyStr.SplitWordFirst` | check_chef_client.py:39 | after optional whitespace, a word followed by whitespace or the end is the first token, followed by the tokens of the rest |
| `PyStr.SplitJoinWords` | check_chef_client.py:42 | `' '.join(words).split() == words` for whitespace-free non-empty words |
| `PyStr.ParseIntAccepts` | check_chef_client.py:39 | `int()` accepts one or more digits after an optional `+`/`-` and returns their decimal value, negated after `-` |
| `PyStr.ParseIntRejects` | check_chef_client.py:39 | `int()` raises ValueError on an empty token, a lone sign, or any non-digit after the optional sign |
| `PyStr.ParseShowInt` | check_chef_client.py:39 | `int(str(n)) == n` for every integer |
| `PyStr.ParsePaddedNat` | check_chef_client.py:39 | a `+` sign and leading zeros do not change the value `int()` reads |
| `PyStr.ShowParseCanonical` | check_chef_client.py:39 | conversely, a digit string without a leading zero is `str()` of its value |
| `CheckChefClient.KnifeStatusCommand` | check_chef_client.py:41-45 | the argv list is `/usr/bin/knife`, `status`, the tokens of `hostname:<hostname>`, `-c`, `/etc/chef/client.rb`; for a hostname without whitespace it is exactly those five tokens with `hostname:` + hostname third |
| `CheckChefClient.KnifeStatusCommandTokens` | check_chef_client.py:42 | the formatted command string splits into the five parts, and the third part is one token when the hostname has no whitespace |
| `CheckChefClient.Probe` | check_chef_client.py:25-30 | the loop over the status lines, returning at the first line that is not `None`, returns exactly `ProbeResult(lines)` |
| `CheckChefClient.ProbeAtMostOne` | check_chef_client.py:25-28 | the probe returns at most one metric, and it is named `chef-client run` and judged in context `chef_client` |
| `CheckChefClient.ProbeNoLines` | check_chef_client.py:25-30 | the probe returns the empty list exactly when there are no lines or only `None` lines |
| `CheckChefClient.ProbeFirstLine` | check_chef_client.py:25-28 | the result is decided by the first line that is not `None` alone: its metric when `getLastUpdate` succeeds on it, its exception otherwise; later lines are ignored |
| `CheckChefClient.LastUpdateFirstToken` | check_chef_client.py:36-39 | `getLastUpdate` returns `int()` of the first whitespace-delimited token, whatever follows it |
| `CheckChefClient.LastUpdateIgnoresTail` | check_chef_client.py:39 | changing the text after the first token and the whitespace behind it does not change the result |
| `CheckChefClient.LastUpdateReads` | check_chef_client.py:39 | after optional whitespace, the decimal form of `n` followed by whitespace or the end of the line reports `n` |
| `CheckChefClient.LastUpdateDocumentedLine` | check_chef_client.py:7 | the documented line `2 hours ago, sprcom-services-dev-01, …` reports 2 |
| `CheckChefClient.LastUpdateNoToken` | check_chef_client.py:39 | the IndexError of `pop(0)` is raised exactly for a line that is empty or all whitespace |
| `CheckChefClient.LastUpdateBadToken` | check_chef_client.py:39 | a first token that is not an optionally signed decimal integer raises ValueError naming that token |

## Left out

- Range parsing and evaluation, checking critical before warning, merging verdicts and mapping an empty metric list to UNKNOWN. All of this happens inside the `nagiosplugin` library (`ScalarContext`, `Check`), which is not part of this model.
- check_elasticsearch.py: it builds a literal query, POSTs it and reads `hits.total`. Nothing is computed locally.
- HTTP (`retrieve_metric`), `subprocess.Popen(...).stdout.readlines()` (`getNodeStatus`) and JSON decoding. Their results are the arguments of the two `Probe` methods.
- `argparse` options, `--version`, the global `verbose` flag and its stderr diagnostics in `getLastUpdate` and `getKnifeStatusCommand`, the `nagiosplugin.guarded` exception wrapper and exit codes.
- Malformed render responses. A series without a `datapoints` key raises KeyError, and an empty point `[]` raises IndexError; the `Series` and `Point` types rule both out. The code reads only `point[0]` (check_metric.py:20), so a one-entry point `[v]` is accepted and its value returned; the model represents it as a `Point` with any timestamp, and `ReduceIgnoresTimestamps` shows the choice does not matter. `data['target']` is read only on the return path (check_metric.py:21), so a series without a `target` key whose datapoints are all null is skipped without error; the model gives it any target name, and `ReduceSkipsEmpty` shows such a series leaves the result unchanged. A missing `target` on the series that yields the value would raise KeyError; the model does not capture that error.
- Arithmetic on Graphite values (possibly floats). Values are an abstract type parameter.
- PyStr.Split: whitespace is the six ASCII characters space, TAB, LF, VT, FF and CR. That is what `split()` uses on the byte strings `readlines()` returns. Python 3 `str.split()` on the hostname argument would also split at Unicode whitespace.
- CheckChefClient.KnifeStatusCommand: like `PyStr.Split`, it treats only ASCII whitespace as a separator inside the hostname.
- PyStr.ParseInt: underscores between digits (accepted by Python 3.6 and later) and non-ASCII decimal digits are not accepted.
