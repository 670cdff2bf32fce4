# monitorlib in Dafny

A model of the logic at the heart of monitorlib, a small Python 2 library
for writing monitoring plugins. It covers three pieces, with what each
function promises proved as contracts and lemmas.

- **The Cloudkick plugin line protocol** (`monitorlib/cloudkick.py`).
  - A status line reads `status <ok|warn|err> <message>`.
  - A metric line reads `metric <name> <int|float|gauge|string> <value>`.
  - The model covers how lines are recognised, taken apart into tuples and
    joined back, filtered and sorted by priority.
  - It also covers how a plugin's output is reduced to its most urgent
    status line plus its metric lines (`add_lines`).
- **PagerDuty incident-key deduplication** (`monitorlib/pagerduty.py`).
  - A trigger is always sent, and the incident key PagerDuty answers with is
    remembered.
  - A resolve is sent only when a key is remembered for the alert's host and
    script, and the key is then forgotten.
- **collectd output formatting** (`monitorlib/collectd.py`): the `PUTNOTIF`
  notification lines and `PUTVAL` value lines.

Modules, one per file:

- `Common` (common.dfy) holds the shared pieces:
  - `Option`, and `Result`, which models Python's exceptions;
  - `Reverse` and `Map`;
  - subsequences, and permutation facts.
- `Strings` (strings.dfy) holds the Python 2 `str` operations the library
  rests on:
  - `SplitWs` is `s.split(None, maxsplit)`, following CPython's
    whitespace split. Leading whitespace is dropped. At most `maxsplit` words
    are cut off, and the remainder keeps its inner and trailing whitespace.
    `IsSplitOf` describes such a split without computing it, and `SplitWs`
    is proved to be the one list of fields that meets it.
  - `WordCount` counts words independently of `SplitWs`.
  - `JoinSp` is `' '.join`.
  - `Contains` is `sub in s`.
  - `BeforeFirst` is `s.split(sep)[0]`.
- `Decimal` (decimal.dfy) holds `"%i" % n` and the parse that reads it back.
- `Sorting` (sorting.dfy) is a stable sort by a numeric key, as Python's
  `sorted` with a key performs it.
- `Cloudkick`, `PagerDuty` and `Collectd` hold the three pieces above.

How Python's behaviour is represented:

- **Falsy results.** The `x and y` idiom returns Python's `False` for a line
  of the wrong kind. It is modelled as `None`.
- **IndexError.** An exception is `Raises(IndexError)`.
- **Eager line tests.** `is_status_line` and `is_metric_line` build their
  list eagerly inside `all([...])`. So a line with too few words raises
  IndexError whatever it starts with, and every filter, sort and merge
  built on them passes that error on. The model keeps this.
- **Priority of an invalid status.** `priority` returns `False` for an
  invalid status, and Python compares that as 0, the priority of `ok`.
- **The sort.** `sorted(..., cmp=compare_priority, key=itemgetter(1))` is
  modelled as a stable insertion sort of the tuples, ascending by the
  priority of their status field. A stable sort's result is unique, so this
  is the list Python's sort gives.
- **Where docstring and code disagree.** The docstring of `add_lines` speaks
  of adding a new status line only when its priority is higher. The code
  instead keeps the single most urgent status line of `lines + output_lines`
  (its first two fields re-joined with single spaces) and then every metric
  line. The model follows the code.

## Model

| member | source | states |
|---|---|---|
| Cloudkick.ValidStatusType | monitorlib/cloudkick.py:15-41 | a status is valid exactly when it is ok, warn or err |
| Cloudkick.ValidMetricType | monitorlib/cloudkick.py:20-48 | a metric type is valid exactly when it is int, float, gauge or string |
| Cloudkick.Priority | monitorlib/cloudkick.py:51-55 | ok, warn and err have priorities 0, 1 and 2; an invalid status counts as 0 |
| Cloudkick.ComparePriority | monitorlib/cloudkick.py:58-72 | the result is -1, 0 or 1 exactly when the first status's priority is below, equal to or above the second's |
| Cloudkick.ComparePriorityLaws | monitorlib/test/test_cloudkick.py:75-88 | the comparator is antisymmetric, reflexive and transitive, and orders ok below warn below err |
| Cloudkick.GetField | monitorlib/cloudkick.py:75-81 | field `i` of a split with limit `n` exists exactly when `i` is below both the word count and `n + 1`; below the limit it is the `i`-th word |
| Cloudkick.IsLine | monitorlib/cloudkick.py:84-103 | shared by both line kinds: raises IndexError exactly when the line has too few words for its type field; otherwise true exactly when the line starts with the keyword and a space and the type word is valid |
| Cloudkick.IsStatusLine | monitorlib/cloudkick.py:84-92 | raises IndexError exactly when the line has fewer than 2 words; true exactly when it starts with "status " and its second word is a valid status |
| Cloudkick.IsMetricLine | monitorlib/cloudkick.py:95-103 | raises IndexError exactly when the line has fewer than 3 words; true exactly when it starts with "metric " and its third word is a valid metric type |
| Cloudkick.TwoWordLine | monitorlib/test/test_cloudkick.py:29-35 | a two-word line makes `is_metric_line` raise IndexError (as with "metric tooshort"); it is a status line only when it reads `status <valid status>` |
| Cloudkick.MetricNotStatus | monitorlib/cloudkick.py:84-103 | a metric line is never a status line |
| Cloudkick.StatusNotMetric | monitorlib/cloudkick.py:84-103 | a status line of at least three words is never a metric line |
| Cloudkick.GetType | monitorlib/cloudkick.py:106-125 | raises as the line test does; returns a type exactly for lines of the kind, and that type is the line's valid type word |
| Cloudkick.GetStatusType | monitorlib/cloudkick.py:106-114 | the status of a status line (its second word, a valid status); `False` for any other line of at least 2 words |
| Cloudkick.GetMetricType | monitorlib/cloudkick.py:117-125 | the type of a metric line (its third word, a valid type); `False` for any other line of at least 3 words |
| Cloudkick.ToTuple | monitorlib/cloudkick.py:128-133 | raises exactly when the line test raises; gives a tuple exactly for lines of the kind |
| Cloudkick.FromTuple | monitorlib/cloudkick.py:136-142 | raises IndexError exactly when the space-joined tuple has too few words for the kind's type field; gives a line exactly when the joined tuple is a line of the kind, and that line is the joined tuple |
| Cloudkick.TupleRoundTrip | monitorlib/cloudkick.py:128-142 | a well-formed tuple joins into a line of its kind with the tuple's type, and that line splits back into the very same tuple |
| Cloudkick.LineToTuple | monitorlib/cloudkick.py:128-133 | every line of a kind comes apart into a well-formed tuple whose type field is the line's type word |
| Cloudkick.LineRoundTrip | monitorlib/test/test_cloudkick.py:141-149 | line to tuple to line gives the fields before the last joined by single spaces, then the last field (message or value) with its own inner and trailing whitespace kept; the result is a line of the same kind and type; doing it twice is doing it once; a line already joined from a well-formed tuple comes back exactly |
| Cloudkick.StatusTuple | monitorlib/cloudkick.py:128-133 | raises for lines under 2 words; gives a tuple exactly for status lines, and that tuple is well formed |
| Cloudkick.StatusLine | monitorlib/cloudkick.py:136-142 | raises IndexError exactly when the joined tuple has fewer than 2 words; a well-formed status tuple gives its joined line; a line is given only when the joined tuple is a status line |
| Cloudkick.MetricTuple | monitorlib/cloudkick.py:169-174 | raises for lines under 3 words; gives a tuple exactly for metric lines, and that tuple is well formed |
| Cloudkick.MetricLine | monitorlib/cloudkick.py:177-183 | raises IndexError exactly when the joined tuple has fewer than 3 words; a well-formed metric tuple gives its joined line; a line is given only when the joined tuple is a metric line |
| Cloudkick.StatusRoundTrip | monitorlib/test/test_cloudkick.py:130-149 | `status <s> <message>` splits into ("status", s, message) and joins back into the same line |
| Cloudkick.MetricRoundTrip | monitorlib/test/test_cloudkick.py:167-185 | `metric <name> <type> <value>` splits into ("metric", name, type, value) and joins back into the same line |
| Cloudkick.StatusOfIsStatusLine | monitorlib/cloudkick.py:136-166 | `status <valid s> <anything>` is a status line of status s, even with an empty message |
| Cloudkick.StatusOf | monitorlib/cloudkick.py:136-166 | a status line built from a valid status and any message is returned, and its status type reads back as that status |
| Cloudkick.Ok | monitorlib/cloudkick.py:145-150 | gives exactly "status ok " + message, whose status type is ok |
| Cloudkick.Warn | monitorlib/cloudkick.py:153-158 | gives exactly "status warn " + message, whose status type is warn |
| Cloudkick.Err | monitorlib/cloudkick.py:161-166 | gives exactly "status err " + message, whose status type is err |
| Cloudkick.GetLines | monitorlib/cloudkick.py:186-199 | raises exactly when some line is too short for the line test; every line returned is of the kind |
| Cloudkick.GetLinesKeeps | monitorlib/cloudkick.py:186-199 | the filter's result is an order-preserving subsequence of the input; it holds every line of the kind as often as the input does, and no other line |
| Cloudkick.GetStatusLines | monitorlib/cloudkick.py:186-191 | raises exactly when a line has fewer than 2 words; returns an order-preserving subsequence made of status lines |
| Cloudkick.GetMetricLines | monitorlib/cloudkick.py:194-199 | raises exactly when a line has fewer than 3 words; returns an order-preserving subsequence made of metric lines |
| Cloudkick.GetLinesIdempotent | monitorlib/cloudkick.py:186-199 | filtering the filtered lines again changes nothing |
| Cloudkick.GetLinesNonEmpty | monitorlib/cloudkick.py:186-191 | the filter finds something exactly when the input holds a line of the kind |
| Cloudkick.StatusLinesMembers | monitorlib/cloudkick.py:186-191 | a line is among the status lines exactly when it is in the input and is a status line |
| Cloudkick.NormalizeStatusKeeps | monitorlib/cloudkick.py:128-142 | normalizing a status line keeps it a status line of the same priority, and normalizing is idempotent |
| Cloudkick.SortTuples | monitorlib/cloudkick.py:208-212 | the tuple sort gives a permutation of its input in ascending priority, and keeps the input order among tuples of equal priority |
| Cloudkick.SortByPriority | monitorlib/cloudkick.py:202-212 | raises exactly when a line has fewer than 2 words; otherwise gives as many lines as the input has status lines |
| Cloudkick.SortByPriorityOrder | monitorlib/cloudkick.py:202-212 | every sorted line is a status line, and the priorities never increase along the result |
| Cloudkick.SortByPriorityPermutes | monitorlib/cloudkick.py:202-212 | the result holds each status line of the input, normalized, with its multiplicity, and nothing else |
| Cloudkick.SortByPriorityIsSorted | monitorlib/cloudkick.py:202-212 | both of the above together: status lines, non-increasing priority, a permutation of the normalized status lines |
| Sorting.SortBy | monitorlib/cloudkick.py:208-212 | the sort gives a permutation of its input that is ascending by key |
| Sorting.SortByStable | monitorlib/cloudkick.py:208-212 | for every key, the elements with that key come out in their input order |
| Cloudkick.HighestPriority | monitorlib/cloudkick.py:215-220 | returns exactly when every line has at least 2 words and some line is a status line; otherwise raises IndexError |
| Cloudkick.HighestPriorityIsHead | monitorlib/cloudkick.py:215-220 | when every line has at least 2 words and one is a status line, it returns the head of the sorted status lines |
| Cloudkick.SortedHeadIsMax | monitorlib/cloudkick.py:202-220 | the head of the sorted status lines has at least the priority of every status line |
| Cloudkick.SortedHeadFrom | monitorlib/cloudkick.py:202-220 | the head of the sorted status lines is one of them, normalized |
| Cloudkick.HighestPriorityIsMax | monitorlib/cloudkick.py:215-220 | when every line has at least 2 words, it returns a status line with at least the priority of every status line of the input |
| Cloudkick.HighestPriorityFrom | monitorlib/cloudkick.py:215-220 | when every line has at least 2 words and one is a status line, it returns one of the input's status lines, normalized |
| Cloudkick.ErrIsHighest | monitorlib/test/test_cloudkick.py:200-207 | when the input holds an err line (and no line under 2 words), the highest-priority line has status err |
| Cloudkick.HighestPriorityOfStatusLines | monitorlib/cloudkick.py:215-220 | on a list of status lines, the function fails only when the list is empty |
| Cloudkick.AddLines | monitorlib/cloudkick.py:223-233 | returns exactly when every line of `lines + output_lines` has at least 3 words and one is a status line; otherwise raises IndexError |
| Cloudkick.AddLinesStatusIsMax | monitorlib/cloudkick.py:223-233 | when every line has at least 3 words, the first line returned is a status line with at least the priority of every status line given |
| Cloudkick.AddLinesStatusFrom | monitorlib/cloudkick.py:223-233 | when every line has at least 3 words and one is a status line, the first line returned is one of the given status lines, normalized |
| Cloudkick.AddLinesMetrics | monitorlib/cloudkick.py:223-233 | on the same inputs, after the first line come exactly the given metric lines, in order, each as often as given |
| Cloudkick.AddLinesIdempotent | monitorlib/cloudkick.py:223-233 | on the same inputs, passing the result back in with no new lines gives the same result |
| Cloudkick.NormalizeStatusWords | monitorlib/cloudkick.py:128-142 | normalizing a status line of at least three words keeps at least three words |
| Strings.SplitWs | monitorlib/cloudkick.py:81 | a split with limit n gives at most n + 1 fields; all are non-empty and do not start with whitespace, and those before the limit hold no whitespace |
| Strings.SplitWsIsSplit | monitorlib/cloudkick.py:81 | the input is the fields with whitespace-only gaps around them, the gaps between two fields non-empty, and a last field past the limit running to the end of the input |
| Strings.SplitOfIsSplitWs | monitorlib/cloudkick.py:81 | any list of fields that rebuilds the input in that way is the split: together with the above, the split is exactly the input's maximal words up to the limit, then the rest without its leading whitespace |
| Strings.SplitWsCount | monitorlib/cloudkick.py:81 | a split with limit n gives min(word count, n + 1) fields |
| Strings.SplitJoinExact | monitorlib/cloudkick.py:133-141 | words joined by single spaces, then a final field, split with the matching limit give back the parts |
| Strings.SplitWsLosesOnlyWs | monitorlib/cloudkick.py:81 | the fields of a split, put together, hold every non-whitespace character of the input in order |
| Strings.BeforeFirst | monitorlib/pagerduty.py:151 | `s.split(sep)[0]` is a prefix of s without sep, and is either all of s or followed by sep |
| Decimal.DecimalInt | monitorlib/collectd.py:31 | `%i` of an integer holds no whitespace |
| Decimal.ParseDecimalInt | monitorlib/collectd.py:31 | reading the `%i` rendering of any integer back gives that integer |
| PagerDuty.GetIncidentKey | monitorlib/pagerduty.py:62-80 | a stored key is returned exactly when the storage key is present, and it is the stored value |
| PagerDuty.AddIncidentKey | monitorlib/pagerduty.py:99-119 | afterwards the storage key maps to the incident key, and every other entry is unchanged |
| PagerDuty.DelIncidentKey | monitorlib/pagerduty.py:82-97 | afterwards the storage key is absent, and every other entry is unchanged |
| PagerDuty.StoreLaws | monitorlib/pagerduty.py:62-119 | looking up in an empty store gives None; lookups after adding or removing a key see that change and no other; removing after adding is removing |
| PagerDuty.Construct | monitorlib/pagerduty.py:121-130 | the message carries service key, event type, description and details verbatim, and the stored incident key exactly when one is stored |
| PagerDuty.HostScript | monitorlib/pagerduty.py:150-151 | the host and script is the description up to its first ':', or all of it when there is none |
| PagerDuty.StorageKey | monitorlib/pagerduty.py:150-153 | the storage key is the service key, '^', then the longest prefix of the description that holds no ':' |
| PagerDuty.StorageKeyNoColon | monitorlib/pagerduty.py:151-153 | for a description without ':', the storage key is the service key, '^' and the whole description |
| PagerDuty.SameHostScript | monitorlib/pagerduty.py:150-153 | descriptions with the same text before the first ':' share a storage key, whatever follows |
| PagerDuty.Event | monitorlib/pagerduty.py:146-172 | a message is sent exactly when the type names resolve and a non-empty key is stored, or the type names trigger; what is sent is the constructed message; nothing sent means the store is unchanged; entries other than the alert's are never touched |
| PagerDuty.ResolveWithoutKey | monitorlib/pagerduty.py:157-164 | a resolve with no stored key sends nothing and changes nothing |
| PagerDuty.ResolveWithKey | monitorlib/pagerduty.py:157-169 | a resolve with a stored key sends it and forgets it |
| PagerDuty.TriggerSends | monitorlib/pagerduty.py:160-172 | a trigger is always sent with the stored key if any, and the answered key is then stored under the alert's storage key |
| PagerDuty.OtherEventIgnored | monitorlib/pagerduty.py:158-164 | an event type naming neither resolve nor trigger sends nothing and changes nothing |
| PagerDuty.TriggerTwice | monitorlib/pagerduty.py:146-172 | a second trigger about the same host and script carries the incident key answered to the first |
| PagerDuty.TriggerThenResolve | monitorlib/pagerduty.py:146-172 | a trigger then a resolve for the same host and script: the resolve carries the trigger's key, and the store ends as before the trigger minus that alert's key |
| PagerDuty.ResolveTwice | monitorlib/pagerduty.py:146-172 | a second resolve of the same alert sends nothing |
| Collectd.NotifyOutput | monitorlib/collectd.py:27-31 | the line starts with `PUTNOTIF severity=<severity> time=` and ends with the message verbatim |
| Collectd.NotifyRoundTrip | monitorlib/collectd.py:27-31 | for a severity and host without spaces, the line parses back into its severity, timestamp, host and message, whatever the message holds |
| Collectd.Failure | monitorlib/collectd.py:33-34 | a notification of severity "failure" carrying the message verbatim |
| Collectd.Warning | monitorlib/collectd.py:36-37 | a notification of severity "warning" carrying the message verbatim |
| Collectd.Ok | monitorlib/collectd.py:39-40 | a notification of severity "okay" carrying the message verbatim |
| Collectd.Metric | monitorlib/collectd.py:42-44 | the line starts with `PUTVAL <host>/<path>` and ends with ` N:` and the value's text |
| Collectd.MetricRoundTrip | monitorlib/collectd.py:42-44 | for a host without '/' and a path and interval without spaces, the line parses back into host, path, interval and value; an integer value reads back as that integer |

## Left out

- The HTTP request to PagerDuty (monitorlib/pagerduty.py:132-144). This is
  network I/O. PagerDuty's answer enters `PagerDuty.Event` as the
  `responseKey` parameter.
- Redis connection handling (monitorlib/pagerduty.py:47-60), pickle file I/O,
  and the global configuration setters (monitorlib/pagerduty.py:30-45). These
  are I/O and configuration. The key storage is a `map<string, string>`.
- PagerDuty.DelIncidentKey: removing an absent key is a no-op, as with redis.
  The pickle-file backend would raise KeyError (monitorlib/pagerduty.py:92).
  Through `event` that happens only for an event type naming both resolve
  and trigger with no key stored.
- The EOFError paths of the file backend (empty storage file). An empty
  file behaves as an empty map.
- A PagerDuty answer without `incident_key` (a KeyError at
  monitorlib/pagerduty.py:172). The answer's key is a parameter and is
  always present.
- The clock, host name and environment reads (monitorlib/collectd.py:23-24,
  29). The timestamp, fully qualified host name and interval are
  parameters. The time zone effect of `mktime(gmtime())` is part of the
  clock and is not modelled.
- Collectd.Metric: values are integers or text. Floats and their `str`
  rendering are not modelled.
- Non-string inputs and the AttributeError they cause. Dafny's types rule
  them out.
- The `details` of a PagerDuty event are opaque text passed through
  unchanged. JSON encoding is not modelled.
- Cloudkick.SortByPriority: equal-priority order is stated for the tuple sort
  (Cloudkick.SortTuples, Sorting.SortByStable), not restated for the
  reversed, re-joined lines.
- Python 2 `unicode` lines. `Strings.IsWs` is the whitespace of a byte
  `str` (space, tab, line feed, vertical tab, form feed, carriage return).
  A `unicode` line would also split on characters such as U+001C-U+001F,
  U+0085, U+00A0 and U+2000-U+200A. The library's plugins print byte
  strings.
- monitorlib/bin/collectd_notify.py is command-line, socket and HTTP glue, and
  is not part of this model. Neither are monitorlib/examples/collectd_check.py
  and setup.py.
