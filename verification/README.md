# Error-alert report model

A Dafny model of the report builder that the Knative test-infra monitoring
tool uses to decide whether an error pattern should raise an alert mail
(`tools/monitoring/alert/report.go`).

The model covers three operations:

- `newReport` takes the error logs that matched one pattern inside the alerting
  window. It keeps the logs as they are. It collects the job names and PR
  numbers it sees, one entry each, using Go maps as "seen" sets. It then sorts
  both lists ascending.
- `CheckAlertCondition` fires when three counts each reach their configured
  minimum: the number of logs, the number of distinct jobs and the number of
  distinct PRs.
- `sprintLogs` renders the logs as a numbered listing (`0. …1. …`) for the
  alert mail.

Files and modules:

- `log_parser.dfy` (`LogParser`): the `ErrorLog` record.
- `config.dfy` (`Config`): the three thresholds of `SelectedConfig`.
- `seqs.dfy` (`Seqs`): distinctness, element sets, and first-seen
  de-duplication (`Dedup`).
- `sorting.dfy` (`Sorting`): ascending sort under a total order, which stands
  in for `sort.Strings` and `sort.Ints`, and the order on strings that
  `sort.Strings` uses (`StringLeq`).
- `fmt.dfy` (`Fmt`): the `%d` rendering of the listing's indices.
- `report.dfy` (`Alert`): `Report`, `NewReport`, `CheckAlertCondition`,
  `SprintLogs` and the lemmas about them.

`newReport` and `sprintLogs` are loops, so they are methods with loop
invariants. Each method is proved equal to a specification function
(`ReportOf`, `Listing`), and the lemmas are stated about those functions.
`ErrorLog.String()` lives in a package that is not part of this model. It is
passed in as a parameter `render: ErrorLog -> string`.

## Model

| member | source | states |
|---|---|---|
| `Alert.NewReport` | tools/monitoring/alert/report.go:106-128 | The result keeps the input logs unchanged and in order. Its job list holds exactly the job names of the logs and its PR list exactly their PR numbers. Neither list repeats a value, and both are ascending. Both lists are no longer than the log list and are empty for no logs. The result equals `ReportOf(errorLogs)`. |
| `Alert.ReportOfSummarises` | tools/monitoring/alert/report.go:106-128 | The value-level report (de-duplicate, then sort) keeps every promise listed for `NewReport`. |
| `Alert.SummarisesUnique` | tools/monitoring/alert/report.go:109-125 | Any two reports that keep those promises for the same logs are equal: sorting de-duplicated lists leaves nothing to choice. |
| `Alert.ReportOfReordered` | tools/monitoring/alert/report.go:112-125 | Logs that are a permutation of each other give the same job list and the same PR list. |
| `Alert.JobNamesElements` | tools/monitoring/alert/report.go:112-116 | The values in the per-log job-name sequence are exactly the jobs affected by the logs. |
| `Alert.PRNumbersElements` | tools/monitoring/alert/report.go:112-121 | The values in the per-log PR-number sequence are exactly the PRs affected by the logs. |
| `Alert.CheckAlertCondition` | tools/monitoring/alert/report.go:132-136 | The verdict is true exactly when all three of the source's `>=` comparisons hold: log count against `Occurrences`, job-list length against `JobsAffected`, PR-list length against `PrsAffected`. What this means for a built report is proved in `AlertConditionOfReport`. |
| `Alert.AlertConditionOfReport` | tools/monitoring/alert/report.go:132-136 | On a report built from logs, the alert fires if and only if three minimums are all met: the log count reaches `Occurrences`, the number of distinct jobs reaches `JobsAffected`, and the number of distinct PRs reaches `PrsAffected`. |
| `Alert.AlertThresholdMonotone` | tools/monitoring/alert/report.go:132-136 | Raising any threshold can only turn the verdict from true to false, never back. |
| `Alert.AlertMonotoneInLogs` | tools/monitoring/alert/report.go:132-136 | Appending more logs can only turn the verdict from false to true, never back. |
| `Alert.SprintLogs` | tools/monitoring/alert/report.go:65-71 | The result is the concatenation, in log order, of `"<i>. " + render(logs[i])` for i from 0, with no separator. It is `""` for no logs. |
| `Alert.Entry` | tools/monitoring/alert/report.go:68 | One entry of the listing starts with the decimal digits of its index, which read back as that index. Then come `". "` and the rendered log, with nothing else. |
| `Alert.ListingAppend` | tools/monitoring/alert/report.go:66-69 | The listing of two runs of logs is the first run's listing followed by the second run's listing, with the numbering carrying on. |
| `Alert.ListingEntry` | tools/monitoring/alert/report.go:67-68 | Log k appears as entry number k. Every earlier log's entry comes before it and every later log's entry comes after it. |
| `Seqs.Dedup` | tools/monitoring/alert/report.go:109-121 | First-seen de-duplication returns a list with no repetitions, holding exactly the input's values and no longer than the input. |
| `Seqs.DedupFirstSeenOrder` | tools/monitoring/alert/report.go:109-121 | The de-duplicated list keeps its values in the order of their first occurrence in the input: an earlier entry was first seen at an earlier position. |
| `Seqs.DistinctCardinality` | tools/monitoring/alert/report.go:133-135 | A list without repetitions has as many distinct values as it has entries, so `len(r.jobs)` and `len(r.prs)` count distinct jobs and PRs. |
| `Sorting.Sort` | tools/monitoring/alert/report.go:124-125 | The sort's result is a permutation of its input. |
| `Sorting.SortSorted` | tools/monitoring/alert/report.go:124-125 | Under a total order, the sort's result is ascending. |
| `Sorting.SortedDistinctUnique` | tools/monitoring/alert/report.go:124-125 | Under an antisymmetric order, two ascending lists without repetitions that hold the same values are equal. |
| `Sorting.StringLeq` | tools/monitoring/alert/report.go:124 | A prefix of a string comes no later than the string itself. |
| `Sorting.StringLeqLexicographic` | tools/monitoring/alert/report.go:124 | The string order is textbook lexicographic order: either a prefix, or the first differing character of the first string is smaller. |
| `Sorting.StringLeqTotalOrder` | tools/monitoring/alert/report.go:124 | `sort.Strings` orders by Go's `<` on strings. The model uses `<=`, its reflexive closure, which orders distinct values the same way. That order is total, transitive and antisymmetric. |
| `Fmt.DecimalString` | tools/monitoring/alert/report.go:68 | `%d` of an index gives a non-empty string of decimal digits with no leading zero. |
| `Fmt.DecimalStringRoundTrip` | tools/monitoring/alert/report.go:68 | Reading back the printed digits gives the printed index. |

## Left out

- `GetErrorLogs` (report.go:78-104) is not modelled. It is an SQL query over a window measured back from the current time, so it is I/O and depends on the clock. The model starts from the list of logs it returns.
- `mailContent.body` and `mailContent.subject` (report.go:57-62, 73-75) are not modelled. They are `fmt.Sprintf` templating. The body depends on how Go's `%v` renders a `time.Duration` and slices. Only the listing they embed (`sprintLogs`) is modelled.
- `ErrorLog.String()` and `SelectedConfig.Duration()` belong to packages that are not part of this model. `String()` is the parameter `render`. `Duration()` feeds only `GetErrorLogs`.
- Sorting.Sort: models what `sort.Strings` and `sort.Ints` return, not how they sort the slice in place. Go's algorithm is not stable. That does not matter here: the lists have no repetitions, and `SortedDistinctUnique` shows that any correct sort gives the same result.
- Alert.NewReport: the Go report's lists start as nil slices, which the model treats as empty sequences. The returned pointer and the aliasing of the logs slice are not modelled; the report is a value.
- Alert.CheckAlertCondition: calling it with a nil `*report` or a nil `*config.SelectedConfig` would panic in Go. The model has neither: both are values.
- Sorting.StringLeq: Go strings are arbitrary byte sequences, and `sort.Strings` compares them byte by byte. Here strings are sequences of Unicode scalar values. Job names that are not valid UTF-8 cannot be represented. Code-point order equals Go's byte order only for valid UTF-8.
- `tools/coverage/presubmit.go` (`RunPresubmit`) is not modelled. It only sequences calls into the object-storage, GitHub, coverage-calculation, line-coverage and file-writing packages, none of which is part of this model. The coverage aggregation and delta logic it invokes (`calc.CovList`, `calc.NewGroupChanges`, `ContentForGithubPost`) lives in those packages, so it is not modelled either.
- Widths: PR numbers and thresholds are Go `int`s. The model only compares and counts them, so no overflow can arise. They are unbounded here.
