/** The error-alert report: the logs of one error pattern inside the alerting
    window, summarised by the distinct CI jobs and pull requests they touch,
    the check of that summary against the configured thresholds, and the
    numbered listing of the logs that goes into the alert mail. */
module Alert {
  import opened Seqs
  import opened Sorting
  import opened Fmt
  import opened LogParser
  import opened Config

  /** The logs, plus the job names and PR numbers occurring in them. */
  datatype Report = Report(logs: seq<ErrorLog>, jobs: seq<string>, prs: seq<int>)

  /** The job name of every log, in log order, repetitions included. */
  function JobNames(errorLogs: seq<ErrorLog>): seq<string> {
    seq(|errorLogs|, i requires 0 <= i < |errorLogs| => errorLogs[i].JobName)
  }

  /** The PR number of every log, in log order, repetitions included. */
  function PRNumbers(errorLogs: seq<ErrorLog>): seq<int> {
    seq(|errorLogs|, i requires 0 <= i < |errorLogs| => errorLogs[i].PRNumber)
  }

  /** The jobs affected by the logs. */
  ghost function JobSet(errorLogs: seq<ErrorLog>): set<string> {
    set e | e in errorLogs :: e.JobName
  }

  /** The pull requests affected by the logs. */
  ghost function PRSet(errorLogs: seq<ErrorLog>): set<int> {
    set e | e in errorLogs :: e.PRNumber
  }

  /** What a report built from `errorLogs` promises: the logs themselves, and
      each affected job and PR exactly once, in ascending order. */
  ghost predicate Summarises(r: Report, errorLogs: seq<ErrorLog>) {
    && r.logs == errorLogs
    && Elements(r.jobs) == JobSet(errorLogs)
    && Elements(r.prs) == PRSet(errorLogs)
    && Distinct(r.jobs) && Distinct(r.prs)
    && Sorted(r.jobs, StringLeq) && Sorted(r.prs, IntLeq)
  }

  /** The report as a value: first-seen de-duplication of the job names and
      PR numbers, then an ascending sort of each. */
  function ReportOf(errorLogs: seq<ErrorLog>): Report {
    Report(errorLogs,
           Sort(Dedup(JobNames(errorLogs)), StringLeq),
           Sort(Dedup(PRNumbers(errorLogs)), IntLeq))
  }

  /** Go's `jobSet[k]` / `prSet[k]`: a missing key reads as false. */
  predicate Seen<K>(m: map<K, bool>, k: K) {
    k in m && m[k]
  }

  /** newReport: one pass over the logs records each job name and PR number
      the first time it is seen, then both lists are sorted. */
  method NewReport(errorLogs: seq<ErrorLog>) returns (r: Report)
    ensures Summarises(r, errorLogs)
    ensures |r.jobs| <= |errorLogs| && |r.prs| <= |errorLogs|
    ensures errorLogs == [] ==> r.jobs == [] && r.prs == []
    ensures r == ReportOf(errorLogs)
  {
    var jobs: seq<string> := [];
    var prs: seq<int> := [];
    var jobSet: map<string, bool> := map[];
    var prSet: map<int, bool> := map[];
    ghost var names, numbers := JobNames(errorLogs), PRNumbers(errorLogs);
    for i := 0 to |errorLogs|
      invariant jobs == Dedup(names[..i])
      invariant prs == Dedup(numbers[..i])
      invariant forall name :: Seen(jobSet, name) <==> name in jobs
      invariant forall pr :: Seen(prSet, pr) <==> pr in prs
    {
      var errorLog := errorLogs[i];
      if !Seen(jobSet, errorLog.JobName) {
        jobSet := jobSet[errorLog.JobName := true];
        jobs := jobs + [errorLog.JobName];
      }
      if !Seen(prSet, errorLog.PRNumber) {
        prSet := prSet[errorLog.PRNumber := true];
        prs := prs + [errorLog.PRNumber];
      }
      assert jobs == Dedup(names[..i + 1]) by {
        assert names[..i + 1] == names[..i] + [errorLog.JobName];
        DedupSnoc(names[..i], errorLog.JobName);
      }
      assert prs == Dedup(numbers[..i + 1]) by {
        assert numbers[..i + 1] == numbers[..i] + [errorLog.PRNumber];
        DedupSnoc(numbers[..i], errorLog.PRNumber);
      }
    }
    assert names[..|errorLogs|] == names && numbers[..|errorLogs|] == numbers;
    // sort.Strings and sort.Ints
    jobs := Sort(jobs, StringLeq);
    prs := Sort(prs, IntLeq);
    r := Report(errorLogs, jobs, prs);
    assert r == ReportOf(errorLogs);
    ReportOfSummarises(errorLogs);
  }

  lemma JobNamesElements(errorLogs: seq<ErrorLog>)
    ensures Elements(JobNames(errorLogs)) == JobSet(errorLogs)
  {
    var names := JobNames(errorLogs);
    forall x | x in JobSet(errorLogs) ensures x in Elements(names) {
      var e :| e in errorLogs && e.JobName == x;
      var i :| 0 <= i < |errorLogs| && errorLogs[i] == e;
      assert names[i] == x;
    }
  }

  lemma PRNumbersElements(errorLogs: seq<ErrorLog>)
    ensures Elements(PRNumbers(errorLogs)) == PRSet(errorLogs)
  {
    var numbers := PRNumbers(errorLogs);
    forall x | x in PRSet(errorLogs) ensures x in Elements(numbers) {
      var e :| e in errorLogs && e.PRNumber == x;
      var i :| 0 <= i < |errorLogs| && errorLogs[i] == e;
      assert numbers[i] == x;
    }
  }

  /** The value-level report keeps every promise of newReport. */
  lemma ReportOfSummarises(errorLogs: seq<ErrorLog>)
    ensures Summarises(ReportOf(errorLogs), errorLogs)
    ensures |ReportOf(errorLogs).jobs| <= |errorLogs|
    ensures |ReportOf(errorLogs).prs| <= |errorLogs|
    ensures errorLogs == [] ==> ReportOf(errorLogs).jobs == [] && ReportOf(errorLogs).prs == []
  {
    var r := ReportOf(errorLogs);
    var jobs, prs := Dedup(JobNames(errorLogs)), Dedup(PRNumbers(errorLogs));
    JobNamesElements(errorLogs);
    PRNumbersElements(errorLogs);
    assert |r.jobs| == |multiset(r.jobs)| == |multiset(jobs)| == |jobs|;
    assert |r.prs| == |multiset(r.prs)| == |multiset(prs)| == |prs|;
    assert Elements(r.jobs) == Elements(jobs) by {
      forall x ensures x in r.jobs <==> x in jobs {
        assert x in r.jobs <==> x in multiset(r.jobs);
        assert x in jobs <==> x in multiset(jobs);
      }
    }
    assert Elements(r.prs) == Elements(prs) by {
      forall x ensures x in r.prs <==> x in prs {
        assert x in r.prs <==> x in multiset(r.prs);
        assert x in prs <==> x in multiset(prs);
      }
    }
    DistinctPermutation(jobs, r.jobs);
    DistinctPermutation(prs, r.prs);
    StringLeqTotalOrder();
    IntLeqTotalOrder();
    SortSorted(jobs, StringLeq);
    SortSorted(prs, IntLeq);
  }

  /** The promises pin the report down completely: whatever order the logs
      come in, the job and PR lists depend only on the sets of jobs and PRs. */
  lemma SummarisesUnique(r1: Report, r2: Report, errorLogs: seq<ErrorLog>)
    requires Summarises(r1, errorLogs) && Summarises(r2, errorLogs)
    ensures r1 == r2
  {
    StringLeqTotalOrder();
    IntLeqTotalOrder();
    SortedDistinctUnique(r1.jobs, r2.jobs, StringLeq);
    SortedDistinctUnique(r1.prs, r2.prs, IntLeq);
  }

  lemma SameLogSets(a: seq<ErrorLog>, b: seq<ErrorLog>)
    requires multiset(a) == multiset(b)
    ensures JobSet(a) == JobSet(b) && PRSet(a) == PRSet(b)
  {
    forall e ensures e in a <==> e in b {
      assert e in a <==> e in multiset(a);
      assert e in b <==> e in multiset(b);
    }
  }

  /** Reordering the logs leaves the job and PR lists unchanged. */
  lemma ReportOfReordered(a: seq<ErrorLog>, b: seq<ErrorLog>)
    requires multiset(a) == multiset(b)
    ensures ReportOf(a).jobs == ReportOf(b).jobs
    ensures ReportOf(a).prs == ReportOf(b).prs
  {
    SameLogSets(a, b);
    ReportOfSummarises(a);
    ReportOfSummarises(b);
    var ra, rb := ReportOf(a), ReportOf(b);
    SummarisesUnique(ra, Report(a, rb.jobs, rb.prs), a);
  }

  /** CheckAlertCondition: the pattern alerts when the logs, the distinct
      jobs and the distinct PRs each reach their threshold. */
  predicate CheckAlertCondition(r: Report, s: SelectedConfig)
    ensures CheckAlertCondition(r, s) <==>
              s.Occurrences <= |r.logs| && s.JobsAffected <= |r.jobs| && s.PrsAffected <= |r.prs|
  {
    && |r.logs| >= s.Occurrences
    && |r.jobs| >= s.JobsAffected
    && |r.prs| >= s.PrsAffected
  }

  /** On a freshly built report the condition counts logs, affected jobs and
      affected pull requests. */
  lemma AlertConditionOfReport(errorLogs: seq<ErrorLog>, s: SelectedConfig)
    ensures CheckAlertCondition(ReportOf(errorLogs), s) <==>
              && |errorLogs| >= s.Occurrences
              && |JobSet(errorLogs)| >= s.JobsAffected
              && |PRSet(errorLogs)| >= s.PrsAffected
  {
    ReportOfSummarises(errorLogs);
    DistinctCardinality(ReportOf(errorLogs).jobs);
    DistinctCardinality(ReportOf(errorLogs).prs);
  }

  /** Raising a threshold can only silence an alert, never raise one. */
  lemma AlertThresholdMonotone(r: Report, s: SelectedConfig, stricter: SelectedConfig)
    requires stricter.Occurrences >= s.Occurrences
    requires stricter.JobsAffected >= s.JobsAffected
    requires stricter.PrsAffected >= s.PrsAffected
    ensures CheckAlertCondition(r, stricter) ==> CheckAlertCondition(r, s)
  {
  }

  /** More logs can only raise an alert, never silence one. */
  lemma AlertMonotoneInLogs(errorLogs: seq<ErrorLog>, more: seq<ErrorLog>, s: SelectedConfig)
    ensures CheckAlertCondition(ReportOf(errorLogs), s) ==>
              CheckAlertCondition(ReportOf(errorLogs + more), s)
  {
    AlertConditionOfReport(errorLogs, s);
    AlertConditionOfReport(errorLogs + more, s);
    var all := errorLogs + more;
    assert JobSet(errorLogs) <= JobSet(all) && PRSet(errorLogs) <= PRSet(all) by {
      forall e | e in errorLogs ensures e in all {
        var i :| 0 <= i < |errorLogs| && errorLogs[i] == e;
        assert all[i] == e;
      }
    }
    SubsetCardinality(JobSet(errorLogs), JobSet(all));
    SubsetCardinality(PRSet(errorLogs), PRSet(all));
  }

  lemma SubsetCardinality<T>(a: set<T>, b: set<T>)
    requires a <= b
    ensures |a| <= |b|
  {
    assert b == a + (b - a);
  }

  /** One line of the listing: `fmt.Sprintf("%d. %s", i, e.String())`. It
      opens with the decimal digits of `i`, which read back as `i`, then
      ". ", then the log's own text. */
  function Entry(i: nat, e: ErrorLog, render: ErrorLog -> string): (entry: string)
    ensures var n := |DecimalString(i)|;
            && n + 2 <= |entry|
            && (forall m :: 0 <= m < n ==> IsDigit(entry[m]))
            && DecimalValue(entry[..n]) == i
            && entry[n..n + 2] == ". "
            && entry[n + 2..] == render(e)
  {
    var digits := DecimalString(i);
    DecimalStringRoundTrip(i);
    var entry := digits + ". " + render(e);
    assert entry[..|digits|] == digits;
    entry
  }

  /** The logs as numbered entries, numbering from `first`, with nothing in
      between. */
  function Listing(logs: seq<ErrorLog>, render: ErrorLog -> string, first: nat): string {
    if logs == [] then ""
    else Entry(first, logs[0], render) + Listing(logs[1..], render, first + 1)
  }

  /** The listing of two runs of logs is the listing of the first followed by
      the listing of the second, whose numbering carries on. */
  lemma {:induction false} ListingAppend(a: seq<ErrorLog>, b: seq<ErrorLog>,
                                         render: ErrorLog -> string, first: nat)
    ensures Listing(a + b, render, first) ==
            Listing(a, render, first) + Listing(b, render, first + |a|)
  {
    if a == [] {
      assert a + b == b;
    } else {
      assert (a + b)[1..] == a[1..] + b;
      ListingAppend(a[1..], b, render, first + 1);
    }
  }

  /** Log k is printed as entry number k, after every earlier log's entry and
      before every later one's. */
  lemma {:induction false} ListingEntry(logs: seq<ErrorLog>, render: ErrorLog -> string, k: nat)
    requires k < |logs|
    ensures Listing(logs, render, 0) ==
            Listing(logs[..k], render, 0) + Entry(k, logs[k], render) + Listing(logs[k + 1..], render, k + 1)
  {
    var before, rest, after := logs[..k], logs[k..], logs[k + 1..];
    assert logs == before + rest;
    ListingAppend(before, rest, render, 0);
    assert rest != [] && rest[0] == logs[k] && rest[1..] == after;
    var entry, tail := Entry(k, logs[k], render), Listing(after, render, k + 1);
    assert Listing(rest, render, k) == entry + tail;
  }

  /** sprintLogs: accumulates one entry per log, numbered from 0. */
  method SprintLogs(r: Report, render: ErrorLog -> string) returns (result: string)
    ensures result == Listing(r.logs, render, 0)
    ensures r.logs == [] ==> result == ""
  {
    result := "";
    for i := 0 to |r.logs|
      invariant result == Listing(r.logs[..i], render, 0)
    {
      var e := r.logs[i];
      ListingAppend(r.logs[..i], [e], render, 0);
      assert r.logs[..i + 1] == r.logs[..i] + [e];
      assert Listing([e], render, i) == Entry(i, e, render) by {
        assert [e][1..] == [];
      }
      result := result + Entry(i, e, render);
    }
    assert r.logs[..|r.logs|] == r.logs;
  }
}
