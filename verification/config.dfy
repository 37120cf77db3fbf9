/** The alert thresholds of one selected error pattern (defined in the `config`
    package; its time-window `Duration()` is not needed by the report). */
module Config {

  /** Minimum number of logs, of distinct jobs and of distinct pull requests
      before the pattern alerts. Go `int`s: nothing stops them being zero or
      negative. */
  datatype SelectedConfig = SelectedConfig(
    Occurrences: int,
    JobsAffected: int,
    PrsAffected: int)
}
