/** The error-log record that the alerting code reads (defined in the
    `log_parser` package; only its fields are needed here). */
module LogParser {

  /** One stored error log: the pattern it matched, the message, the CI job and
      pull request it came from, the build-log link and when it was recorded
      (`TimeStamp` stands for a point in time and is never compared here). */
  datatype ErrorLog = ErrorLog(
    Pattern: string,
    Msg: string,
    JobName: string,
    PRNumber: int,
    BuildLogURL: string,
    TimeStamp: int)
}
