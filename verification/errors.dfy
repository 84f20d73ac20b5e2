/** The exceptions the job codec and the job table throw, as a closed set of tags.
    `Job` and `Crontab` throw an `InvalidArgumentException` for the first four and a
    `RuntimeException` for the last three; message texts are not modelled. */
module CronErrors {

  datatype CronError =
      /** `Job::fromString` was given the empty string. */
    | EmptyJobLine
      /** `Job::fromString`: fewer than five schedule fields and a command. */
    | TooFewFields
      /** `Job::setStatus` with a name outside the three statuses. */
    | InvalidStatus(name: string)
      /** `Crontab::get` or `Crontab::remove` with a key the table lacks. */
    | UndefinedJob
      /** `Job::toString` on a job whose command is empty. */
    | EmptyCommand
      /** `crontab -l` failed; carries the process's error output or a fixed text. */
    | ListFailed(message: string)
      /** Installing the rendered table failed. */
    | CannotSave
}
