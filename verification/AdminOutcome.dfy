/** What a caller can see of one remote Admin API write: it succeeds, or it
    raises -- before taking effect, or after (a lost reply). */
module AdminOutcome {
  datatype Outcome = Succeeds | FailsUnapplied | FailsApplied {
    predicate Applied() { this != FailsUnapplied }
  }
}
