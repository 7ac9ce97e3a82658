/** The outcome of one asset manager command (`Asset/AssetManagerResult.php`):
    a failing exit code must come with a reason. */
module ManagerResult {
  import opened Wrappers
  import opened PhpValue

  datatype CommandResult = CommandResult(command: Value, exitCode: int, errorReason: Value)

  const MissingReason: string := "If the result is != 0 an error reason must be supplied!"
  const MissingReasonCode: int := 1591974481

  /** Every result with a positive exit code carries a non-empty reason. */
  predicate Valid(r: CommandResult) {
    r.exitCode > 0 ==> Truthy(r.errorReason)
  }

  /** The constructor: refuses a positive exit code without a reason
      (`empty($errorReason)`), and otherwise keeps its arguments as given. */
  function New(command: Value, exitCode: int, errorReason: Value): (r: Result<CommandResult>)
    ensures r.Failure? <==> exitCode > 0 && !Truthy(errorReason)
    ensures r.Failure? ==> r.error == InvalidArgument(MissingReason, MissingReasonCode)
    ensures r.Success? ==> Valid(r.value)
    ensures r.Success? ==> r.value.command == command && r.value.exitCode == exitCode && r.value.errorReason == errorReason
  {
    if exitCode > 0 && !Truthy(errorReason) then Failure(InvalidArgument(MissingReason, MissingReasonCode))
    else Success(CommandResult(command, exitCode, errorReason))
  }

  /** A zero or negative exit code needs no reason. */
  lemma NonPositiveNeedsNoReason(command: Value, exitCode: int)
    requires exitCode <= 0
    ensures New(command, exitCode, Null) == Success(CommandResult(command, exitCode, Null))
  {
  }
}
