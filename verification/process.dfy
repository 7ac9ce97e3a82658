/** The process executor as a scripted queue of replies, in the manner of the
    test double `ProcessExecutorMock`: each `execute` consumes the next reply
    and records the command; an exhausted script answers `null` with no
    output. The ambient `ProcessExecutor` timeout lives here too. */
module Process {
  import opened Wrappers
  import PhpValue

  datatype Reply = Reply(code: Option<int>, output: string)

  /** One executed command with the timeout in force while it ran. */
  datatype Call = Call(command: string, timeout: PhpValue.Value, code: Option<int>, output: string)

  datatype Executor = Executor(script: seq<Reply>, log: seq<Call>, timeout: PhpValue.Value)

  /** The executor's answer to one command. */
  datatype Answer = Answer(code: Option<int>, output: string, next: Executor)

  /** `$executor->execute($command, $output)`. */
  function Execute(e: Executor, command: string): (a: Answer)
    ensures a.next.log == e.log + [Call(command, e.timeout, a.code, a.output)]
    ensures a.next.timeout == e.timeout
    ensures |a.next.script| == if |e.script| > 0 then |e.script| - 1 else 0
  {
    var reply := if |e.script| > 0 then e.script[0] else Reply(None, "");
    var rest := if |e.script| > 0 then e.script[1..] else [];
    Answer(reply.code, reply.output, Executor(rest, e.log + [Call(command, e.timeout, reply.code, reply.output)], e.timeout))
  }

  /** `(int)` of an exit code; `null` casts to 0. */
  function ExitCode(code: Option<int>): int {
    match code
    case Some(c) => c
    case None => 0
  }
}
