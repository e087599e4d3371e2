/** The records that command generation and command execution exchange. */
module Shell {
  import opened Wrappers

  /** The scope bitmask. */
  type Scope = bv8

  const EXCLUDE_COORDINATOR: Scope := 0
  const INCLUDE_COORDINATOR: Scope := 2
  const EXCLUDE_MIRRORS: Scope := 0
  const INCLUDE_MIRRORS: Scope := 8

  /** One joined entry of `RetryError`: which attempt failed, and how. */
  datatype Failure = Failure(attempt: int, error: string, stderr: string)

  /** `retryError` holds the joined errors in order; the empty list is Go's nil. */
  datatype ShellCommand = ShellCommand(
    scope: Scope,
    content: int,
    host: string,
    args: seq<string>,
    stdout: string,
    stderr: string,
    error: Option<string>,
    retryError: seq<Failure>,
    completed: bool)

  function NewShellCommand(scope: Scope, content: int, host: string, args: seq<string>): ShellCommand {
    ShellCommand(scope, content, host, args, "", "", None, [], false)
  }
}
