/** The guard on the running Composer version: development builds of
    Composer pass, released versions must satisfy the required constraint.
    Constraint matching itself belongs to Composer's semver library and is a
    parameter here. */
module ComposerUtil {
  import opened Wrappers
  import Strings

  predicate IsHexDigit(c: char) {
    ('0' <= c <= '9') || ('a' <= c <= 'f') || ('A' <= c <= 'F')
  }

  /** `preg_match('/^[0-9a-f]{40}$/i', v)`: forty hexadecimal digits in
      either case; `$` also matches before a final line feed. */
  predicate IsSnapshot(v: string) {
    (|v| == 40 || (|v| == 41 && v[40] == '\n'))
    && forall i :: 0 <= i < 40 ==> IsHexDigit(v[i])
  }

  /** The text of the exception raised for a Composer that is too old. */
  function Message(required: string, current: string): string {
    "Foxy requires the Composer's minimum version \"" + required + "\", current version is \"" + current + "\""
  }

  /** The message names the required constraint and the running version. */
  lemma MessageNamesBoth(required: string, current: string)
    ensures Strings.Contains(Message(required, current), required)
    ensures Strings.Contains(Message(required, current), current)
  {
    var head := "Foxy requires the Composer's minimum version \"";
    var mid := "\", current version is \"";
    Strings.ContainsInside(head, required, mid + current + "\"");
    assert Message(required, current) == head + required + (mid + current + "\"");
    Strings.ContainsInside(head + required + mid, current, "\"");
  }

  /** `validateVersion`: a branch build (its version holds `@`) or a snapshot
      build (a commit hash) is accepted as is; a released version is accepted
      exactly when `satisfies(version, constraint)` holds, and rejected with
      the message above otherwise. */
  function ValidateVersion(required: string, current: string, satisfies: (string, string) -> bool): (r: Result<()>)
    ensures r.Failure? <==> '@' !in current && !IsSnapshot(current) && !satisfies(current, required)
    ensures r.Failure? ==> r.error == RuntimeError(Message(required, current))
  {
    Strings.ContainsChar(current, '@');
    var isBranch := Strings.Contains(current, "@");
    var isSnapshot := IsSnapshot(current);
    if !isBranch && !isSnapshot && !satisfies(current, required) then
      Failure(RuntimeError(Message(required, current)))
    else
      Success(())
  }

  /** A commit hash passes whatever the constraint and the matcher say. */
  lemma SnapshotAccepted(required: string, current: string, satisfies: (string, string) -> bool)
    requires |current| == 40 && forall i :: 0 <= i < 40 ==> IsHexDigit(current[i])
    ensures ValidateVersion(required, current, satisfies).Success?
  {
  }

  /** A placeholder version such as `@package_version@` passes too. */
  lemma BranchAccepted(required: string, current: string, satisfies: (string, string) -> bool)
    requires |current| > 0 && current[0] == '@'
    ensures ValidateVersion(required, current, satisfies).Success?
  {
  }
}
