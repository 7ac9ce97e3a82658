/** The choice of the asset manager (`Asset/AssetManagerFinder.php`):
    managers are registered by name, found by name, or else chosen by lock
    file and then by availability, in registration order. */
module ManagerFinder {
  import opened Wrappers
  import opened OrderedMap

  /** A registered manager as the finder sees it: its name, whether its lock
      file exists, and what `isAvailable` would answer; the probe can raise,
      since it reads the binary from the configuration. */
  datatype Candidate = Candidate(name: string, hasLockFile: bool, available: Result<bool>)

  /** `addManager`: keyed by name, so a later manager with the same name
      takes the place of the earlier one. */
  function AddManager(ms: Entries<Candidate>, c: Candidate): (r: Entries<Candidate>)
    ensures Get(r, c.name) == Some(c)
    ensures forall n :: n != c.name ==> Get(r, n) == Get(ms, n)
  {
    forall n { SetLookup(ms, c.name, c, n); }
    Set(ms, c.name, c)
  }

  /** The constructor: inputs that are not managers (`None`) are skipped. */
  function Register(ms: Entries<Candidate>, inputs: seq<Option<Candidate>>): (r: Entries<Candidate>)
    decreases |inputs|
  {
    if |inputs| == 0 then ms
    else Register(if inputs[0].Some? then AddManager(ms, inputs[0].value) else ms, inputs[1..])
  }

  /** The last manager registered under a name, if any. */
  function LastNamed(inputs: seq<Option<Candidate>>, n: string): Option<Candidate>
    decreases |inputs|
  {
    if |inputs| == 0 then None
    else
      var last := inputs[|inputs| - 1];
      if last.Some? && last.value.name == n then last else LastNamed(inputs[..|inputs| - 1], n)
  }

  /** Registration keeps, for every name, the last manager given with that
      name; names never given keep what they had. */
  lemma {:induction false} RegisterLookup(ms: Entries<Candidate>, inputs: seq<Option<Candidate>>, n: string)
    ensures Get(Register(ms, inputs), n) == if LastNamed(inputs, n).Some? then LastNamed(inputs, n) else Get(ms, n)
    decreases |inputs|
  {
    if |inputs| > 0 {
      var front := inputs[..|inputs| - 1];
      var last := inputs[|inputs| - 1];
      assert inputs == front + [last];
      RegisterSplit(ms, front, last);
      RegisterLookup(ms, front, n);
      var before := Register(ms, front);
      assert [last][1..] == [];
      assert Register(before, [last]) == if last.Some? then AddManager(before, last.value) else before;
    }
  }

  /** Registering a sequence and then one more input is registering both. */
  lemma {:induction false} RegisterSplit(ms: Entries<Candidate>, front: seq<Option<Candidate>>, last: Option<Candidate>)
    ensures Register(ms, front + [last]) == Register(Register(ms, front), [last])
    decreases |front|
  {
    if |front| > 0 {
      assert (front + [last])[1..] == front[1..] + [last];
      RegisterSplit(if front[0].Some? then AddManager(ms, front[0].value) else ms, front[1..], last);
    } else {
      assert front + [last] == [last];
    }
  }

  const NotFound: string := "No asset manager is found"

  /** `$managers` is only created by the first `addManager`: a finder with
      no manager holds `null`, and walking it draws the `foreach` warning,
      which Composer's error handler raises. */
  const NoManagers: Error := ErrorException("foreach() argument must be of type array|object, null given")

  /** The error for a name nobody registered. */
  function UnknownManager(name: string): Error {
    RuntimeError("The asset manager \"" + name + "\" doesn't exist")
  }

  /** The first manager whose lock file exists, else the first available
      one, else the error; also the number of `isAvailable` probes made. A
      probe that raises ends the search with its error, and a finder with
      no manager fails in its first `foreach`. */
  method FindAvailableManager(ms: Entries<Candidate>) returns (r: Result<Candidate>, probes: nat)
    ensures probes <= |ms|
    ensures (exists i :: 0 <= i < |ms| && ms[i].1.hasLockFile) ==> r.Success? && probes == 0
    ensures r.Success? ==> exists i :: 0 <= i < |ms| && r.value == ms[i].1
    ensures r.Success? && probes == 0 ==>
      exists i :: 0 <= i < |ms| && r.value == ms[i].1 && r.value.hasLockFile && forall j :: 0 <= j < i ==> !ms[j].1.hasLockFile
    ensures probes > 0 ==> ((forall j :: 0 <= j < |ms| ==> !ms[j].1.hasLockFile)
      && (forall j :: 0 <= j < probes - 1 ==> ms[j].1.available == Success(false)))
    ensures probes > 0 ==> (r.Success? <==> ms[probes - 1].1.available == Success(true))
    ensures r.Success? && probes > 0 ==> r.value == ms[probes - 1].1
    ensures r.Failure? && probes > 0 && ms[probes - 1].1.available.Failure? ==> r.error == ms[probes - 1].1.available.error
    ensures |ms| > 0 && r.Failure? && (probes == 0 || ms[probes - 1].1.available == Success(false)) ==>
      probes == |ms| && r.error == RuntimeError(NotFound)
    ensures r.Failure? && probes < |ms| ==> probes > 0 && ms[probes - 1].1.available.Failure?
    ensures |ms| > 0 && (forall j :: 0 <= j < |ms| ==> !ms[j].1.hasLockFile && ms[j].1.available == Success(false)) ==>
      r == Failure(RuntimeError(NotFound)) && probes == |ms|
    ensures |ms| == 0 ==> r == Failure(NoManagers) && probes == 0
  {
    if |ms| == 0 {
      return Failure(NoManagers), 0;
    }
    var i := 0;
    while i < |ms|
      invariant 0 <= i <= |ms|
      invariant forall j :: 0 <= j < i ==> !ms[j].1.hasLockFile
    {
      if ms[i].1.hasLockFile {
        return Success(ms[i].1), 0;
      }
      i := i + 1;
    }
    probes := 0;
    while probes < |ms|
      invariant 0 <= probes <= |ms|
      invariant forall j :: 0 <= j < probes ==> ms[j].1.available == Success(false)
    {
      probes := probes + 1;
      match ms[probes - 1].1.available {
        case Failure(e) => return Failure(e), probes;
        case Success(true) => return Success(ms[probes - 1].1), probes;
        case Success(false) =>
      }
    }
    return Failure(RuntimeError(NotFound)), probes;
  }

  /** `findManager`: a given name must be registered; without a name the
      search of `findAvailableManager` decides: the first manager with a lock
      file, else the first available one, else the error, or the error of a
      probe that raises. */
  method FindManager(ms: Entries<Candidate>, name: Option<string>) returns (r: Result<Candidate>, probes: nat)
    ensures name.Some? && HasKey(ms, name.value) ==> r == Success(Get(ms, name.value).value) && probes == 0
    ensures name.Some? && !HasKey(ms, name.value) ==> r == Failure(UnknownManager(name.value)) && probes == 0
    ensures probes <= |ms|
    ensures name.None? && (exists i :: 0 <= i < |ms| && ms[i].1.hasLockFile) ==> r.Success? && probes == 0
    ensures name.None? && r.Success? ==> exists i :: 0 <= i < |ms| && r.value == ms[i].1
    ensures name.None? && r.Success? && probes == 0 ==>
      exists i :: 0 <= i < |ms| && r.value == ms[i].1 && r.value.hasLockFile && forall j :: 0 <= j < i ==> !ms[j].1.hasLockFile
    ensures probes > 0 ==> ((forall j :: 0 <= j < |ms| ==> !ms[j].1.hasLockFile)
      && (forall j :: 0 <= j < probes - 1 ==> ms[j].1.available == Success(false)))
    ensures probes > 0 ==> (r.Success? <==> ms[probes - 1].1.available == Success(true))
    ensures r.Success? && probes > 0 ==> r.value == ms[probes - 1].1
    ensures r.Failure? && probes > 0 && ms[probes - 1].1.available.Failure? ==> r.error == ms[probes - 1].1.available.error
    ensures name.None? && |ms| > 0 && r.Failure? && (probes == 0 || ms[probes - 1].1.available == Success(false)) ==>
      probes == |ms| && r.error == RuntimeError(NotFound)
    ensures name.None? && r.Failure? && probes < |ms| ==> probes > 0 && ms[probes - 1].1.available.Failure?
    ensures name.None? && |ms| > 0 && (forall j :: 0 <= j < |ms| ==> !ms[j].1.hasLockFile && ms[j].1.available == Success(false)) ==>
      r == Failure(RuntimeError(NotFound)) && probes == |ms|
    ensures name.None? && |ms| == 0 ==> r == Failure(NoManagers) && probes == 0
  {
    if name.Some? {
      if HasKey(ms, name.value) {
        return Success(Get(ms, name.value).value), 0;
      }
      return Failure(UnknownManager(name.value)), 0;
    }
    r, probes := FindAvailableManager(ms);
  }
}
