/** Installing freshly built binaries over a directory of possibly running ones.

    Every file operation that can fail is decided by an environment, one per binary; failing may leave a
    half-written copy behind. */
module Installer {
  import opened Seqs
  import opened Decimal

  type Bytes = seq<nat>

  datatype Node = File(bytes: Bytes) | Directory

  type Files = map<string, Node>

  /** A path cargo reported: its file name, and its bytes when it is a file. */
  datatype Executable = Executable(name: Option<string>, build: Option<Bytes>)

  datatype CopyResult = Copied | FailedLeaving(left: Option<Bytes>)

  datatype Env = Env(
    readFails: bool, stopSucceeds: bool, removeDirFails: bool, removeFails: bool,
    renameFails: nat -> bool, copy: CopyResult,
    /** Whether an image of these bytes, run with `--start`, brings the service up. */
    starts: Bytes -> bool)

  // ---- sidecars ----

  function LastDot(name: string): (i: Option<nat>)
    ensures i.Some? ==> i.value < |name|
  {
    if name == [] then None
    else if name[|name| - 1] == '.' then Some(|name| - 1)
    else LastDot(name[..|name| - 1])
  }

  /** The name up to its extension; a leading dot starts no extension. */
  function Stem(name: string): string {
    match LastDot(name)
    case None => name
    case Some(i) => if i == 0 then name else name[..i]
  }

  function Extension(name: string): Option<string> {
    match LastDot(name)
    case None => None
    case Some(i) => if i == 0 then None else Some(name[i + 1..])
  }

  const ATTEMPTS: nat := 64

  function SidecarName(dest: string, attempt: nat): string { Stem(dest) + "." + ("old" + Print(attempt)) }

  predicate IsSidecar(name: string) {
    Extension(name).Some? && "old" <= Extension(name).value && AllDigits(Extension(name).value[3..])
  }

  lemma {:induction false} LastDotBefore(stem: string, ext: string)
    requires '.' !in ext
    ensures LastDot(stem + "." + ext) == Some(|stem|)
    decreases |ext|
  {
    var name := stem + "." + ext;
    if ext == [] {
      assert name == stem + ".";
    } else {
      assert name[..|name| - 1] == stem + "." + ext[..|ext| - 1];
      assert name[|name| - 1] == ext[|ext| - 1];
      LastDotBefore(stem, ext[..|ext| - 1]);
    }
  }

  /** Whatever is moved aside is recognised by the next sweep. */
  lemma SidecarsAreRecognised(dest: string, attempt: nat)
    requires dest != []
    ensures IsSidecar(SidecarName(dest, attempt))
  {
    PrintIsDigits(attempt);
    var ext := "old" + Print(attempt);
    forall i | 0 <= i < |ext| ensures ext[i] != '.' {
      if i >= 3 {
        assert ext[i] == Print(attempt)[i - 3];
        assert IsDigit(ext[i]);
      }
    }
    LastDotBefore(Stem(dest), ext);
    assert SidecarName(dest, attempt)[|Stem(dest)| + 1..] == ext;
    assert ext[3..] == Print(attempt);
  }

  /** Every sidecar that is not held by a live process is deleted, and nothing else is. */
  function Sweep(files: Files, held: string -> bool): (swept: Files)
    ensures swept.Keys <= files.Keys
    ensures forall n :: n in files ==> (n !in swept <==> IsSidecar(n) && files[n].File? && !held(n))
    ensures forall n :: n in swept ==> swept[n] == files[n]
  {
    map n | n in files && !(IsSidecar(n) && files[n].File? && !held(n)) :: files[n]
  }

  // ---- moving a locked binary aside ----

  /** Attempt `k` is of no use. */
  predicate Blocked(files: Files, dest: string, fails: nat -> bool, k: nat) {
    SidecarName(dest, k) in files || fails(k)
  }

  /** The first attempt that works. */
  function FreeAttempt(files: Files, dest: string, fails: nat -> bool, from: nat): (k: Option<nat>)
    decreases ATTEMPTS - from
    ensures k.Some? ==> from <= k.value < ATTEMPTS && !Blocked(files, dest, fails, k.value)
    ensures k.Some? ==> forall j: nat :: from <= j < k.value ==> Blocked(files, dest, fails, j)
    ensures k.None? ==> forall j: nat :: from <= j < ATTEMPTS ==> Blocked(files, dest, fails, j)
  {
    if from >= ATTEMPTS then None
    else if Blocked(files, dest, fails, from) then FreeAttempt(files, dest, fails, from + 1)
    else Some(from)
  }

  function Move(files: Files, from: string, to: string): Files
    requires from in files
  {
    (files - {from})[to := files[from]]
  }

  function MovedAside(files: Files, dest: string, fails: nat -> bool): Option<Files>
    requires dest in files
  {
    match FreeAttempt(files, dest, fails, 0)
    case None => None
    case Some(k) => Some(Move(files, dest, SidecarName(dest, k)))
  }

  /** Moving aside overwrites nothing and loses nothing: all files keep their contents, the moved one under a
      name that was not in use. */
  lemma MovingAsideIsSafe(files: Files, dest: string, fails: nat -> bool)
    requires dest in files && MovedAside(files, dest, fails).Some?
    ensures var after := MovedAside(files, dest, fails).value;
            exists k: nat :: k < ATTEMPTS && SidecarName(dest, k) !in files && dest !in after &&
              after == (files - {dest})[SidecarName(dest, k) := files[dest]]
  {
    var k := FreeAttempt(files, dest, fails, 0).value;
    assert SidecarName(dest, k) !in files;
  }

  // ---- one binary ----

  datatype Outcome = Nameless | NotFound | Unchanged | InUse | Installed | CopyFailed

  datatype Step = Step(files: Files, outcome: Outcome, brokerStopped: bool, brokerRestarted: bool)

  predicate IsBroker(name: string) { name == "uffs-broker" || name == "uffs-broker.exe" }

  predicate Identical(files: Files, name: string, build: Bytes, env: Env) {
    name in files && files[name] == File(build) && !env.readFails
  }

  /** The destination after the attempts to delete it. */
  function Removed(files: Files, dest: string, env: Env): Files {
    if dest !in files then files
    else if files[dest].Directory? then (if env.removeDirFails then files else files - {dest})
    else if env.removeFails then files
    else files - {dest}
  }

  function Freed(files: Files, dest: string, env: Env): Option<Files> {
    var removed := Removed(files, dest, env);
    if dest in removed then MovedAside(removed, dest, env.renameFails) else Some(removed)
  }

  function CopyTo(files: Files, dest: string, build: Bytes, copy: CopyResult): Files {
    match copy
    case Copied => files[dest := File(build)]
    case FailedLeaving(None) => files
    case FailedLeaving(Some(left)) => files[dest := File(left)]
  }

  function InstallOne(files: Files, exe: Executable, env: Env): Step {
    if exe.name.None? then Step(files, Nameless, false, false)
    else if exe.build.None? then Step(files, NotFound, false, false)
    else if Identical(files, exe.name.value, exe.build.value, env) then Step(files, Unchanged, false, false)
    else Replace(files, exe.name.value, exe.build.value, env)
  }

  /** The broker is started by running the file at its own path. */
  predicate ComesUp(files: Files, dest: string, env: Env) {
    dest in files && files[dest].File? && env.starts(files[dest].bytes)
  }

  function Replace(files: Files, dest: string, build: Bytes, env: Env): Step {
    var stopped := IsBroker(dest) && dest in files && files[dest].File? && env.stopSucceeds;
    match Freed(files, dest, env)
    case None => Step(Removed(files, dest, env), InUse, stopped, false)
    case Some(freed) =>
      var after := CopyTo(freed, dest, build, env.copy);
      Step(after, if env.copy.Copied? then Installed else CopyFailed, stopped, stopped && ComesUp(after, dest, env))
  }

  /** The guard of the early exit. */
  predicate CannotBeFreed(files: Files, dest: string, env: Env) {
    dest in files &&
    (if files[dest].Directory? then env.removeDirFails else env.removeFails) &&
    forall k: nat :: k < ATTEMPTS ==> Blocked(files, dest, env.renameFails, k)
  }

  lemma InUseIff(files: Files, exe: Executable, env: Env)
    requires exe.name.Some? && exe.build.Some?
    ensures InstallOne(files, exe, env).outcome == InUse <==>
            !Identical(files, exe.name.value, exe.build.value, env) && CannotBeFreed(files, exe.name.value, env)
  {
  }

  /** After copying, no image is in place that brings the service up: the build does not start, or the copy failed
      and what it left is missing or does not start. */
  predicate NothingStarts(build: Bytes, env: Env) {
    match env.copy
    case Copied => !env.starts(build)
    case FailedLeaving(None) => true
    case FailedLeaving(Some(left)) => !env.starts(left)
  }

  lemma FreedIsFree(files: Files, dest: string, env: Env)
    requires Freed(files, dest, env).Some?
    ensures dest !in Freed(files, dest, env).value
  {
    var removed := Removed(files, dest, env);
    if dest in removed {
      MovingAsideIsSafe(removed, dest, env.renameFails);
    }
  }

  /** A stopped broker runs again afterwards unless its path could not be freed or nothing in it starts. */
  lemma BrokerRestartedIff(files: Files, exe: Executable, env: Env)
    ensures var step := InstallOne(files, exe, env);
            (step.brokerRestarted ==> step.brokerStopped) &&
            (step.brokerStopped ==>
               exe.name.Some? && exe.build.Some? &&
               (step.brokerRestarted <==> !CannotBeFreed(files, exe.name.value, env) && !NothingStarts(exe.build.value, env)))
  {
    if exe.name.Some? && exe.build.Some? {
      InUseIff(files, exe, env);
      if Freed(files, exe.name.value, env).Some? {
        FreedIsFree(files, exe.name.value, env);
      }
    }
  }

  /** A running broker whose image can be neither deleted nor moved is stopped and stays stopped, though its build
      would start. */
  lemma StuckBrokerStaysDown(image: Bytes, build: Bytes)
    requires image != build
    ensures var env := Env(false, true, false, true, k => true, Copied, b => true);
            var step := InstallOne(map["uffs-broker" := File(image)], Executable(Some("uffs-broker"), Some(build)), env);
            step.outcome == InUse && step.brokerStopped && !step.brokerRestarted
  {
    var env := Env(false, true, false, true, k => true, Copied, b => true);
    InUseIff(map["uffs-broker" := File(image)], Executable(Some("uffs-broker"), Some(build)), env);
  }

  /** So does one whose old image was deleted and whose copy then failed: there is nothing left to start. */
  lemma FailedCopyLeavesBrokerDown(image: Bytes, build: Bytes)
    requires image != build
    ensures var env := Env(false, true, false, false, k => false, FailedLeaving(None), b => true);
            var step := InstallOne(map["uffs-broker" := File(image)], Executable(Some("uffs-broker"), Some(build)), env);
            step.outcome == CopyFailed && "uffs-broker" !in step.files && step.brokerStopped && !step.brokerRestarted
  {
    var files, exe := map["uffs-broker" := File(image)], Executable(Some("uffs-broker"), Some(build));
    var env := Env(false, true, false, false, k => false, FailedLeaving(None), b => true);
    assert Freed(files, "uffs-broker", env) == Some(files - {"uffs-broker"});
  }

  predicate IsSkipped(outcome: Outcome) { outcome == NotFound || outcome == InUse || outcome == CopyFailed }

  /** A binary that is not skipped is installed byte for byte, and no other existing file changes. */
  lemma OneIsEqualOrSkipped(files: Files, exe: Executable, env: Env)
    ensures var step := InstallOne(files, exe, env);
            (exe.name.Some? && !IsSkipped(step.outcome) ==>
               exe.build.Some? && exe.name.value in step.files && step.files[exe.name.value] == File(exe.build.value)) &&
            (forall n :: n in files && exe.name != Some(n) ==> n in step.files && step.files[n] == files[n])
  {
    if exe.name.Some? && exe.build.Some? {
      var dest := exe.name.value;
      FreedKeepsOthers(files, dest, env);
    }
  }

  lemma FreedKeepsOthers(files: Files, dest: string, env: Env)
    ensures forall n :: n in files && n != dest ==> n in Removed(files, dest, env) && Removed(files, dest, env)[n] == files[n]
    ensures Freed(files, dest, env).Some? ==>
            forall n :: n in files && n != dest ==> n in Freed(files, dest, env).value && Freed(files, dest, env).value[n] == files[n]
  {
    var removed := Removed(files, dest, env);
    if dest in removed && MovedAside(removed, dest, env.renameFails).Some? {
      MovingAsideIsSafe(removed, dest, env.renameFails);
    }
  }

  // ---- a whole run ----

  datatype Run = Run(files: Files, steps: seq<Step>)

  function InstallAll(files: Files, exes: seq<Executable>, envs: nat -> Env): (run: Run)
    ensures |run.steps| == |exes|
  {
    if exes == [] then Run(files, [])
    else
      var n := |exes| - 1;
      var before := InstallAll(files, exes[..n], envs);
      var step := InstallOne(before.files, exes[n], envs(n));
      Run(step.files, before.steps + [step])
  }

  /** What the program keeps beside the files; `brokerDown` says that the broker was stopped and has not come up
      since. */
  datatype Totals = Totals(installed: nat, same: nat, skipped: nat, brokerDown: bool)

  const NOTHING := Totals(0, 0, 0, false)

  function Count(t: Totals, step: Step): Totals {
    var down := if step.brokerStopped then !step.brokerRestarted else t.brokerDown;
    match step.outcome
    case Nameless => t
    case Installed => Totals(t.installed + 1, t.same, t.skipped, down)
    case Unchanged => Totals(t.installed, t.same + 1, t.skipped, down)
    case _ => Totals(t.installed, t.same, t.skipped + 1, down)
  }

  function TotalsOf(steps: seq<Step>): Totals {
    if steps == [] then NOTHING else Count(TotalsOf(steps[..|steps| - 1]), steps[|steps| - 1])
  }

  function Named(exes: seq<Executable>): nat {
    if exes == [] then 0 else Named(exes[..|exes| - 1]) + if exes[|exes| - 1].name.Some? then 1 else 0
  }

  /** A step belongs to its executable. */
  predicate Accounts(step: Step, exe: Executable) {
    (step.outcome == Nameless <==> exe.name.None?) && (step.outcome == Nameless ==> !step.brokerStopped)
  }

  predicate AllAccount(steps: seq<Step>, exes: seq<Executable>) {
    |steps| == |exes| && forall i :: 0 <= i < |steps| ==> Accounts(steps[i], exes[i])
  }

  lemma {:induction false} StepsAccount(files: Files, exes: seq<Executable>, envs: nat -> Env)
    ensures AllAccount(InstallAll(files, exes, envs).steps, exes)
  {
    if exes != [] {
      StepsAccount(files, exes[..|exes| - 1], envs);
    }
  }

  predicate NoneSkipped(steps: seq<Step>) { forall i :: 0 <= i < |steps| ==> !IsSkipped(steps[i].outcome) }

  lemma {:induction false} TotalsAddUp(steps: seq<Step>, exes: seq<Executable>)
    requires AllAccount(steps, exes)
    ensures var t := TotalsOf(steps); t.installed + t.same + t.skipped == Named(exes)
  {
    if steps != [] {
      var n := |steps| - 1;
      TotalsAddUp(steps[..n], exes[..n]);
      assert Accounts(steps[n], exes[n]);
    }
  }

  lemma {:induction false} SkippedAreCounted(steps: seq<Step>)
    ensures TotalsOf(steps).skipped == 0 <==> NoneSkipped(steps)
  {
    if steps != [] {
      var n := |steps| - 1;
      SkippedAreCounted(steps[..n]);
      assert NoneSkipped(steps) <==> NoneSkipped(steps[..n]) && !IsSkipped(steps[n].outcome);
    }
  }

  predicate WasInstalled(step: Step) { step.outcome == Installed }
  predicate WasUnchanged(step: Step) { step.outcome == Unchanged }
  predicate WasSkipped(step: Step) { IsSkipped(step.outcome) }

  /** Each counter is the number of steps with its outcome. */
  lemma {:induction false} TotalsAreCounts(steps: seq<Step>)
    ensures var t := TotalsOf(steps);
            t.installed == |Filter(WasInstalled, steps)| && t.same == |Filter(WasUnchanged, steps)| &&
            t.skipped == |Filter(WasSkipped, steps)|
  {
    if steps != [] {
      TotalsAreCounts(steps[..|steps| - 1]);
    }
  }

  /** Every named binary is counted once, and the run reports success exactly when none was skipped. */
  lemma CountersAddUp(files: Files, exes: seq<Executable>, envs: nat -> Env)
    ensures var steps := InstallAll(files, exes, envs).steps;
            var t := TotalsOf(steps);
            t.installed + t.same + t.skipped == Named(exes) && (t.skipped == 0 <==> NoneSkipped(steps))
  {
    StepsAccount(files, exes, envs);
    TotalsAddUp(InstallAll(files, exes, envs).steps, exes);
    SkippedAreCounted(InstallAll(files, exes, envs).steps);
  }

  /** No later binary has the same name. */
  predicate LastOfItsName(exes: seq<Executable>, i: nat)
    requires i < |exes|
  {
    forall j :: i < j < |exes| ==> exes[j].name != exes[i].name
  }

  predicate Holds(files: Files, exe: Executable) {
    exe.name.Some? && exe.build.Some? && exe.name.value in files && files[exe.name.value] == File(exe.build.value)
  }

  /** After the run every named binary holds its build or was counted as skipped, for every pattern of
      failures; of several with one name, the last. */
  lemma {:induction false} EqualOrSkipped(files: Files, exes: seq<Executable>, envs: nat -> Env, i: nat)
    requires i < |exes| && exes[i].name.Some? && LastOfItsName(exes, i)
    ensures var run := InstallAll(files, exes, envs); IsSkipped(run.steps[i].outcome) || Holds(run.files, exes[i])
    decreases |exes|
  {
    var n := |exes| - 1;
    var before := InstallAll(files, exes[..n], envs);
    OneIsEqualOrSkipped(before.files, exes[n], envs(n));
    if i < n {
      assert forall j :: i < j < n ==> exes[..n][j].name != exes[..n][i].name;
      EqualOrSkipped(files, exes[..n], envs, i);
    }
  }

  /** Files no binary is named after are never lost or changed. */
  lemma {:induction false} OtherFilesStay(files: Files, exes: seq<Executable>, envs: nat -> Env, name: string)
    requires name in files && forall i :: 0 <= i < |exes| ==> exes[i].name != Some(name)
    ensures var after := InstallAll(files, exes, envs).files; name in after && after[name] == files[name]
  {
    if exes != [] {
      var n := |exes| - 1;
      OtherFilesStay(files, exes[..n], envs, name);
      OneIsEqualOrSkipped(InstallAll(files, exes[..n], envs).files, exes[n], envs(n));
    }
  }

  // ---- the broker over a whole run ----

  /** Step `i` was the last to stop the broker. */
  predicate IsLastStop(steps: seq<Step>, i: nat) {
    i < |steps| && steps[i].brokerStopped && forall j :: i < j < |steps| ==> !steps[j].brokerStopped
  }

  lemma {:induction false} DownSinceLastStop(steps: seq<Step>)
    requires forall i :: 0 <= i < |steps| && steps[i].outcome == Nameless ==> !steps[i].brokerStopped
    ensures TotalsOf(steps).brokerDown <==> exists i: nat :: IsLastStop(steps, i) && !steps[i].brokerRestarted
  {
    if steps != [] {
      var n := |steps| - 1;
      if steps[n].brokerStopped {
        assert IsLastStop(steps, n);
      } else {
        DownSinceLastStop(steps[..n]);
        assert forall i: nat :: IsLastStop(steps, i) <==> IsLastStop(steps[..n], i);
      }
    }
  }

  /** Each step starts from the files the steps before it leave. */
  lemma {:induction false} StepAt(files: Files, exes: seq<Executable>, envs: nat -> Env, i: nat)
    requires i < |exes|
    ensures InstallAll(files, exes, envs).steps[i] ==
            InstallOne(InstallAll(files, exes[..i], envs).files, exes[i], envs(i))
  {
    var n := |exes| - 1;
    if i < n {
      StepAt(files, exes[..n], envs, i);
      assert exes[..n][..i] == exes[..i];
    }
  }

  /** The replacement at step `i` cannot end with a running broker. */
  predicate Hopeless(files: Files, exes: seq<Executable>, envs: nat -> Env, i: nat)
    requires i < |exes| && exes[i].name.Some? && exes[i].build.Some?
  {
    CannotBeFreed(InstallAll(files, exes[..i], envs).files, exes[i].name.value, envs(i)) ||
    NothingStarts(exes[i].build.value, envs(i))
  }

  lemma RestartedAtIff(files: Files, exes: seq<Executable>, envs: nat -> Env, i: nat)
    requires i < |exes| && InstallAll(files, exes, envs).steps[i].brokerStopped
    ensures exes[i].name.Some? && exes[i].build.Some?
    ensures InstallAll(files, exes, envs).steps[i].brokerRestarted <==> !Hopeless(files, exes, envs, i)
  {
    StepAt(files, exes, envs, i);
    BrokerRestartedIff(InstallAll(files, exes[..i], envs).files, exes[i], envs(i));
  }

  /** After the run the broker is down exactly when its last stop could not end otherwise. */
  lemma BrokerLeftDownIff(files: Files, exes: seq<Executable>, envs: nat -> Env)
    ensures var steps := InstallAll(files, exes, envs).steps;
            TotalsOf(steps).brokerDown <==>
            exists i: nat :: IsLastStop(steps, i) && exes[i].name.Some? && exes[i].build.Some? && Hopeless(files, exes, envs, i)
  {
    var steps := InstallAll(files, exes, envs).steps;
    StepsAccount(files, exes, envs);
    assert forall i :: 0 <= i < |steps| ==> Accounts(steps[i], exes[i]);
    DownSinceLastStop(steps);
    forall i: nat | IsLastStop(steps, i)
      ensures exes[i].name.Some? && exes[i].build.Some? && (steps[i].brokerRestarted <==> !Hopeless(files, exes, envs, i))
    {
      RestartedAtIff(files, exes, envs, i);
    }
  }

  // ---- running it again ----

  predicate AllHold(files: Files, exes: seq<Executable>) {
    forall i :: 0 <= i < |exes| && exes[i].name.Some? ==> Holds(files, exes[i])
  }

  lemma {:induction false} NothingToDo(files: Files, exes: seq<Executable>, envs: nat -> Env)
    requires AllHold(files, exes) && forall i: nat :: i < |exes| ==> !envs(i).readFails
    ensures InstallAll(files, exes, envs).files == files
    ensures TotalsOf(InstallAll(files, exes, envs).steps) == Totals(0, Named(exes), 0, false)
  {
    if exes != [] {
      NothingToDo(files, exes[..|exes| - 1], envs);
      TotalsNext(files, exes, envs);
    }
  }

  /** A run that skipped nothing leaves nothing to do: running it again, with builds of distinct names and files that
      can be read, touches no file, stops no broker and finds every binary unchanged. */
  lemma SecondRunTouchesNothing(files: Files, exes: seq<Executable>, envs: nat -> Env, again: nat -> Env)
    requires forall i: nat :: i < |exes| ==> LastOfItsName(exes, i) && !again(i).readFails
    requires TotalsOf(InstallAll(files, exes, envs).steps).skipped == 0
    ensures var after := InstallAll(files, exes, envs).files;
            var second := InstallAll(after, exes, again);
            second.files == after && TotalsOf(second.steps) == Totals(0, Named(exes), 0, false)
  {
    var run := InstallAll(files, exes, envs);
    SkippedAreCounted(run.steps);
    forall i | 0 <= i < |exes| && exes[i].name.Some? ensures Holds(run.files, exes[i]) {
      EqualOrSkipped(files, exes, envs, i);
    }
    NothingToDo(run.files, exes, again);
  }

  // ---- the program ----

  class Installation {
    var files: Files
    var totals: Totals

    constructor (files: Files)
      ensures this.files == files && totals == NOTHING
    {
      this.files, totals := files, NOTHING;
    }

    method RenameAside(dest: string, fails: nat -> bool) returns (moved: bool)
      requires dest in files
      modifies this`files
      ensures moved == MovedAside(old(files), dest, fails).Some?
      ensures files == if moved then MovedAside(old(files), dest, fails).value else old(files)
    {
      for attempt := 0 to ATTEMPTS
        invariant files == old(files)
        invariant FreeAttempt(files, dest, fails, attempt) == FreeAttempt(files, dest, fails, 0)
      {
        var sidecar := SidecarName(dest, attempt);
        if sidecar in files {
          continue;
        }
        if !fails(attempt) {
          files := Move(files, dest, sidecar);
          return true;
        }
      }
      moved := false;
    }

    /** Deletes or moves the destination; false on the early exit. */
    method FreeDestination(dest: string, env: Env) returns (free: bool)
      modifies this`files
      ensures free == Freed(old(files), dest, env).Some?
      ensures files == if free then Freed(old(files), dest, env).value else Removed(old(files), dest, env)
    {
      if dest in files && files[dest].Directory? && !env.removeDirFails {
        files := files - {dest};
      }
      free := true;
      if dest in files {
        if files[dest].File? && !env.removeFails {
          files := files - {dest};
        } else {
          free := RenameAside(dest, env.renameFails);
        }
      }
    }

    /** The loop body for one executable. */
    method Install(exe: Executable, env: Env)
      modifies this
      ensures files == InstallOne(old(files), exe, env).files
      ensures totals == Count(old(totals), InstallOne(old(files), exe, env))
    {
      if exe.name.None? {
        return;
      }
      var dest := exe.name.value;
      if exe.build.None? {
        totals := totals.(skipped := totals.skipped + 1);
        return;
      }
      var build := exe.build.value;
      if Identical(files, dest, build, env) {
        totals := totals.(same := totals.same + 1);
        return;
      }
      ReplaceBinary(dest, build, env);
    }

    /** Stop the broker if it is the one replaced, free the path, copy, restart. */
    method ReplaceBinary(dest: string, build: Bytes, env: Env)
      modifies this
      ensures files == Replace(old(files), dest, build, env).files
      ensures totals == Count(old(totals), Replace(old(files), dest, build, env))
    {
      var stopped := IsBroker(dest) && dest in files && files[dest].File? && env.stopSucceeds;
      if stopped {
        totals := totals.(brokerDown := true);
      }
      var free := FreeDestination(dest, env);
      if !free {
        totals := totals.(skipped := totals.skipped + 1);
        return;
      }
      CopyAndStart(dest, build, env, stopped);
    }

    /** Copy the build, count it, and start the broker again if it was stopped. */
    method CopyAndStart(dest: string, build: Bytes, env: Env, stopped: bool)
      modifies this
      ensures files == CopyTo(old(files), dest, build, env.copy)
      ensures totals.installed == old(totals.installed) + (if env.copy.Copied? then 1 else 0)
      ensures totals.skipped == old(totals.skipped) + (if env.copy.Copied? then 0 else 1)
      ensures totals.same == old(totals.same)
      ensures totals.brokerDown == (old(totals.brokerDown) && !(stopped && ComesUp(files, dest, env)))
    {
      files := CopyTo(files, dest, build, env.copy);
      if env.copy.Copied? {
        totals := totals.(installed := totals.installed + 1);
      } else {
        totals := totals.(skipped := totals.skipped + 1);
      }
      if stopped && ComesUp(files, dest, env) {
        totals := totals.(brokerDown := false);
      }
    }

    method InstallBinaries(exes: seq<Executable>, envs: nat -> Env)
      requires totals == NOTHING
      modifies this
      ensures files == InstallAll(old(files), exes, envs).files
      ensures totals == TotalsOf(InstallAll(old(files), exes, envs).steps)
    {
      for i := 0 to |exes|
        invariant files == InstallAll(old(files), exes[..i], envs).files
        invariant totals == TotalsOf(InstallAll(old(files), exes[..i], envs).steps)
      {
        assert exes[..i + 1][..i] == exes[..i];
        TotalsNext(old(files), exes[..i + 1], envs);
        Install(exes[i], envs(i));
      }
      assert exes[..|exes|] == exes;
    }
  }

  lemma TotalsNext(files: Files, exes: seq<Executable>, envs: nat -> Env)
    requires exes != []
    ensures var n := |exes| - 1;
            var before := InstallAll(files, exes[..n], envs);
            var step := InstallOne(before.files, exes[n], envs(n));
            InstallAll(files, exes, envs).files == step.files &&
            TotalsOf(InstallAll(files, exes, envs).steps) == Count(TotalsOf(before.steps), step)
  {
    var n := |exes| - 1;
    assert InstallAll(files, exes, envs).steps[..n] == InstallAll(files, exes[..n], envs).steps;
  }

  // ---- when a step stops the broker, and what the constants are ----

  /** The name without a final `.exe`. */
  function WithoutExe(name: string): string {
    if |name| >= 4 && name[|name| - 4..] == ".exe" then name[..|name| - 4] else name
  }

  lemma BrokerNames(name: string)
    ensures IsBroker(name) <==> WithoutExe(name) == "uffs-broker"
  {
    if |name| >= 4 && name[|name| - 4..] == ".exe" {
      assert name == WithoutExe(name) + ".exe";
      assert name[|name| - 1] == 'e';
    }
  }

  /** A step stops the broker exactly when it replaces a broker file that is there and differs from its build or cannot
      be read, and the stop succeeds. */
  lemma BrokerStoppedIff(files: Files, exe: Executable, env: Env)
    ensures InstallOne(files, exe, env).brokerStopped <==>
            exe.name.Some? && exe.build.Some? && WithoutExe(exe.name.value) == "uffs-broker" &&
            exe.name.value in files && files[exe.name.value].File? &&
            (files[exe.name.value].bytes != exe.build.value || env.readFails) && env.stopSucceeds
  {
    if exe.name.Some? {
      BrokerNames(exe.name.value);
    }
  }

  /** The outcome of every step, by what is there and what fails. */
  lemma OutcomeIff(files: Files, exe: Executable, env: Env)
    ensures var outcome := InstallOne(files, exe, env).outcome;
            if exe.name.None? then outcome == Nameless
            else if exe.build.None? then outcome == NotFound
            else
              var name := exe.name.value;
              if name in files && files[name] == File(exe.build.value) && !env.readFails then outcome == Unchanged
              else if name in files && (if files[name].Directory? then env.removeDirFails else env.removeFails) &&
                      (forall k: nat :: k < 64 ==> SidecarName(name, k) in files || env.renameFails(k)) then outcome == InUse
              else if env.copy.Copied? then outcome == Installed
              else outcome == CopyFailed
  {
    if exe.name.Some? && exe.build.Some? {
      InUseIff(files, exe, env);
      assert forall k: nat :: Blocked(files, exe.name.value, env.renameFails, k) <==>
          SidecarName(exe.name.value, k) in files || env.renameFails(k);
    }
  }

  /** The extension gives way to `old` and the number; a name without one gets it appended. */
  lemma SidecarNameIs(stem: string, ext: string, k: nat)
    requires '.' !in ext
    ensures stem != "" ==> SidecarName(stem + "." + ext, k) == stem + ".old" + Print(k)
    ensures SidecarName(ext, k) == ext + ".old" + Print(k)
    ensures SidecarName("." + ext, k) == "." + ext + ".old" + Print(k)
  {
    LastDotBefore(stem, ext);
    LastDotBefore("", ext);
    assert "" + "." + ext == "." + ext;
    NoDot(ext);
    assert (stem + "." + ext)[..|stem|] == stem;
    OldSuffix(stem, Print(k));
    OldSuffix(ext, Print(k));
    OldSuffix("." + ext, Print(k));
  }

  lemma OldSuffix(s: string, digits: string)
    ensures s + "." + ("old" + digits) == s + ".old" + digits
  {
    assert "." + "old" == ".old";
  }

  lemma {:induction false} NoDot(s: string)
    requires '.' !in s
    ensures LastDot(s) == None
  {
    if s != "" {
      NoDot(s[..|s| - 1]);
    }
  }

  lemma {:induction false} LastDotIsLast(name: string)
    ensures LastDot(name).Some? ==> name[LastDot(name).value] == '.' && '.' !in name[LastDot(name).value + 1..]
  {
    if name != "" && name[|name| - 1] != '.' {
      var front := name[..|name| - 1];
      LastDotIsLast(front);
      if LastDot(front).Some? {
        assert name[LastDot(front).value + 1..] == front[LastDot(front).value + 1..] + [name[|name| - 1]];
      }
    }
  }

  lemma SidecarShape(stem: string, digits: string)
    requires stem != "" && AllDigits(digits)
    ensures IsSidecar(stem + ".old" + digits)
  {
    OldSuffix(stem, digits);
    var ext := "old" + digits;
    forall i | 0 <= i < |ext| ensures ext[i] != '.' {
      assert i >= 3 ==> ext[i] == digits[i - 3];
    }
    LastDotBefore(stem, ext);
    assert (stem + "." + ext)[|stem| + 1..] == ext && ext[3..] == digits;
  }

  lemma OldAt(name: string, i: nat)
    requires i < |name| && name[i] == '.' && "old" <= name[i + 1..]
    ensures i + 4 <= |name| && name == name[..i] + ".old" + name[i + 4..]
  {
    var ext := name[i + 1..];
    assert ext[0] == 'o' && ext[1] == 'l' && ext[2] == 'd';
    assert name[i..i + 4] == ".old";
  }

  lemma SidecarParts(name: string)
    requires IsSidecar(name)
    ensures exists stem, digits :: stem != "" && AllDigits(digits) && name == stem + ".old" + digits
  {
    LastDotIsLast(name);
    var i := LastDot(name).value;
    OldAt(name, i);
    assert name[i + 1..][3..] == name[i + 4..];
  }

  /** What the sweep takes for a sidecar: some name, `.old`, and any number of digits. */
  lemma IsSidecarIff(name: string)
    ensures IsSidecar(name) <==>
            exists stem, digits :: stem != "" && AllDigits(digits) && name == stem + ".old" + digits
  {
    if IsSidecar(name) {
      SidecarParts(name);
    }
    if stem, digits :| stem != "" && AllDigits(digits) && name == stem + ".old" + digits {
      SidecarShape(stem, digits);
    }
  }

  /** The files after a step: unchanged unless the copy is reached; then the old file is gone, or under the first usable
      sidecar name, and the path holds the build or what a failed copy left. */
  lemma FilesAfter(files: Files, exe: Executable, env: Env)
    ensures var step := InstallOne(files, exe, env);
            if step.outcome == Installed || step.outcome == CopyFailed then
              exe.name.Some? && exe.build.Some? &&
              exists freed :: IsFreed(files, exe.name.value, env, freed) &&
                step.files == match env.copy
                              case Copied => freed[exe.name.value := File(exe.build.value)]
                              case FailedLeaving(left) => if left.Some? then freed[exe.name.value := File(left.value)] else freed
            else step.files == files
  {
    if exe.name.Some? && exe.build.Some? {
      var dest := exe.name.value;
      if Freed(files, dest, env).Some? {
        FreedIs(files, dest, env);
      }
    }
  }

  /** Attempt `k` is the first of 64 whose name is not taken and whose rename succeeds. */
  ghost predicate IsFirstUsable(files: Files, dest: string, fails: nat -> bool, k: nat) {
    k < 64 && SidecarName(dest, k) !in files && !fails(k) &&
    forall j: nat :: j < k ==> SidecarName(dest, j) in files || fails(j)
  }

  /** `freed` is `files` with the path free: it was, or could be deleted, or was renamed at the first usable attempt. */
  ghost predicate IsFreed(files: Files, dest: string, env: Env, freed: Files) {
    if dest !in files then freed == files
    else if !(if files[dest].Directory? then env.removeDirFails else env.removeFails) then freed == files - {dest}
    else
      exists k: nat :: IsFirstUsable(files, dest, env.renameFails, k) &&
                       freed == (files - {dest})[SidecarName(dest, k) := files[dest]]
  }

  lemma FreedIs(files: Files, dest: string, env: Env)
    requires Freed(files, dest, env).Some?
    ensures IsFreed(files, dest, env, Freed(files, dest, env).value)
  {
    var removed := Removed(files, dest, env);
    if dest in removed {
      assert removed == files;
      var k := FreeAttempt(files, dest, env.renameFails, 0).value;
      assert !Blocked(files, dest, env.renameFails, k);
      forall j: nat | j < k ensures SidecarName(dest, j) in files || env.renameFails(j) {
        assert Blocked(files, dest, env.renameFails, j);
      }
      assert IsFirstUsable(files, dest, env.renameFails, k);
      assert Freed(files, dest, env).value == (files - {dest})[SidecarName(dest, k) := files[dest]];
    }
  }
}
