/** The benchmark harness: what the daemon and its cache look like when each timed run starts.

    The environment is an oracle: before any run the daemon may have died, and any run may exceed its time
    limit. Commands given to the daemon take effect; every run that finds no daemon starts one from its own
    source and leaves that source's cache on disk. */
module Benchmark {
  import opened Seqs

  datatype Phase = Cold | WarmCache | Hot

  type Args = seq<string>

  // ---- sources ----

  datatype DataSources = DataSources(dataDir: Option<string>, driveFiles: map<string, string>)

  const ALL := "ALL"

  function ArgsFor(sources: DataSources, drive: string): Args {
    if drive != ALL && drive in sources.driveFiles then ["--mft-file", sources.driveFiles[drive]]
    else if drive != ALL && sources.dataDir.None? then ["--drive", drive]
    else if sources.dataDir.Some? then ["--data-dir", sources.dataDir.value]
    else []
  }

  /** Two drives get the same source only when both fall back to the data directory, or share one file. */
  lemma DrivesAreIsolated(sources: DataSources, a: string, b: string)
    requires a != ALL && b != ALL && a != b
    ensures ArgsFor(sources, a) == ArgsFor(sources, b) <==>
            (a in sources.driveFiles && b in sources.driveFiles && sources.driveFiles[a] == sources.driveFiles[b]) ||
            (a !in sources.driveFiles && b !in sources.driveFiles && sources.dataDir.Some?)
  {
    var x, y := ArgsFor(sources, a), ArgsFor(sources, b);
    assert |x| == 2 && |y| == 2;
    assert x == y <==> x[0] == y[0] && x[1] == y[1];
    assert "--mft-file"[2] == 'm' && "--drive"[3] == 'r' && "--data-dir"[3] == 'a';
    assert |"--mft-file"| == 10 && |"--drive"| == 7 && |"--data-dir"| == 10;
  }

  // ---- the machine ----

  datatype Daemon = Stopped | Ready(source: Args)

  /** What a timed run met when it started, and the source it asked for. */
  datatype Record = Record(drive: string, phase: Phase, pattern: string, daemon: Daemon, cache: set<Args>, wanted: Args)

  datatype State = State(daemon: Daemon, cache: set<Args>, log: seq<Record>)

  /** Indexed by the number of timed runs so far. */
  datatype Oracle = Oracle(dies: nat -> bool, timesOut: nat -> bool)

  datatype Config = Config(rounds: nat, patterns: seq<string>, phases: seq<Phase>, sources: DataSources)

  /** One series of runs: the drive, its phase and the pattern searched for. */
  datatype Series = Series(drive: string, phase: Phase, pattern: string, wanted: Args)

  function Stop(s: State): State { s.(daemon := Stopped) }

  function DeleteCache(s: State): State { s.(cache := {}) }

  /** Start the daemon unless one is ready; a start leaves the cache of its source. */
  function EnsureReady(s: State, source: Args): State {
    if s.daemon.Stopped? then s.(daemon := Ready(source), cache := s.cache + {source}) else s
  }

  function Prepare(phase: Phase, source: Args, s: State): State {
    match phase
    case Cold => DeleteCache(Stop(s))
    case WarmCache => Stop(s)
    case Hot => EnsureReady(s, source)
  }

  function RecordOf(r: Series, s: State): Record { Record(r.drive, r.phase, r.pattern, s.daemon, s.cache, r.wanted) }

  /** A timed run; the daemon is stopped after a run over the time limit. */
  function RunOnce(timedOut: bool, r: Series, s: State): State {
    var after := EnsureReady(s, r.wanted).(log := s.log + [RecordOf(r, s)]);
    if timedOut then Stop(after) else after
  }

  function Round(o: Oracle, r: Series, s: State): State {
    var now := if o.dies(|s.log|) then Stop(s) else s;
    RunOnce(o.timesOut(|s.log|), r, Prepare(r.phase, r.wanted, now))
  }

  function Rounds(o: Oracle, r: Series, n: nat, s: State): State {
    if n == 0 then s else Round(o, r, Rounds(o, r, n - 1, s))
  }

  function SetUp(phase: Phase, previous: Option<Phase>, source: Args, s: State): State {
    match phase
    case Cold => s
    case WarmCache => Stop(if previous == Some(Cold) then s else EnsureReady(DeleteCache(Stop(s)), source))
    case Hot => EnsureReady(s, source)
  }

  function PatternsOf(cfg: Config, phase: Phase): seq<string> {
    if phase == Hot then cfg.patterns else ["*"]
  }

  function SeriesOf(cfg: Config, drive: string, phase: Phase, pattern: string): Series {
    Series(drive, phase, pattern, ArgsFor(cfg.sources, drive))
  }

  function Patterns(o: Oracle, cfg: Config, drive: string, phase: Phase, patterns: seq<string>, s: State): State {
    if patterns == [] then s
    else
      var n := |patterns| - 1;
      Rounds(o, SeriesOf(cfg, drive, phase, patterns[n]), cfg.rounds, Patterns(o, cfg, drive, phase, patterns[..n], s))
  }

  function RunPhase(o: Oracle, cfg: Config, drive: string, phase: Phase, previous: Option<Phase>, s: State): State {
    Patterns(o, cfg, drive, phase, PatternsOf(cfg, phase), SetUp(phase, previous, ArgsFor(cfg.sources, drive), s))
  }

  function LastOf(phases: seq<Phase>): Option<Phase> {
    if phases == [] then None else Some(phases[|phases| - 1])
  }

  function RunPhases(o: Oracle, cfg: Config, drive: string, phases: seq<Phase>, s: State): State {
    if phases == [] then s
    else
      var n := |phases| - 1;
      RunPhase(o, cfg, drive, phases[n], LastOf(phases[..n]), RunPhases(o, cfg, drive, phases[..n], s))
  }

  function RunDrives(o: Oracle, cfg: Config, drives: seq<string>, s: State): State {
    if drives == [] then s
    else
      var n := |drives| - 1;
      RunPhases(o, cfg, drives[n], cfg.phases, RunDrives(o, cfg, drives[..n], s))
  }

  /** Several drives are followed by one benchmark of all together. */
  function WithAll(drives: seq<string>): seq<string> { if |drives| > 1 then drives + [ALL] else drives }

  // ---- the harness ----

  class Harness {
    var daemon: Daemon
    var cache: set<Args>
    var log: seq<Record>

    function View(): State
      reads this
    {
      State(daemon, cache, log)
    }

    constructor (s: State)
      ensures View() == s
    {
      daemon, cache, log := s.daemon, s.cache, s.log;
    }

    method BenchRounds(o: Oracle, r: Series, rounds: nat)
      modifies this
      ensures View() == Rounds(o, r, rounds, old(View()))
      ensures Map(Asked, log) == old(Map(Asked, log)) + seq(rounds, _ => r)
    {
      RoundsAsked(o, r, rounds, View());
      for round := 0 to rounds
        invariant View() == Rounds(o, r, round, old(View()))
      {
        var run := |log|;
        if o.dies(run) {
          daemon := Stopped;
        }
        match r.phase {
          case Cold =>
            daemon := Stopped;
            cache := {};
          case WarmCache =>
            daemon := Stopped;
          case Hot =>
            StartUnlessReady(r.wanted);
        }
        log := log + [RecordOf(r, View())];
        StartUnlessReady(r.wanted);
        if o.timesOut(run) {
          daemon := Stopped;
        }
      }
    }

    method StartUnlessReady(source: Args)
      modifies this
      ensures View() == EnsureReady(old(View()), source)
    {
      if daemon.Stopped? {
        daemon := Ready(source);
        cache := cache + {source};
      }
    }

    method BenchPhase(o: Oracle, cfg: Config, drive: string, phase: Phase, previous: Option<Phase>)
      modifies this
      ensures View() == RunPhase(o, cfg, drive, phase, previous, old(View()))
    {
      var source := ArgsFor(cfg.sources, drive);
      match phase {
        case Cold =>
        case WarmCache =>
          if previous != Some(Cold) {
            daemon := Stopped;
            cache := {};
            StartUnlessReady(source);
          }
          daemon := Stopped;
        case Hot =>
          StartUnlessReady(source);
      }
      ghost var ready := View();
      assert ready == SetUp(phase, previous, source, old(View()));
      var patterns := PatternsOf(cfg, phase);
      for i := 0 to |patterns|
        invariant View() == Patterns(o, cfg, drive, phase, patterns[..i], ready)
      {
        assert patterns[..i + 1][..i] == patterns[..i];
        BenchRounds(o, SeriesOf(cfg, drive, phase, patterns[i]), cfg.rounds);
      }
      assert patterns[..|patterns|] == patterns;
    }

    method BenchDrive(o: Oracle, cfg: Config, drive: string)
      modifies this
      ensures View() == RunPhases(o, cfg, drive, cfg.phases, old(View()))
    {
      var previous: Option<Phase> := None;
      for i := 0 to |cfg.phases|
        invariant previous == LastOf(cfg.phases[..i])
        invariant View() == RunPhases(o, cfg, drive, cfg.phases[..i], old(View()))
      {
        assert cfg.phases[..i + 1][..i] == cfg.phases[..i];
        BenchPhase(o, cfg, drive, cfg.phases[i], previous);
        previous := Some(cfg.phases[i]);
      }
      assert cfg.phases[..|cfg.phases|] == cfg.phases;
    }

    method BenchAll(o: Oracle, cfg: Config, drives: seq<string>)
      modifies this
      ensures View() == RunDrives(o, cfg, WithAll(drives), old(View()))
      ensures Map(Asked, log) == old(Map(Asked, log)) + Plan(cfg, if |drives| > 1 then drives + ["ALL"] else drives)
    {
      for i := 0 to |drives|
        invariant View() == RunDrives(o, cfg, drives[..i], old(View()))
      {
        assert drives[..i + 1][..i] == drives[..i];
        BenchDrive(o, cfg, drives[i]);
      }
      assert drives[..|drives|] == drives;
      if |drives| > 1 {
        assert (drives + [ALL])[..|drives|] == drives;
        BenchDrive(o, cfg, ALL);
      }
      LogIsPlan(o, cfg, drives, old(View()));
    }
  }

  // ---- every run starts as its phase says ----

  predicate StartsRight(r: Record) {
    match r.phase
    case Cold => r.daemon.Stopped? && r.cache == {}
    case WarmCache => r.daemon.Stopped? && r.wanted in r.cache
    case Hot => r.daemon.Ready?
  }

  predicate AllStartRight(log: seq<Record>) { forall i :: 0 <= i < |log| ==> StartsRight(log[i]) }

  /** Nothing else is running: the daemon is down or serves this source. */
  predicate Serves(daemon: Daemon, source: Args) { daemon.Stopped? || daemon.source == source }

  lemma RoundStartsRight(o: Oracle, r: Series, s: State)
    requires AllStartRight(s.log)
    requires r.phase == WarmCache ==> r.wanted in s.cache
    ensures AllStartRight(Round(o, r, s).log)
    ensures r.phase != Hot ==> r.wanted in Round(o, r, s).cache
    ensures s.cache <= Round(o, r, s).cache || r.phase == Cold
  {
  }

  lemma {:induction false} RoundsStartRight(o: Oracle, r: Series, n: nat, s: State)
    requires AllStartRight(s.log)
    requires r.phase == WarmCache ==> r.wanted in s.cache
    ensures AllStartRight(Rounds(o, r, n, s).log)
    ensures r.phase == WarmCache || (r.phase == Cold && n > 0) ==> r.wanted in Rounds(o, r, n, s).cache
  {
    if n > 0 {
      RoundsStartRight(o, r, n - 1, s);
      RoundStartsRight(o, r, Rounds(o, r, n - 1, s));
    }
  }

  lemma {:induction false} HotStartsRight(o: Oracle, cfg: Config, drive: string, patterns: seq<string>, s: State)
    requires AllStartRight(s.log)
    ensures AllStartRight(Patterns(o, cfg, drive, Hot, patterns, s).log)
  {
    if patterns != [] {
      var n := |patterns| - 1;
      HotStartsRight(o, cfg, drive, patterns[..n], s);
      RoundsStartRight(o, SeriesOf(cfg, drive, Hot, patterns[n]), cfg.rounds, Patterns(o, cfg, drive, Hot, patterns[..n], s));
    }
  }

  lemma OnePattern(o: Oracle, cfg: Config, drive: string, phase: Phase, s: State)
    requires phase != Hot
    ensures Patterns(o, cfg, drive, phase, PatternsOf(cfg, phase), s) ==
            Rounds(o, SeriesOf(cfg, drive, phase, "*"), cfg.rounds, s)
  {
    assert ["*"][..0] == [];
  }

  lemma PhaseStartsRight(o: Oracle, cfg: Config, drive: string, phase: Phase, previous: Option<Phase>, s: State)
    requires AllStartRight(s.log) && cfg.rounds > 0
    requires previous == Some(Cold) ==> ArgsFor(cfg.sources, drive) in s.cache
    ensures var t := RunPhase(o, cfg, drive, phase, previous, s);
            AllStartRight(t.log) && (phase == Cold ==> ArgsFor(cfg.sources, drive) in t.cache)
  {
    var source := ArgsFor(cfg.sources, drive);
    var ready := SetUp(phase, previous, source, s);
    if phase == Hot {
      HotStartsRight(o, cfg, drive, cfg.patterns, ready);
    } else {
      OnePattern(o, cfg, drive, phase, ready);
      RoundsStartRight(o, SeriesOf(cfg, drive, phase, "*"), cfg.rounds, ready);
    }
  }

  lemma {:induction false} PhasesStartRight(o: Oracle, cfg: Config, drive: string, phases: seq<Phase>, s: State)
    requires AllStartRight(s.log) && cfg.rounds > 0
    ensures var t := RunPhases(o, cfg, drive, phases, s);
            AllStartRight(t.log) && (LastOf(phases) == Some(Cold) ==> ArgsFor(cfg.sources, drive) in t.cache)
  {
    if phases != [] {
      var n := |phases| - 1;
      PhasesStartRight(o, cfg, drive, phases[..n], s);
      PhaseStartsRight(o, cfg, drive, phases[n], LastOf(phases[..n]), RunPhases(o, cfg, drive, phases[..n], s));
    }
  }

  /** Without rounds nothing is timed. */
  lemma {:induction false} NoRoundsNoRuns(o: Oracle, cfg: Config, drive: string, phase: Phase, patterns: seq<string>, s: State)
    requires cfg.rounds == 0
    ensures Patterns(o, cfg, drive, phase, patterns, s).log == s.log
  {
    if patterns != [] {
      NoRoundsNoRuns(o, cfg, drive, phase, patterns[..|patterns| - 1], s);
    }
  }

  lemma {:induction false} NoRoundsNoPhases(o: Oracle, cfg: Config, drive: string, phases: seq<Phase>, s: State)
    requires cfg.rounds == 0
    ensures RunPhases(o, cfg, drive, phases, s).log == s.log
  {
    if phases != [] {
      var n := |phases| - 1;
      NoRoundsNoPhases(o, cfg, drive, phases[..n], s);
      var t := SetUp(phases[n], LastOf(phases[..n]), ArgsFor(cfg.sources, drive), RunPhases(o, cfg, drive, phases[..n], s));
      NoRoundsNoRuns(o, cfg, drive, phases[n], PatternsOf(cfg, phases[n]), t);
    }
  }

  lemma {:induction false} NoRoundsNoDrives(o: Oracle, cfg: Config, drives: seq<string>, s: State)
    requires cfg.rounds == 0
    ensures RunDrives(o, cfg, drives, s).log == s.log
  {
    if drives != [] {
      var n := |drives| - 1;
      NoRoundsNoDrives(o, cfg, drives[..n], s);
      NoRoundsNoPhases(o, cfg, drives[n], cfg.phases, RunDrives(o, cfg, drives[..n], s));
    }
  }

  /** For all drives, phases, rounds and patterns, whatever dies or times out and whatever was running or
      cached before: COLD runs start without daemon and cache, WARM runs without daemon but with the drive's
      cache, HOT runs with a ready daemon. */
  lemma {:induction false} RunsStartRight(o: Oracle, cfg: Config, drives: seq<string>, s: State)
    requires AllStartRight(s.log)
    ensures AllStartRight(RunDrives(o, cfg, drives, s).log)
  {
    if cfg.rounds == 0 {
      NoRoundsNoDrives(o, cfg, drives, s);
    } else if drives != [] {
      var n := |drives| - 1;
      RunsStartRight(o, cfg, drives[..n], s);
      PhasesStartRight(o, cfg, drives[n], cfg.phases, RunDrives(o, cfg, drives[..n], s));
    }
  }

  // ---- the source a HOT run is served from ----

  predicate ServedRight(r: Record) { r.phase == Hot ==> r.daemon == Ready(r.wanted) }

  predicate AllServedRight(log: seq<Record>) { forall i :: 0 <= i < |log| ==> ServedRight(log[i]) }

  ghost predicate IsQuiet(o: Oracle) { forall k: nat :: !o.dies(k) && !o.timesOut(k) }

  /** The daemon after runs for `source`: up and serving it if nothing went wrong, else possibly down. */
  predicate Settled(quiet: bool, daemon: Daemon, source: Args) {
    if quiet then daemon == Ready(source) else Serves(daemon, source)
  }

  lemma RoundSettles(quiet: bool, o: Oracle, r: Series, s: State)
    requires AllServedRight(s.log) && (quiet ==> IsQuiet(o))
    requires r.phase == Hot ==> Serves(s.daemon, r.wanted)
    ensures AllServedRight(Round(o, r, s).log) && Settled(quiet, Round(o, r, s).daemon, r.wanted)
  {
  }

  lemma {:induction false} RoundsSettle(quiet: bool, o: Oracle, r: Series, n: nat, s: State)
    requires AllServedRight(s.log) && (quiet ==> IsQuiet(o))
    requires r.phase == Hot ==> Settled(quiet, s.daemon, r.wanted)
    ensures AllServedRight(Rounds(o, r, n, s).log)
    ensures r.phase == Hot || n > 0 ==> Settled(quiet, Rounds(o, r, n, s).daemon, r.wanted)
  {
    if n > 0 {
      RoundsSettle(quiet, o, r, n - 1, s);
      RoundSettles(quiet, o, r, Rounds(o, r, n - 1, s));
    }
  }

  lemma {:induction false} HotSettles(quiet: bool, o: Oracle, cfg: Config, drive: string, patterns: seq<string>, s: State)
    requires AllServedRight(s.log) && (quiet ==> IsQuiet(o))
    requires Settled(quiet, s.daemon, ArgsFor(cfg.sources, drive))
    ensures var t := Patterns(o, cfg, drive, Hot, patterns, s);
            AllServedRight(t.log) && Settled(quiet, t.daemon, ArgsFor(cfg.sources, drive))
  {
    if patterns != [] {
      var n := |patterns| - 1;
      HotSettles(quiet, o, cfg, drive, patterns[..n], s);
      RoundsSettle(quiet, o, SeriesOf(cfg, drive, Hot, patterns[n]), cfg.rounds, Patterns(o, cfg, drive, Hot, patterns[..n], s));
    }
  }

  lemma PhaseSettles(quiet: bool, o: Oracle, cfg: Config, drive: string, phase: Phase, previous: Option<Phase>, s: State)
    requires AllServedRight(s.log) && (quiet ==> IsQuiet(o)) && cfg.rounds > 0
    requires phase == Hot ==> Serves(s.daemon, ArgsFor(cfg.sources, drive))
    ensures var t := RunPhase(o, cfg, drive, phase, previous, s);
            AllServedRight(t.log) && Settled(quiet, t.daemon, ArgsFor(cfg.sources, drive))
  {
    var ready := SetUp(phase, previous, ArgsFor(cfg.sources, drive), s);
    if phase == Hot {
      HotSettles(quiet, o, cfg, drive, cfg.patterns, ready);
    } else {
      OnePattern(o, cfg, drive, phase, ready);
      RoundsSettle(quiet, o, SeriesOf(cfg, drive, phase, "*"), cfg.rounds, ready);
    }
  }

  lemma {:induction false} PhasesSettle(quiet: bool, o: Oracle, cfg: Config, drive: string, phases: seq<Phase>, s: State)
    requires AllServedRight(s.log) && (quiet ==> IsQuiet(o)) && cfg.rounds > 0 && phases != []
    requires phases[0] == Hot ==> Serves(s.daemon, ArgsFor(cfg.sources, drive))
    ensures var t := RunPhases(o, cfg, drive, phases, s);
            AllServedRight(t.log) && Settled(quiet, t.daemon, ArgsFor(cfg.sources, drive))
  {
    var n := |phases| - 1;
    if n == 0 {
      assert phases[..0] == [];
      PhaseSettles(quiet, o, cfg, drive, phases[0], None, s);
    } else {
      PhasesSettle(quiet, o, cfg, drive, phases[..n], s);
      PhaseSettles(quiet, o, cfg, drive, phases[n], LastOf(phases[..n]), RunPhases(o, cfg, drive, phases[..n], s));
    }
  }

  /** Drives one after the other, none of them beginning with HOT. */
  lemma {:induction false} ColdStartsIsolate(o: Oracle, cfg: Config, drives: seq<string>, s: State)
    requires AllServedRight(s.log) && cfg.rounds > 0 && cfg.phases != [] && cfg.phases[0] != Hot
    ensures AllServedRight(RunDrives(o, cfg, drives, s).log)
  {
    if drives != [] {
      var n := |drives| - 1;
      ColdStartsIsolate(o, cfg, drives[..n], s);
      PhasesSettle(false, o, cfg, drives[n], cfg.phases, RunDrives(o, cfg, drives[..n], s));
    }
  }

  predicate SameSource(cfg: Config, drives: seq<string>, source: Args) {
    forall i :: 0 <= i < |drives| ==> ArgsFor(cfg.sources, drives[i]) == source
  }

  /** Drives that all have one source. */
  lemma {:induction false} SharedSourceServes(quiet: bool, o: Oracle, cfg: Config, drives: seq<string>, source: Args, s: State)
    requires AllServedRight(s.log) && (quiet ==> IsQuiet(o)) && cfg.rounds > 0 && cfg.phases != []
    requires SameSource(cfg, drives, source) && Serves(s.daemon, source)
    ensures var t := RunDrives(o, cfg, drives, s);
            AllServedRight(t.log) && Serves(t.daemon, source) && (drives != [] ==> Settled(quiet, t.daemon, source))
  {
    if drives != [] {
      var n := |drives| - 1;
      SharedSourceServes(quiet, o, cfg, drives[..n], source, s);
      PhasesSettle(quiet, o, cfg, drives[n], cfg.phases, RunDrives(o, cfg, drives[..n], s));
    }
  }

  // ---- a run that was served wrongly stays in the log ----

  lemma {:induction false} RoundsGrow(o: Oracle, r: Series, k: nat, n: nat, s: State)
    requires k <= n
    ensures Rounds(o, r, k, s).log <= Rounds(o, r, n, s).log
  {
    if k < n {
      RoundsGrow(o, r, k, n - 1, s);
    }
  }

  lemma {:induction false} PatternsGrow(o: Oracle, cfg: Config, drive: string, phase: Phase, patterns: seq<string>, k: nat, s: State)
    requires k <= |patterns|
    ensures Patterns(o, cfg, drive, phase, patterns[..k], s).log <= Patterns(o, cfg, drive, phase, patterns, s).log
  {
    if k == |patterns| {
      assert patterns[..k] == patterns;
    } else {
      var n := |patterns| - 1;
      assert patterns[..n][..k] == patterns[..k];
      PatternsGrow(o, cfg, drive, phase, patterns[..n], k, s);
      RoundsGrow(o, SeriesOf(cfg, drive, phase, patterns[n]), 0, cfg.rounds, Patterns(o, cfg, drive, phase, patterns[..n], s));
    }
  }

  lemma {:induction false} PhasesGrow(o: Oracle, cfg: Config, drive: string, phases: seq<Phase>, k: nat, s: State)
    requires k <= |phases|
    ensures RunPhases(o, cfg, drive, phases[..k], s).log <= RunPhases(o, cfg, drive, phases, s).log
  {
    if k == |phases| {
      assert phases[..k] == phases;
    } else {
      var n := |phases| - 1;
      assert phases[..n][..k] == phases[..k];
      PhasesGrow(o, cfg, drive, phases[..n], k, s);
      var before := RunPhases(o, cfg, drive, phases[..n], s);
      var ready := SetUp(phases[n], LastOf(phases[..n]), ArgsFor(cfg.sources, drive), before);
      var patterns := PatternsOf(cfg, phases[n]);
      assert patterns[..0] == [];
      PatternsGrow(o, cfg, drive, phases[n], patterns, 0, ready);
    }
  }

  lemma {:induction false} DrivesGrow(o: Oracle, cfg: Config, drives: seq<string>, k: nat, s: State)
    requires k <= |drives|
    ensures RunDrives(o, cfg, drives[..k], s).log <= RunDrives(o, cfg, drives, s).log
  {
    if k == |drives| {
      assert drives[..k] == drives;
    } else {
      var n := |drives| - 1;
      assert drives[..n][..k] == drives[..k];
      DrivesGrow(o, cfg, drives[..n], k, s);
      assert cfg.phases[..0] == [];
      PhasesGrow(o, cfg, drives[n], cfg.phases, 0, RunDrives(o, cfg, drives[..n], s));
    }
  }

  lemma PrefixServedRight(a: seq<Record>, b: seq<Record>)
    requires a <= b && AllServedRight(b)
    ensures AllServedRight(a)
  {
    forall i | 0 <= i < |a| ensures ServedRight(a[i]) {
      assert a[i] == b[i];
    }
  }

  /** A drive that begins with HOT while a daemon serves another source is measured against that daemon. */
  lemma HotFirstMeetsOther(o: Oracle, cfg: Config, drive: string, s: State)
    requires IsQuiet(o) && cfg.rounds > 0 && cfg.patterns != [] && cfg.phases != [] && cfg.phases[0] == Hot
    requires !Serves(s.daemon, ArgsFor(cfg.sources, drive))
    ensures !AllServedRight(RunPhases(o, cfg, drive, cfg.phases, s).log)
  {
    var r := SeriesOf(cfg, drive, Hot, cfg.patterns[0]);
    var one := Rounds(o, r, 1, s);
    assert Rounds(o, r, 0, s) == s;
    assert one.log == s.log + [RecordOf(r, s)];
    assert !ServedRight(one.log[|s.log|]);
    RoundsGrow(o, r, 1, cfg.rounds, s);
    assert cfg.patterns[..1][..0] == [];
    assert Patterns(o, cfg, drive, Hot, cfg.patterns[..1], s) == Rounds(o, r, cfg.rounds, s);
    PatternsGrow(o, cfg, drive, Hot, cfg.patterns, 1, s);
    assert cfg.phases[..1][..0] == [];
    assert RunPhases(o, cfg, drive, cfg.phases[..1], s) == Patterns(o, cfg, drive, Hot, cfg.patterns, s);
    PhasesGrow(o, cfg, drive, cfg.phases, 1, s);
    var log := RunPhases(o, cfg, drive, cfg.phases, s).log;
    assert one.log <= log;
    if AllServedRight(log) {
      PrefixServedRight(one.log, log);
    }
  }

  // ---- exactly when HOT runs are served from their own source ----

  /** As the command line produces it: defaults fill an empty phase or pattern list. */
  predicate IsConfig(cfg: Config) { cfg.phases != [] && cfg.patterns != [] }

  ghost predicate AlwaysServedRight(cfg: Config, drives: seq<string>, s: State) {
    forall o: Oracle :: AllServedRight(RunDrives(o, cfg, drives, s).log)
  }

  /** A drive measured wrongly stays in the log of all drives. */
  lemma WrongDriveStays(o: Oracle, cfg: Config, drives: seq<string>, s: State, k: nat)
    requires k < |drives| && !AllServedRight(RunPhases(o, cfg, drives[k], cfg.phases, RunDrives(o, cfg, drives[..k], s)).log)
    ensures !AllServedRight(RunDrives(o, cfg, drives, s).log)
  {
    assert drives[..k + 1][..k] == drives[..k];
    DrivesGrow(o, cfg, drives, k + 1, s);
    if AllServedRight(RunDrives(o, cfg, drives, s).log) {
      PrefixServedRight(RunDrives(o, cfg, drives[..k + 1], s).log, RunDrives(o, cfg, drives, s).log);
    }
  }

  /** The first drive whose source differs from the first one's is measured wrongly. */
  lemma DifferingDriveIsWrong(cfg: Config, drives: seq<string>, s: State, k: nat)
    requires IsConfig(cfg) && cfg.rounds > 0 && cfg.phases[0] == Hot && s.daemon.Stopped? && s.log == []
    requires 0 < k < |drives|
    requires SameSource(cfg, drives[..k], ArgsFor(cfg.sources, drives[0]))
    requires ArgsFor(cfg.sources, drives[k]) != ArgsFor(cfg.sources, drives[0])
    ensures !AlwaysServedRight(cfg, drives, s)
  {
    var o := Oracle(_ => false, _ => false);
    SharedSourceServes(true, o, cfg, drives[..k], ArgsFor(cfg.sources, drives[0]), s);
    HotFirstMeetsOther(o, cfg, drives[k], RunDrives(o, cfg, drives[..k], s));
    WrongDriveStays(o, cfg, drives, s, k);
  }

  predicate DiffersFirstAt(cfg: Config, drives: seq<string>, source: Args, k: nat) {
    k < |drives| && SameSource(cfg, drives[..k], source) && ArgsFor(cfg.sources, drives[k]) != source
  }

  lemma {:induction false} FirstDifference(cfg: Config, drives: seq<string>, source: Args)
    requires !SameSource(cfg, drives, source)
    ensures exists k: nat :: DiffersFirstAt(cfg, drives, source, k)
  {
    var n := |drives| - 1;
    if SameSource(cfg, drives[..n], source) {
      assert DiffersFirstAt(cfg, drives, source, n);
    } else {
      FirstDifference(cfg, drives[..n], source);
      var k: nat :| DiffersFirstAt(cfg, drives[..n], source, k);
      assert drives[..n][..k] == drives[..k];
      assert DiffersFirstAt(cfg, drives, source, k);
    }
  }

  /** Started with no daemon: every HOT run of every run of the harness is served from its own drive's
      source exactly when nothing is timed, the phases do not begin with HOT, or all drives share a source. */
  lemma ServedRightIff(cfg: Config, drives: seq<string>, s: State)
    requires IsConfig(cfg) && s.daemon.Stopped? && s.log == []
    ensures AlwaysServedRight(cfg, drives, s) <==>
            cfg.rounds == 0 || cfg.phases[0] != Hot || drives == [] ||
            SameSource(cfg, drives, ArgsFor(cfg.sources, drives[0]))
  {
    forall o: Oracle ensures
      (cfg.rounds == 0 || cfg.phases[0] != Hot || drives == [] || SameSource(cfg, drives, ArgsFor(cfg.sources, drives[0])))
      ==> AllServedRight(RunDrives(o, cfg, drives, s).log)
    {
      if cfg.rounds == 0 {
        NoRoundsNoDrives(o, cfg, drives, s);
      } else if cfg.phases[0] != Hot {
        ColdStartsIsolate(o, cfg, drives, s);
      } else if drives != [] && SameSource(cfg, drives, ArgsFor(cfg.sources, drives[0])) {
        SharedSourceServes(false, o, cfg, drives, ArgsFor(cfg.sources, drives[0]), s);
      }
    }
    if cfg.rounds > 0 && cfg.phases[0] == Hot && drives != [] && !SameSource(cfg, drives, ArgsFor(cfg.sources, drives[0])) {
      FirstDifference(cfg, drives, ArgsFor(cfg.sources, drives[0]));
      var k: nat :| DiffersFirstAt(cfg, drives, ArgsFor(cfg.sources, drives[0]), k);
      DifferingDriveIsWrong(cfg, drives, s, k);
    }
  }

  /** Whatever was running before: exactly when nothing is timed or the phases do not begin with HOT. */
  lemma ServedRightFromAnyStartIff(cfg: Config, drives: seq<string>)
    requires IsConfig(cfg)
    ensures (forall s: State :: s.log == [] ==> AlwaysServedRight(cfg, drives, s)) <==>
            cfg.rounds == 0 || cfg.phases[0] != Hot || drives == []
  {
    if cfg.rounds == 0 || cfg.phases[0] != Hot || drives == [] {
      forall s: State, o: Oracle | s.log == [] ensures AllServedRight(RunDrives(o, cfg, drives, s).log) {
        if cfg.rounds == 0 {
          NoRoundsNoDrives(o, cfg, drives, s);
        } else if cfg.phases[0] != Hot {
          ColdStartsIsolate(o, cfg, drives, s);
        }
      }
    } else {
      var source := ArgsFor(cfg.sources, drives[0]);
      var s := State(Ready(source + ["other"]), {}, []);
      var o := Oracle(_ => false, _ => false);
      HotFirstMeetsOther(o, cfg, drives[0], s);
      assert drives[..1][..0] == [];
      assert RunDrives(o, cfg, drives[..1], s) == RunPhases(o, cfg, drives[0], cfg.phases, s);
      DrivesGrow(o, cfg, drives, 1, s);
      if AllServedRight(RunDrives(o, cfg, drives, s).log) {
        PrefixServedRight(RunDrives(o, cfg, drives[..1], s).log, RunDrives(o, cfg, drives, s).log);
      }
      assert !AlwaysServedRight(cfg, drives, s);
    }
  }

  // ---- which runs are timed ----

  /** What a recorded run was for. */
  function Asked(r: Record): Series { Series(r.drive, r.phase, r.pattern, r.wanted) }

  function PhasePlan(cfg: Config, drive: string, phase: Phase, patterns: seq<string>): seq<Series> {
    FlatMap(pattern => seq(cfg.rounds, _ => Series(drive, phase, pattern, ArgsFor(cfg.sources, drive))), patterns)
  }

  /** For each drive each phase, for each phase each pattern, for each pattern so many rounds: `*` alone where start-up
      is measured, all patterns on a running daemon. */
  function Plan(cfg: Config, drives: seq<string>): seq<Series> {
    FlatMap(drive => DrivePlan(cfg, drive, cfg.phases), drives)
  }

  function DrivePlan(cfg: Config, drive: string, phases: seq<Phase>): seq<Series> {
    FlatMap(phase => PhasePlan(cfg, drive, phase, if phase == Hot then cfg.patterns else ["*"]), phases)
  }

  lemma {:induction false} RoundsAsked(o: Oracle, r: Series, n: nat, s: State)
    ensures Map(Asked, Rounds(o, r, n, s).log) == Map(Asked, s.log) + seq(n, _ => r)
  {
    if n > 0 {
      RoundsAsked(o, r, n - 1, s);
      var before := Rounds(o, r, n - 1, s);
      RoundAsks(o, r, before);
      assert seq(n, _ => r) == seq(n - 1, _ => r) + [r];
    }
  }

  lemma RoundAsks(o: Oracle, r: Series, s: State)
    ensures Map(Asked, Round(o, r, s).log) == Map(Asked, s.log) + [r]
  {
  }

  lemma {:induction false} PatternsAsked(o: Oracle, cfg: Config, drive: string, phase: Phase, patterns: seq<string>, s: State)
    ensures Map(Asked, Patterns(o, cfg, drive, phase, patterns, s).log) ==
            Map(Asked, s.log) + PhasePlan(cfg, drive, phase, patterns)
  {
    if patterns != [] {
      var n := |patterns| - 1;
      PatternsAsked(o, cfg, drive, phase, patterns[..n], s);
      var r := SeriesOf(cfg, drive, phase, patterns[n]);
      RoundsAsked(o, r, cfg.rounds, Patterns(o, cfg, drive, phase, patterns[..n], s));
      assert PhasePlan(cfg, drive, phase, patterns) == PhasePlan(cfg, drive, phase, patterns[..n]) + seq(cfg.rounds, _ => r);
    }
  }

  lemma {:induction false} PhasesAsked(o: Oracle, cfg: Config, drive: string, phases: seq<Phase>, s: State)
    ensures Map(Asked, RunPhases(o, cfg, drive, phases, s).log) == Map(Asked, s.log) + DrivePlan(cfg, drive, phases)
  {
    if phases != [] {
      var n := |phases| - 1;
      PhasesAsked(o, cfg, drive, phases[..n], s);
      var t := SetUp(phases[n], LastOf(phases[..n]), ArgsFor(cfg.sources, drive), RunPhases(o, cfg, drive, phases[..n], s));
      PatternsAsked(o, cfg, drive, phases[n], PatternsOf(cfg, phases[n]), t);
    }
  }

  lemma {:induction false} DrivesAsked(o: Oracle, cfg: Config, drives: seq<string>, s: State)
    ensures Map(Asked, RunDrives(o, cfg, drives, s).log) == Map(Asked, s.log) + Plan(cfg, drives)
  {
    if drives != [] {
      var n := |drives| - 1;
      DrivesAsked(o, cfg, drives[..n], s);
      PhasesAsked(o, cfg, drives[n], cfg.phases, RunDrives(o, cfg, drives[..n], s));
    }
  }

  /** Whatever dies or times out, the timed runs are the planned ones, in order and none else: those of every drive and,
      of several drives, of all together at the end. */
  lemma LogIsPlan(o: Oracle, cfg: Config, drives: seq<string>, s: State)
    ensures Map(Asked, RunDrives(o, cfg, WithAll(drives), s).log) ==
            Map(Asked, s.log) + Plan(cfg, if |drives| > 1 then drives + ["ALL"] else drives)
  {
    DrivesAsked(o, cfg, WithAll(drives), s);
  }

  // ---- how many runs are timed ----

  lemma {:induction false} FlatMapLength<A(!new), B>(f: A -> seq<B>, s: seq<A>, n: nat)
    requires forall x :: |f(x)| == n
    ensures |FlatMap(f, s)| == |s| * n
  {
    if s != [] {
      FlatMapLength(f, s[..|s| - 1], n);
      OneMore(|s| - 1, n);
    }
  }

  lemma OneMore(k: nat, n: nat)
    ensures (k + 1) * n == k * n + n
  {
  }

  lemma PhasePlanLength(cfg: Config, drive: string, phase: Phase, patterns: seq<string>)
    ensures |PhasePlan(cfg, drive, phase, patterns)| == |patterns| * cfg.rounds
  {
    FlatMapLength(pattern => seq(cfg.rounds, _ => Series(drive, phase, pattern, ArgsFor(cfg.sources, drive))), patterns, cfg.rounds);
  }

  predicate IsHot(phase: Phase) { phase == Hot }
  predicate IsNotHot(phase: Phase) { phase != Hot }

  /** Runs for one drive: per round one in each phase that measures start-up and one for each pattern in a HOT one. */
  function RunsPerDrive(cfg: Config, phases: seq<Phase>): nat {
    (|Filter(IsHot, phases)| * |cfg.patterns| + |Filter(IsNotHot, phases)|) * cfg.rounds
  }

  lemma AddRuns(a: nat, b: nat, patterns: nat, rounds: nat)
    ensures ((a + 1) * patterns + b) * rounds == (a * patterns + b) * rounds + patterns * rounds
    ensures (a * patterns + (b + 1)) * rounds == (a * patterns + b) * rounds + rounds
  {
    OneMore(a, patterns);
    var x := a * patterns + b;
    assert (x + patterns) * rounds == x * rounds + patterns * rounds;
    OneMore(x, rounds);
  }

  lemma RunsSnoc(cfg: Config, phases: seq<Phase>, phase: Phase)
    ensures RunsPerDrive(cfg, phases + [phase]) ==
            RunsPerDrive(cfg, phases) + if phase == Hot then |cfg.patterns| * cfg.rounds else cfg.rounds
  {
    FilterSnoc(IsHot, phases, phase);
    FilterSnoc(IsNotHot, phases, phase);
    AddRuns(|Filter(IsHot, phases)|, |Filter(IsNotHot, phases)|, |cfg.patterns|, cfg.rounds);
  }

  lemma PlanSnoc(cfg: Config, drive: string, phases: seq<Phase>, phase: Phase)
    ensures |DrivePlan(cfg, drive, phases + [phase])| ==
            |DrivePlan(cfg, drive, phases)| + if phase == Hot then |cfg.patterns| * cfg.rounds else cfg.rounds
  {
    FlatMapSnoc(p => PhasePlan(cfg, drive, p, if p == Hot then cfg.patterns else ["*"]), phases, phase);
    PhasePlanLength(cfg, drive, phase, if phase == Hot then cfg.patterns else ["*"]);
  }

  lemma {:induction false} DrivePlanLength(cfg: Config, drive: string, phases: seq<Phase>)
    ensures |DrivePlan(cfg, drive, phases)| == RunsPerDrive(cfg, phases)
  {
    if phases != [] {
      var n := |phases| - 1;
      DrivePlanLength(cfg, drive, phases[..n]);
      assert phases == phases[..n] + [phases[n]];
      RunsSnoc(cfg, phases[..n], phases[n]);
      PlanSnoc(cfg, drive, phases[..n], phases[n]);
    }
  }

  /** The number of timed runs. */
  lemma PlanLength(cfg: Config, drives: seq<string>)
    ensures |Plan(cfg, drives)| == |drives| * RunsPerDrive(cfg, cfg.phases)
  {
    forall drive ensures |DrivePlan(cfg, drive, cfg.phases)| == RunsPerDrive(cfg, cfg.phases) {
      DrivePlanLength(cfg, drive, cfg.phases);
    }
    FlatMapLength(drive => DrivePlan(cfg, drive, cfg.phases), drives, RunsPerDrive(cfg, cfg.phases));
  }

  // ---- what a run and a set-up leave behind ----

  /** Daemon and cache after a round: a daemon that was found running stays, any other is the round's own, and a run
      over its time limit leaves none. */
  lemma RoundLeaves(o: Oracle, r: Series, s: State)
    ensures var t, k := Round(o, r, s), |s.log|;
            var found := r.phase == Hot && s.daemon.Ready? && !o.dies(k);
            t.daemon == (if o.timesOut(k) then Stopped else if found then s.daemon else Ready(r.wanted)) &&
            t.cache == (if found then s.cache else if r.phase == Cold then {r.wanted} else s.cache + {r.wanted})
  {
  }

  /** A WARM phase that does not follow a COLD one starts from the cache of its own source alone. */
  lemma SetUpLeaves(phase: Phase, previous: Option<Phase>, source: Args, s: State)
    ensures var t := SetUp(phase, previous, source, s);
            t.log == s.log && (phase == Cold ==> t == s) &&
            (phase == WarmCache ==> t.daemon == Stopped && t.cache == if previous == Some(Cold) then s.cache else {source}) &&
            (phase == Hot ==> t.daemon == (if s.daemon.Ready? then s.daemon else Ready(source)) &&
                              t.cache == if s.daemon.Ready? then s.cache else s.cache + {source})
  {
  }

  /** A drive is served from its own file, else from itself where there is no data directory, else from the directory;
      all drives from the directory, else without a source. */
  lemma SourceOf(sources: DataSources, drive: string)
    ensures drive == "ALL" ==>
            ArgsFor(sources, drive) == if sources.dataDir.Some? then ["--data-dir", sources.dataDir.value] else []
    ensures drive != "ALL" && drive in sources.driveFiles ==>
            ArgsFor(sources, drive) == ["--mft-file", sources.driveFiles[drive]]
    ensures drive != "ALL" && drive !in sources.driveFiles ==>
            ArgsFor(sources, drive) ==
            if sources.dataDir.Some? then ["--data-dir", sources.dataDir.value] else ["--drive", drive]
  {
  }
}
