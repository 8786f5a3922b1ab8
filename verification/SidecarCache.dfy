/** The sidecar cache under interference: any number of runs of the checker share one baseline and one
    sidecar while the baseline is rewritten underneath them.

    An identity stands for one content: whenever the file has identity `id`, its content is `owner(id)`.
    A run of the system is any sequence of events; a step a process is not ready for does nothing. */
module SidecarCache {
  import opened Seqs
  import opened Lines
  import opened StreamingDiff
  import opened Verdict
  import opened SidecarText

  type Content = seq<Line>
  type Stats = st: FileStats | Storable(st) witness FileStats("", EMPTY)

  datatype World = World(owner: Identity -> Content, stats: Content -> Stats) {
    /** The statistics of the content an identity stands for. */
    function Truth(id: Identity): Stats { stats(owner(id)) }
  }

  /** Where a process is in `compute_streaming_stats_cached`. */
  datatype Process = Idle | Statted(id: Identity) | Missed(id: Identity) | Computed(id: Identity, stats: Stats)

  datatype State = State(file: Identity, sidecar: Option<string>, processes: map<nat, Process>)

  datatype Event =
    | Rewrite(to: Identity)
    | Stat(p: nat)
    | LoadSidecar(p: nat)
    | Compute(p: nat)
    | Store(p: nat)
    | StoreFails(p: nat)

  function At(s: State, p: nat): Process { if p in s.processes then s.processes[p] else Idle }

  function Goto(s: State, p: nat, to: Process): State { s.(processes := s.processes[p := to]) }

  /** What a load for `id` finds. */
  function Found(sidecar: Option<string>, id: Identity): Option<FileStats> {
    if sidecar.None? then None else Load(sidecar.value, id)
  }

  function Next(w: World, s: State, e: Event): State {
    match e
    case Rewrite(to) => s.(file := to)
    case Stat(p) => if At(s, p).Idle? then Goto(s, p, Statted(s.file)) else s
    case LoadSidecar(p) =>
      if !At(s, p).Statted? then s
      else if Found(s.sidecar, At(s, p).id).Some? then Goto(s, p, Idle)
      else Goto(s, p, Missed(At(s, p).id))
    case Compute(p) => if At(s, p).Missed? then Goto(s, p, Computed(At(s, p).id, w.Truth(s.file))) else s
    case Store(p) =>
      if At(s, p).Computed? then
        Goto(s, p, Idle).(sidecar := Some(SidecarOf(At(s, p).id, At(s, p).stats)))
      else s
    case StoreFails(p) => if At(s, p).Computed? then Goto(s, p, Idle) else s
  }

  /** An event changes the place of its own process only. */
  lemma OthersStay(w: World, s: State, e: Event, q: nat)
    requires e.Rewrite? || q != e.p
    ensures At(Next(w, s, e), q) == At(s, q)
  {
  }

  /** The event is a cache hit. */
  predicate IsHit(s: State, e: Event) {
    e.LoadSidecar? && At(s, e.p).Statted? && Found(s.sidecar, At(s, e.p).id).Some?
  }

  /** A hit answers with the statistics of the content its process saw when it took the identity. */
  predicate AnswersTruth(w: World, s: State, e: Event) {
    IsHit(s, e) ==> Found(s.sidecar, At(s, e.p).id).value == w.Truth(At(s, e.p).id)
  }

  predicate HitsAreTrue(w: World, s: State, events: seq<Event>)
    decreases |events|
  {
    events == [] || (AnswersTruth(w, s, events[0]) && HitsAreTrue(w, Next(w, s, events[0]), events[1..]))
  }

  // ---- runs in which computing reads the content whose identity was taken ----

  predicate SteadyStep(s: State, e: Event) {
    e.Compute? && At(s, e.p).Missed? ==> At(s, e.p).id == s.file
  }

  predicate Steady(w: World, s: State, events: seq<Event>)
    decreases |events|
  {
    events == [] || (SteadyStep(s, events[0]) && Steady(w, Next(w, s, events[0]), events[1..]))
  }

  ghost predicate HonestSidecar(w: World, sidecar: Option<string>) {
    forall id :: Found(sidecar, id).Some? ==> Found(sidecar, id).value == w.Truth(id)
  }

  ghost predicate HonestProcesses(w: World, s: State) {
    forall p: nat :: At(s, p).Computed? ==> At(s, p).stats == w.Truth(At(s, p).id)
  }

  ghost predicate Honest(w: World, s: State) { HonestSidecar(w, s.sidecar) && HonestProcesses(w, s) }

  lemma HonestStep(w: World, s: State, e: Event)
    requires Honest(w, s) && SteadyStep(s, e)
    ensures Honest(w, Next(w, s, e)) && AnswersTruth(w, s, e)
  {
    if e.Store? && At(s, e.p).Computed? {
      StoredIsHonest(w, At(s, e.p).id, At(s, e.p).stats);
    }
    var s' := Next(w, s, e);
    forall q: nat | At(s', q).Computed? ensures At(s', q).stats == w.Truth(At(s', q).id) {
      if e.Rewrite? || q != e.p {
        OthersStay(w, s, e, q);
      }
    }
  }

  lemma StoredIsHonest(w: World, id: Identity, st: Stats)
    ensures HonestSidecar(w, Some(SidecarOf(id, st))) <==> st == w.Truth(id)
  {
    forall other {
      StoredIsLoaded(id, st, other);
    }
    assert Found(Some(SidecarOf(id, st)), id).Some?;
  }

  lemma {:induction false} SteadyHitsAreTrue(w: World, s: State, events: seq<Event>)
    requires Honest(w, s) && Steady(w, s, events)
    ensures HitsAreTrue(w, s, events)
    decreases |events|
  {
    if events != [] {
      HonestStep(w, s, events[0]);
      SteadyHitsAreTrue(w, Next(w, s, events[0]), events[1..]);
    }
  }

  // ---- exactly when the cache can be trusted ----

  /** No steady continuation, whatever it rewrites and however it interleaves, gets a wrong hit. */
  ghost predicate Trustworthy(w: World, s: State) {
    forall events :: Steady(w, s, events) ==> HitsAreTrue(w, s, events)
  }

  predicate AllBelow(used: set<nat>, q: nat) { forall p :: p in used ==> p < q }

  lemma {:induction false} UnusedProcess(used: set<nat>)
    ensures exists q: nat :: AllBelow(used, q)
  {
    if used == {} {
      assert AllBelow(used, 0);
    } else {
      var p :| p in used;
      UnusedProcess(used - {p});
      var r: nat :| AllBelow(used - {p}, r);
      var q := if r > p then r else p + 1;
      forall x | x in used ensures x < q {
        if x != p {
          assert x in used - {p};
        }
      }
      assert AllBelow(used, q);
    }
  }

  /** Bring the content of `id` back and ask for it. */
  function Probe(id: Identity, q: nat): seq<Event> { [Rewrite(id), Stat(q), LoadSidecar(q)] }

  lemma ProbeTells(w: World, s: State, id: Identity, q: nat)
    requires At(s, q).Idle?
    ensures Steady(w, s, Probe(id, q))
    ensures HitsAreTrue(w, s, Probe(id, q)) <==> (Found(s.sidecar, id).Some? ==> Found(s.sidecar, id).value == w.Truth(id))
  {
    var s1 := s.(file := id);
    var s2 := Goto(s1, q, Statted(id));
    assert Probe(id, q)[1..] == [Stat(q), LoadSidecar(q)] && Probe(id, q)[1..][1..] == [LoadSidecar(q)];
    assert Next(w, s, Rewrite(id)) == s1 && Next(w, s1, Stat(q)) == s2;
    assert Steady(w, s2, [LoadSidecar(q)]);
    assert HitsAreTrue(w, s2, [LoadSidecar(q)]) == AnswersTruth(w, s2, LoadSidecar(q));
  }

  lemma TrustNeedsHonestSidecar(w: World, s: State)
    requires Trustworthy(w, s)
    ensures HonestSidecar(w, s.sidecar)
  {
    UnusedProcess(s.processes.Keys);
    var q: nat :| AllBelow(s.processes.Keys, q);
    forall id ensures Found(s.sidecar, id).Some? ==> Found(s.sidecar, id).value == w.Truth(id) {
      ProbeTells(w, s, id, q);
    }
  }

  /** Trust survives every steady step. */
  lemma TrustStep(w: World, s: State, e: Event)
    requires Trustworthy(w, s) && SteadyStep(s, e)
    ensures Trustworthy(w, Next(w, s, e))
  {
    var s' := Next(w, s, e);
    forall events | Steady(w, s', events) ensures HitsAreTrue(w, s', events) {
      assert ([e] + events)[1..] == events;
      assert Steady(w, s, [e] + events);
    }
  }

  lemma TrustIffHonest(w: World, s: State)
    ensures Trustworthy(w, s) <==> Honest(w, s)
  {
    if Trustworthy(w, s) {
      TrustNeedsHonestSidecar(w, s);
      forall p: nat | At(s, p).Computed? ensures At(s, p).stats == w.Truth(At(s, p).id) {
        TrustStep(w, s, Store(p));
        TrustNeedsHonestSidecar(w, Next(w, s, Store(p)));
        StoredIsHonest(w, At(s, p).id, At(s, p).stats);
      }
    }
    if Honest(w, s) {
      forall events | Steady(w, s, events) ensures HitsAreTrue(w, s, events) {
        SteadyHitsAreTrue(w, s, events);
      }
    }
  }

  /** The one step that can spoil the cache, and exactly when it does: computing after the baseline has
      changed to a content with other statistics. */
  lemma ComputeKeepsTrustIff(w: World, s: State, p: nat)
    requires Trustworthy(w, s) && At(s, p).Missed?
    ensures Trustworthy(w, Next(w, s, Compute(p))) <==> w.Truth(s.file) == w.Truth(At(s, p).id)
  {
    TrustIffHonest(w, s);
    var s' := Next(w, s, Compute(p));
    TrustIffHonest(w, s');
    assert At(s', p) == Computed(At(s, p).id, w.Truth(s.file));
    assert forall q: nat :: q != p ==> At(s', q) == At(s, q);
  }

  /** Every other step keeps it. */
  lemma OtherStepsKeepTrust(w: World, s: State, e: Event)
    requires Trustworthy(w, s) && !e.Compute?
    ensures Trustworthy(w, Next(w, s, e))
  {
    TrustStep(w, s, e);
  }

  function Start(file: Identity): State { State(file, None, map[]) }

  lemma StartIsTrustworthy(w: World, file: Identity)
    ensures Trustworthy(w, Start(file))
  {
    TrustIffHonest(w, Start(file));
  }

  function Run(w: World, s: State, events: seq<Event>): State {
    if events == [] then s else Next(w, Run(w, s, events[..|events| - 1]), events[|events| - 1])
  }

  lemma RunStep(w: World, s: State, events: seq<Event>, e: Event)
    ensures Run(w, s, events + [e]) == Next(w, Run(w, s, events), e)
  {
    assert (events + [e])[..|events|] == events;
  }

  function Late(b: Identity): seq<Event> { [Stat(0)] + [LoadSidecar(0)] + [Rewrite(b)] + [Compute(0)] + [Store(0)] }

  lemma LateComputeStores(w: World, s: State, b: Identity)
    requires s.sidecar.None? && At(s, 0).Idle?
    ensures Run(w, s, Late(b)) == State(b, Some(SidecarOf(s.file, w.Truth(b))), s.processes[0 := Idle])
  {
    RunStep(w, s, [], Stat(0));
    assert [] + [Stat(0)] == [Stat(0)];
    RunStep(w, s, [Stat(0)], LoadSidecar(0));
    RunStep(w, s, [Stat(0)] + [LoadSidecar(0)], Rewrite(b));
    RunStep(w, s, [Stat(0)] + [LoadSidecar(0)] + [Rewrite(b)], Compute(0));
    RunStep(w, s, [Stat(0)] + [LoadSidecar(0)] + [Rewrite(b)] + [Compute(0)], Store(0));
    assert Run(w, s, [Stat(0)]).processes == s.processes[0 := Statted(s.file)];
    assert Run(w, s, [Stat(0)] + [LoadSidecar(0)]).processes == s.processes[0 := Missed(s.file)];
  }

  /** One rewrite between stat and compute, then the old content back with its old identity: the hit that
      follows answers with the statistics of the other content. */
  lemma RewriteDuringComputePoisons(w: World, a: Identity, b: Identity)
    ensures var s := Run(w, Start(a), Late(b) + [Rewrite(a)] + [Stat(0)]);
            s.file == a && IsHit(s, LoadSidecar(0)) && Found(s.sidecar, a) == Some(w.Truth(b))
  {
    LateComputeStores(w, Start(a), b);
    RunStep(w, Start(a), Late(b), Rewrite(a));
    RunStep(w, Start(a), Late(b) + [Rewrite(a)], Stat(0));
    StoredIsLoaded(a, w.Truth(b), a);
  }

  /** With a second process that took the identity before the rewrites, no identity has to come back: it gets
      the statistics of `b` for the identity `a` while the file holds `c`. */
  lemma SecondProcessGetsWrongHit(w: World, a: Identity, b: Identity, c: Identity)
    ensures var s := Run(w, State(a, None, map[1 := Statted(a)]), Late(b) + [Rewrite(c)]);
            s.file == c && IsHit(s, LoadSidecar(1)) && At(s, 1).id == a && Found(s.sidecar, a) == Some(w.Truth(b))
  {
    var s := State(a, None, map[1 := Statted(a)]);
    LateComputeStores(w, s, b);
    RunStep(w, s, Late(b), Rewrite(c));
    StoredIsLoaded(a, w.Truth(b), a);
  }

  // ---- runs in which every rewrite brings an identity never seen before ----

  predicate Fresh(w: World, used: set<Identity>, s: State, events: seq<Event>)
    decreases |events|
  {
    events == [] ||
    (var e := events[0];
     (e.Rewrite? ==> e.to !in used) &&
     Fresh(w, Add(used, e), Next(w, s, e), events[1..]))
  }

  /** A hit whose file is still the one it took the identity of answers for the current content. */
  predicate AnswersCurrent(w: World, s: State, e: Event) {
    IsHit(s, e) && At(s, e.p).id == s.file ==> Found(s.sidecar, s.file).value == w.Truth(s.file)
  }

  predicate HitsAreCurrent(w: World, s: State, events: seq<Event>)
    decreases |events|
  {
    events == [] || (AnswersCurrent(w, s, events[0]) && HitsAreCurrent(w, Next(w, s, events[0]), events[1..]))
  }

  /** Only identities the file has left behind may be recorded wrongly. */
  ghost predicate SidecarFits(w: World, used: set<Identity>, file: Identity, sidecar: Option<string>) {
    forall id :: (id == file || id !in used) && Found(sidecar, id).Some? ==> Found(sidecar, id).value == w.Truth(id)
  }

  predicate ProcessFits(w: World, used: set<Identity>, file: Identity, process: Process) {
    process.Idle? || (process.id in used && (process.Computed? && process.id == file ==> process.stats == w.Truth(file)))
  }

  ghost predicate Fits(w: World, used: set<Identity>, s: State) {
    s.file in used && SidecarFits(w, used, s.file, s.sidecar) &&
    forall p: nat :: ProcessFits(w, used, s.file, At(s, p))
  }

  function Add(used: set<Identity>, e: Event): set<Identity> { used + (if e.Rewrite? then {e.to} else {}) }

  lemma SidecarFitsStep(w: World, used: set<Identity>, s: State, e: Event)
    requires Fits(w, used, s) && (e.Rewrite? ==> e.to !in used)
    ensures SidecarFits(w, Add(used, e), Next(w, s, e).file, Next(w, s, e).sidecar)
  {
    if e.Store? && At(s, e.p).Computed? {
      var id, st := At(s, e.p).id, At(s, e.p).stats;
      assert ProcessFits(w, used, s.file, At(s, e.p));
      forall other {
        StoredIsLoaded(id, st, other);
      }
    }
  }

  lemma FitsStep(w: World, used: set<Identity>, s: State, e: Event)
    requires Fits(w, used, s) && (e.Rewrite? ==> e.to !in used)
    ensures Fits(w, Add(used, e), Next(w, s, e)) && AnswersCurrent(w, s, e)
  {
    SidecarFitsStep(w, used, s, e);
    var s' := Next(w, s, e);
    forall q: nat ensures ProcessFits(w, Add(used, e), s'.file, At(s', q)) {
      assert ProcessFits(w, used, s.file, At(s, q));
      if e.Rewrite? || q != e.p {
        OthersStay(w, s, e, q);
      }
    }
  }

  /** From an honest start, in every interleaving of every number of processes. */
  lemma {:induction false} FreshHitsAreCurrent(w: World, used: set<Identity>, s: State, events: seq<Event>)
    requires Fits(w, used, s) && Fresh(w, used, s, events)
    ensures HitsAreCurrent(w, s, events)
    decreases |events|
  {
    if events != [] {
      var e := events[0];
      FitsStep(w, used, s, e);
      FreshHitsAreCurrent(w, Add(used, e), Next(w, s, e), events[1..]);
    }
  }

  lemma StartFits(w: World, file: Identity)
    ensures Fits(w, {file}, Start(file))
  {
  }

  /** From an empty cache. */
  lemma FreshFromStart(w: World, file: Identity, events: seq<Event>)
    requires Fresh(w, {file}, Start(file), events)
    ensures HitsAreCurrent(w, Start(file), events)
  {
    StartFits(w, file);
    FreshHitsAreCurrent(w, {file}, Start(file), events);
  }

  // ---- one process alone ----

  function Pow2(k: nat): nat { if k == 0 then 1 else 2 * Pow2(k - 1) }

  lemma {:induction false} Pow2Sum(a: nat, b: nat)
    ensures Pow2(a + b) == Pow2(a) * Pow2(b)
  {
    if a > 0 {
      Pow2Sum(a - 1, b);
    }
  }

  lemma Pow2Of64()
    ensures Pow2(64) == TWO_64
  {
    Pow2Sum(4, 4);
    Pow2Sum(8, 8);
    Pow2Sum(16, 16);
    Pow2Sum(32, 32);
    assert Pow2(2) == 4;
    assert Pow2(4) == 16;
  }

  lemma {:induction false} XorFits(a: nat, b: nat, k: nat)
    requires a < Pow2(k) && b < Pow2(k)
    ensures Xor(a, b) < Pow2(k)
  {
    if k > 0 {
      XorFits(a / 2, b / 2, k - 1);
    }
  }

  lemma {:induction false} FingerprintFits(H: Hasher, lines: seq<Line>)
    ensures var fp := FingerprintOf(H, lines); fp.lineCount == |lines| && fp.xor < TWO_64 && fp.sum < TWO_128
  {
    if lines != [] {
      var n := |lines| - 1;
      FingerprintFits(H, lines[..n]);
      Pow2Of64();
      XorFits(FingerprintOf(H, lines[..n]).xor, H(lines[n]), 64);
    }
  }

  /** Statistics fit their printed widths. */
  lemma StatsFit(D: Digest, H: Hasher, lines: Content)
    requires |lines| < TWO_64 && IsToken(D(lines))
    ensures Storable(StatsOf(D, H, lines))
  {
    FingerprintFits(H, lines);
  }

  /** A baseline and its sidecar. */
  class Baseline {
    var lines: Content
    /** None when the file cannot be examined. */
    var identity: Option<Identity>
    var sidecar: Option<string>

    constructor (lines: Content, identity: Option<Identity>, sidecar: Option<string>)
      ensures this.lines == lines && this.identity == identity && this.sidecar == sidecar
    {
      this.lines, this.identity, this.sidecar := lines, identity, sidecar;
    }

    /** The sidecar records nothing, or the truth, for the present identity. */
    predicate Honest(D: Digest, H: Hasher)
      reads this
    {
      identity.Some? && Found(sidecar, identity.value).Some? ==>
        Found(sidecar, identity.value).value == StatsOf(D, H, lines)
    }

    /** With an honest sidecar the answer is always that of recomputing, the sidecar stays honest, and the
        next call for the unchanged file is a hit with the same answer. */
    method ComputeStreamingStatsCached(D: Digest, H: Hasher) returns (stats: FileStats, hit: bool)
      requires |lines| < TWO_64 && IsToken(D(lines))
      modifies this`sidecar
      ensures hit == (identity.Some? && Found(old(sidecar), identity.value).Some?)
      ensures stats == if hit then Found(old(sidecar), identity.value).value else StatsOf(D, H, lines)
      ensures old(Honest(D, H)) ==> Honest(D, H) && stats == StatsOf(D, H, lines)
      ensures identity.Some? ==> Found(sidecar, identity.value) == Some(stats)
      ensures identity.None? || hit ==> sidecar == old(sidecar)
    {
      StatsFit(D, H, lines);
      hit := false;
      if identity.None? {
        stats := ComputeStreamingStats(D, H, lines);
        return;
      }
      var cached := LoadCachedStats(sidecar, identity.value);
      if cached.Some? {
        return cached.value, true;
      }
      stats := ComputeStreamingStats(D, H, lines);
      StoredIsLoaded(identity.value, stats, identity.value);
      sidecar := Some(SidecarOf(identity.value, stats));
    }
  }

  // ---- what each event does ----

  /** Only a rewrite changes the file, and only a store that succeeds changes the sidecar. */
  lemma EventChanges(w: World, s: State, e: Event)
    ensures Next(w, s, e).file == if e.Rewrite? then e.to else s.file
    ensures Next(w, s, e).sidecar ==
            if e.Store? && At(s, e.p).Computed? then Some(SidecarOf(At(s, e.p).id, At(s, e.p).stats)) else s.sidecar
  {
  }

  /** A process takes the identity, looks it up, computes from the file as it is then, and stores under the identity it
      took; a lookup that finds something ends the call. */
  lemma ProcessGoes(w: World, s: State, p: nat)
    ensures At(s, p).Idle? ==> At(Next(w, s, Stat(p)), p) == Statted(s.file)
    ensures At(s, p).Statted? ==>
            At(Next(w, s, LoadSidecar(p)), p) == if Found(s.sidecar, At(s, p).id).Some? then Idle else Missed(At(s, p).id)
    ensures At(s, p).Missed? ==> At(Next(w, s, Compute(p)), p) == Computed(At(s, p).id, w.stats(w.owner(s.file)))
    ensures At(s, p).Computed? ==> At(Next(w, s, Store(p)), p) == Idle && At(Next(w, s, StoreFails(p)), p) == Idle
  {
  }
}
