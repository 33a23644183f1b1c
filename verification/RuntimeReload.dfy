/**
  Hot reload (crates/dynet-cli/src/runtime_reload.rs with crates/dynet-runtime/src/lib.rs): a
  transaction over the current configuration, the stored seed, the runtime routing, the egress
  generations and the TUN timers, running beside selections and dispatches.
*/
module RuntimeReloading {
  import opened ByteStrings
  import opened EgressGenerations
  import opened ReloadPlanning

  datatype Routing = Routing(generation: nat, seed: Seed)

  /** Where the reload that holds the mutex stands; `prepared` is the generation it was prepared against. */
  datatype Phase =
    | Free
    | Planned(candidate: Config, prepared: nat)
    | Installed(candidate: Config, prepared: nat)
    | Stored(candidate: Config, prepared: nat)
    | StoreFailed(candidate: Config, prepared: nat)
    | Conflicted(candidate: Config, prepared: nat)
    | Restoring(candidate: Config, prepared: nat)
    | Committed(candidate: Config, prepared: nat)
    | TunWritten(candidate: Config, prepared: nat)

  datatype State = State(
    current: Config,
    store: Seed,
    routing: Routing,
    egress: Generations,
    tun: Tun,
    phase: Phase,
    /** The configuration committed under each generation number. */
    committed: map<nat, Config>,
    /** The generation stamps of every selection made so far. */
    decisions: set<nat>)

  /** A configuration as it comes from the loader, which copies the IPv6 switch into the seed. */
  predicate Loaded(c: Config) {
    c.forwarding.seed.ipv6Enabled == c.ipv6Enabled
  }

  function Initial(c: Config): State {
    State(c, c.forwarding.seed, Routing(1, c.forwarding.seed), map[1 := Graph(c.forwarding.executionNodes)],
          c.capture.tun, Free, map[1 := c], {})
  }

  datatype Step =
    | Begin(candidate: Config)
    | CompileFails
    | Install(after: Generations)
    | StoreFails
    | StoreSucceeds
    | Remove
    | Commit
    | Conflict
    | RestoreStore(succeeds: bool)
    | WriteTun
    | Finish
    | Select

  /** The generation map after installing g, as the class ReloadableEgress promises it. */
  ghost predicate InstalledAs(before: Generations, g: nat, graph: Graph, after: Generations) {
    var grown := before[g := graph];
    && Retained(after, grown)
    && |after| == if |grown| > RETAINED_GENERATIONS then RETAINED_GENERATIONS else |grown|
  }

  /** One atomic step; selections may happen between any two steps of a reload. */
  ghost predicate Next(s: State, step: Step, t: State) {
    match step
    case Begin(c) =>
      // the plan says Apply; in every other case the reload ends without a step
      && s.phase.Free? && Loaded(c) && c != s.current && Frozen(c) == Frozen(s.current)
      && t == s.(phase := Planned(c, s.routing.generation))
    case CompileFails => s.phase.Planned? && t == s.(phase := Free)
    case Install(after) =>
      && s.phase.Planned?
      && InstalledAs(s.egress, s.phase.prepared + 1, Graph(s.phase.candidate.forwarding.executionNodes), after)
      && t == s.(egress := after, phase := Installed(s.phase.candidate, s.phase.prepared))
    case StoreFails =>
      s.phase.Installed? && t == s.(phase := StoreFailed(s.phase.candidate, s.phase.prepared))
    case StoreSucceeds =>
      && s.phase.Installed?
      && t == s.(store := s.phase.candidate.forwarding.seed, phase := Stored(s.phase.candidate, s.phase.prepared))
    case Remove =>
      && (s.phase.StoreFailed? || s.phase.Conflicted?)
      && t == s.(egress := s.egress - {s.phase.prepared + 1},
                 phase := if s.phase.StoreFailed? then Free else Restoring(s.phase.candidate, s.phase.prepared))
    case Commit =>
      && s.phase.Stored? && s.routing.generation == s.phase.prepared
      && var c, g := s.phase.candidate, s.phase.prepared + 1;
         t == s.(routing := Routing(g, c.forwarding.seed), committed := s.committed[g := c],
                 phase := Committed(c, s.phase.prepared))
    case Conflict =>
      && s.phase.Stored? && s.routing.generation != s.phase.prepared
      && t == s.(phase := Conflicted(s.phase.candidate, s.phase.prepared))
    case RestoreStore(succeeds) =>
      && s.phase.Restoring?
      && t == s.(store := if succeeds then s.current.forwarding.seed else s.store, phase := Free)
    case WriteTun =>
      && s.phase.Committed?
      && t == s.(tun := s.phase.candidate.capture.tun, phase := TunWritten(s.phase.candidate, s.phase.prepared))
    case Finish => s.phase.TunWritten? && t == s.(current := s.phase.candidate, phase := Free)
    case Select => t == s.(decisions := s.decisions + {s.routing.generation})
  }

  // ---- The invariant ----

  /** The keys are exactly lo to hi. */
  ghost predicate Spans(m: Generations, lo: nat, hi: nat) {
    lo <= hi && forall k: nat :: k in m <==> lo <= k <= hi
  }

  /** The uncommitted generation is in the map. */
  predicate InFlight(p: Phase) {
    p.Installed? || p.Stored? || p.StoreFailed?
  }

  function Min(a: nat, b: nat): nat {
    if a < b then a else b
  }

  /** At most eight contiguous generations, at least the last seven committed ones that exist. */
  ghost predicate MapShape(m: Generations, g: nat, inFlight: bool) {
    exists lo: nat :: ShapeFrom(m, g, inFlight, lo)
  }

  ghost predicate ShapeFrom(m: Generations, g: nat, inFlight: bool, lo: nat) {
    var top := if inFlight then g + 1 else g;
    && 1 <= lo <= g
    && Spans(m, lo, top)
    && top - lo + 1 <= RETAINED_GENERATIONS
    && g - lo + 1 >= Min(g, RETAINED_GENERATIONS - 1)
  }

  /** Every retained graph is the one compiled from the configuration of its number. */
  ghost predicate GraphsTrue(s: State) {
    && (forall k: nat :: k in s.egress && k in s.committed
          ==> s.egress[k] == Graph(s.committed[k].forwarding.executionNodes))
    && (InFlight(s.phase) ==>
          s.routing.generation + 1 in s.egress ==>
          s.egress[s.routing.generation + 1] == Graph(s.phase.candidate.forwarding.executionNodes))
  }

  /** The reload in progress was prepared against the current generation, or has just committed it. */
  predicate PhaseTrue(s: State) {
    match s.phase
    case Free => true
    case Planned(_, p) => p == s.routing.generation
    case Installed(_, p) => p == s.routing.generation
    case Stored(_, p) => p == s.routing.generation
    case StoreFailed(_, p) => p == s.routing.generation
    case Committed(_, p) => p + 1 == s.routing.generation
    case TunWritten(_, p) => p + 1 == s.routing.generation
    case Conflicted(_, _) => false
    case Restoring(_, _) => false
  }

  /** Generations: numbers one to the current one are on record, and the map holds true graphs for the last of them. */
  ghost predicate MapInv(s: State) {
    && 1 <= s.routing.generation
    && PhaseTrue(s)
    && MapShape(s.egress, s.routing.generation, InFlight(s.phase))
    && (forall k: nat :: k in s.committed <==> 1 <= k <= s.routing.generation)
    && GraphsTrue(s)
    && (forall d :: d in s.decisions ==> 1 <= d <= s.routing.generation)
  }

  /** The five stores describe configuration c. */
  predicate Describes(s: State, c: Config) {
    && s.current == c
    && s.store == c.forwarding.seed
    && s.routing.seed == c.forwarding.seed
    && s.tun == c.capture.tun
  }

  /** What the stores hold in each phase, given the configuration on record for the current generation. */
  predicate StoreInv(s: State) {
    && s.routing.generation in s.committed
    && var c := s.committed[s.routing.generation];
       match s.phase
       case Stored(candidate, _) =>
         s.store == candidate.forwarding.seed && Describes(s.(store := c.forwarding.seed), c)
       case Committed(candidate, _) =>
         c == candidate && s.store == c.forwarding.seed && s.routing.seed == c.forwarding.seed
       case TunWritten(candidate, _) => c == candidate && Describes(s.(current := c), c)
       case _ => Describes(s, c)
  }

  /** Every configuration on record, and the one being applied, has the frozen fields of start-up. */
  ghost predicate FrozenInv(s: State, start: Config) {
    && (forall k: nat :: k in s.committed ==> Acceptable(s.committed[k], start))
    && (!s.phase.Free? ==> Acceptable(s.phase.candidate, start))
  }

  predicate Acceptable(c: Config, start: Config) {
    Frozen(c) == Frozen(start) && Loaded(c)
  }

  ghost predicate Inv(s: State, start: Config) {
    MapInv(s) && StoreInv(s) && FrozenInv(s, start)
  }

  // ---- The map keeps its shape ----

  lemma {:induction false} SpanSize(m: Generations, lo: nat, hi: nat)
    requires Spans(m, lo, hi)
    ensures |m| == hi - lo + 1
    decreases hi - lo
  {
    var rest := m - {hi};
    assert m.Keys == rest.Keys + {hi};
    assert |m.Keys| == |rest.Keys| + 1;
    if lo == hi {
      assert rest.Keys == {};
    } else {
      SpanSize(rest, lo, hi - 1);
    }
  }

  /** What is retained of a contiguous range is its upper end. */
  lemma RetainedIsUpper(before: Generations, after: Generations, lo: nat, hi: nat)
    requires Spans(before, lo, hi) && Retained(after, before) && |after| > 0
    ensures |after| <= hi + 1 && Spans(after, hi + 1 - |after|, hi)
  {
    assert after.Keys != {};
    OldestExists(after, after.Keys);
    var low: nat :| IsOldest(after, low);
    forall k: nat
      ensures k in after <==> low <= k <= hi
    {
      if low <= k <= hi {
        assert k in before;
      }
    }
    SpanSize(after, low, hi);
  }

  lemma InstallKeepsShape(m: Generations, g: nat, graph: Graph, after: Generations)
    requires MapShape(m, g, false) && InstalledAs(m, g + 1, graph, after)
    ensures MapShape(after, g, true)
    ensures g + 1 in after && after[g + 1] == graph
    ensures forall k :: k in after && k <= g ==> k in m && after[k] == m[k]
  {
    var lo: nat :| ShapeFrom(m, g, false, lo);
    var grown := m[g + 1 := graph];
    assert Spans(grown, lo, g + 1);
    SpanSize(grown, lo, g + 1);
    RetainedIsUpper(grown, after, lo, g + 1);
    assert ShapeFrom(after, g, true, g + 2 - |after|);
  }

  lemma RemoveKeepsShape(m: Generations, g: nat)
    requires MapShape(m, g, true)
    ensures MapShape(m - {g + 1}, g, false)
  {
    var lo: nat :| ShapeFrom(m, g, true, lo);
    assert ShapeFrom(m - {g + 1}, g, false, lo);
  }

  lemma CommitKeepsShape(m: Generations, g: nat)
    requires MapShape(m, g, true)
    ensures MapShape(m, g + 1, false)
  {
    var lo: nat :| ShapeFrom(m, g, true, lo);
    assert ShapeFrom(m, g + 1, false, lo);
  }

  // ---- Every step keeps the invariant ----

  lemma InitialInv(c: Config)
    requires Loaded(c)
    ensures Inv(Initial(c), c)
  {
    var s := Initial(c);
    assert ShapeFrom(s.egress, 1, false, 1);
  }

  lemma InstallKeepsMap(s: State, after: Generations)
    requires MapInv(s) && s.phase.Planned?
    requires InstalledAs(s.egress, s.phase.prepared + 1, Graph(s.phase.candidate.forwarding.executionNodes), after)
    ensures MapInv(s.(egress := after, phase := Installed(s.phase.candidate, s.phase.prepared)))
  {
    InstallKeepsShape(s.egress, s.routing.generation, Graph(s.phase.candidate.forwarding.executionNodes), after);
  }

  lemma StepKeepsMap(s: State, step: Step, t: State)
    requires MapInv(s) && Next(s, step, t)
    ensures MapInv(t)
  {
    if step.Install? {
      InstallKeepsMap(s, step.after);
    } else if step.Remove? {
      RemoveKeepsShape(s.egress, s.routing.generation);
    } else if step.Commit? {
      CommitKeepsShape(s.egress, s.routing.generation);
      var lo: nat :| ShapeFrom(s.egress, s.routing.generation, true, lo);
    } else {
      assert t.egress == s.egress && t.routing == s.routing && t.committed == s.committed;
    }
  }

  lemma StepKeepsStores(s: State, step: Step, t: State)
    requires MapInv(s) && StoreInv(s) && Next(s, step, t)
    ensures StoreInv(t)
  {
  }

  lemma StepKeepsFrozen(s: State, step: Step, t: State, start: Config)
    requires MapInv(s) && StoreInv(s) && FrozenInv(s, start) && Next(s, step, t)
    ensures FrozenInv(t, start)
  {
    if step.Begin? {
      assert s.current == s.committed[s.routing.generation];
      assert Acceptable(step.candidate, start);
    }
  }

  lemma StepKeepsInv(s: State, step: Step, t: State, start: Config)
    requires Inv(s, start) && Next(s, step, t)
    ensures Inv(t, start)
  {
    StepKeepsMap(s, step, t);
    StepKeepsStores(s, step, t);
    StepKeepsFrozen(s, step, t, start);
  }

  // ---- Every run ----

  /** A run from start-up: each state follows from the one before by the step of its number. */
  ghost predicate IsRun(states: seq<State>, steps: seq<Step>, start: Config) {
    && |states| == |steps| + 1
    && states[0] == Initial(start)
    && forall i {:trigger steps[i]} :: 0 <= i < |steps| ==> Next(states[i], steps[i], states[i + 1])
  }

  /** Every reachable state satisfies the invariant, however reloads, failures and selections interleave. */
  lemma {:induction false} ReachableInv(states: seq<State>, steps: seq<Step>, start: Config, n: nat)
    requires Loaded(start) && IsRun(states, steps, start) && n <= |steps|
    ensures Inv(states[n], start)
  {
    if n == 0 {
      InitialInv(start);
    } else {
      ReachableInv(states, steps, start, n - 1);
      assert Next(states[n - 1], steps[n - 1], states[n]);
      StepKeepsInv(states[n - 1], steps[n - 1], states[n], start);
    }
  }

  /**
    Generation safety: in every reachable state, a decision at most six generations old finds its
    graph, and it is the one compiled from the configuration committed under the decision's number.
    The map never holds more than eight generations.
  */
  lemma RecentDecisionFindsItsGraph(states: seq<State>, steps: seq<Step>, start: Config, n: nat, d: nat)
    requires Loaded(start) && IsRun(states, steps, start) && n <= |steps|
    requires d in states[n].decisions && d + 6 >= states[n].routing.generation
    ensures var s := states[n];
            && |s.egress| <= RETAINED_GENERATIONS
            && d in s.egress && d in s.committed
            && s.egress[d] == Graph(s.committed[d].forwarding.executionNodes)
  {
    ReachableInv(states, steps, start, n);
    var s := states[n];
    var g := s.routing.generation;
    var lo: nat :| ShapeFrom(s.egress, g, InFlight(s.phase), lo);
    SpanSize(s.egress, lo, if InFlight(s.phase) then g + 1 else g);
  }

  /**
    All or nothing: in every reachable state in which no reload holds the mutex, current
    configuration, stored seed, routing seed, TUN timers, the egress graph of the current generation
    and the configuration on record for it all describe one configuration.
  */
  lemma FreeMeansOneConfig(states: seq<State>, steps: seq<Step>, start: Config, n: nat)
    requires Loaded(start) && IsRun(states, steps, start) && n <= |steps| && states[n].phase.Free?
    ensures var s := states[n];
            var g := s.routing.generation;
            && Describes(s, s.current)
            && g in s.committed && s.committed[g] == s.current
            && g in s.egress && s.egress[g] == Graph(s.current.forwarding.executionNodes)
  {
    ReachableInv(states, steps, start, n);
    var s := states[n];
    var lo: nat :| ShapeFrom(s.egress, s.routing.generation, InFlight(s.phase), lo);
  }

  /** With reload as the only writer, the commit-conflict branch is never taken. */
  lemma ConflictIsUnreachable(states: seq<State>, steps: seq<Step>, start: Config, i: nat)
    requires Loaded(start) && IsRun(states, steps, start) && i < |steps|
    ensures !steps[i].Conflict? && !steps[i].RestoreStore?
  {
    ReachableInv(states, steps, start, i);
    assert Next(states[i], steps[i], states[i + 1]);
  }

  /** Every field that needs a restart keeps its start-up value in every reachable state, and so does the IPv6 policy of the routing. */
  lemma FrozenForever(states: seq<State>, steps: seq<Step>, start: Config, n: nat)
    requires Loaded(start) && IsRun(states, steps, start) && n <= |steps|
    ensures var s := states[n];
            && s.routing.seed.ipv6Enabled == start.ipv6Enabled
            && (forall k :: k in s.committed ==> Frozen(s.committed[k]) == Frozen(start))
            && (s.phase.Free? ==> Frozen(s.current) == Frozen(start))
  {
    ReachableInv(states, steps, start, n);
    var s := states[n];
    var c := s.committed[s.routing.generation];
    assert c.ipv6Enabled == Frozen(c).ipv6Enabled == start.ipv6Enabled;
    assert s.routing.seed == c.forwarding.seed;
  }

  /** Retained generations are contiguous, end at the current one or the one in flight, number at most eight, and include the last seven committed. */
  lemma GenerationMapShape(states: seq<State>, steps: seq<Step>, start: Config, n: nat)
    requires Loaded(start) && IsRun(states, steps, start) && n <= |steps|
    ensures MapShape(states[n].egress, states[n].routing.generation, InFlight(states[n].phase))
  {
    ReachableInv(states, steps, start, n);
  }

  // ---- The reload object ----

  datatype ReloadResult =
    | Applied(generation: nat, changed: seq<Field>)
    | NothingToDo(generation: nat)
    | NeedsRestart(generation: nat, fields: seq<Field>)
    | Invalid(generation: nat)
    | Failed(generation: nat)

  /** A stretch of a run from s to t. */
  ghost predicate Stretch(states: seq<State>, steps: seq<Step>, s: State, t: State) {
    && |states| == |steps| + 1
    && states[0] == s && states[|steps|] == t
    && forall i {:trigger steps[i]} :: 0 <= i < |steps| ==> Next(states[i], steps[i], states[i + 1])
  }

  lemma StretchSnoc(states: seq<State>, steps: seq<Step>, s: State, t: State, step: Step, u: State)
    requires Stretch(states, steps, s, t) && Next(t, step, u)
    ensures Stretch(states + [u], steps + [step], s, u)
  {
    forall i | 0 <= i < |steps| + 1
      ensures Next((states + [u])[i], (steps + [step])[i], (states + [u])[i + 1])
    {
      if i < |steps| {
        assert Next(states[i], steps[i], states[i + 1]);
      }
    }
  }

  lemma StretchAppend(a: seq<State>, e: seq<Step>, s: State, t: State, b: seq<State>, f: seq<Step>, u: State)
    requires Stretch(a, e, s, t) && Stretch(b, f, t, u)
    ensures Stretch(a + b[1..], e + f, s, u)
  {
    var all, n := a + b[1..], |e|;
    assert forall j :: 0 <= j < |b| ==> all[n + j] == b[j];
    forall i | 0 <= i < |e + f|
      ensures Next(all[i], (e + f)[i], all[i + 1])
    {
      if i < n {
        assert Next(a[i], e[i], a[i + 1]);
      } else {
        assert Next(b[i - n], f[i - n], b[i - n + 1]);
        assert all[n + (i - n)] == b[i - n] && all[n + (i - n + 1)] == b[i - n + 1];
      }
    }
  }

  /** A stretch behind a run is a run: what holds of every run holds of what the reload object does. */
  lemma RunThenStretch(states: seq<State>, steps: seq<Step>, start: Config, more: seq<State>, next: seq<Step>, t: State)
    requires IsRun(states, steps, start) && Stretch(more, next, states[|steps|], t)
    ensures IsRun(states + more[1..], steps + next, start) && (states + more[1..])[|steps + next|] == t
  {
    StretchAppend(states, steps, states[0], states[|steps|], more, next, t);
  }

  class RuntimeReload {
    var current: Config
    var store: Seed
    var routing: Routing
    const egress: ReloadableEgress
    var tun: Tun
    ghost var phase: Phase
    ghost var committed: map<nat, Config>
    ghost var decisions: set<nat>

    ghost function Snapshot(): State
      reads this, egress
    {
      State(current, store, routing, egress.generations, tun, phase, committed, decisions)
    }

    constructor (config: Config)
      ensures Snapshot() == Initial(config) && fresh(egress)
    {
      current, store, routing := config, config.forwarding.seed, Routing(1, config.forwarding.seed);
      egress := new ReloadableEgress(1, config.forwarding.executionNodes);
      tun, phase, committed, decisions := config.capture.tun, Free, map[1 := config], {};
    }

    /** `select`: the decision carries the generation of the routing it was made with. */
    method Select() returns (generation: nat)
      modifies `decisions
      ensures generation == routing.generation && Next(old(Snapshot()), Step.Select, Snapshot())
    {
      generation := routing.generation;
      decisions := decisions + {generation};
    }

    /**
      Dispatch of a decision: a graph found under a committed number is the one compiled from the
      configuration committed under it, and a decision at most six generations old finds one.
    */
    method Dispatch(decision: nat) returns (r: Option<Graph>)
      requires MapInv(Snapshot()) && decision in decisions
      ensures decision in committed
      ensures r.Some? ==> r.value == Graph(committed[decision].forwarding.executionNodes)
      ensures decision + 6 >= routing.generation ==> r.Some?
    {
      r := egress.GraphFor(decision);
    }

    /** `egress.install`, or its compile error. */
    method TryInstall(candidate: Config, prepared: nat, compiles: bool) returns (ok: bool)
      requires phase == Planned(candidate, prepared)
      modifies this, egress
      ensures ok == compiles
      ensures ok ==> Next(old(Snapshot()), Step.Install(egress.generations), Snapshot()) && phase == Installed(candidate, prepared)
      ensures !ok ==> Next(old(Snapshot()), CompileFails, Snapshot()) && phase.Free?
      ensures current == old(current) && store == old(store) && routing == old(routing) && tun == old(tun)
    {
      if compiles {
        egress.Install(prepared + 1, Graph(candidate.forwarding.executionNodes));
        phase := Installed(candidate, prepared);
      } else {
        phase := Free;
      }
      ok := compiles;
    }

    /** `store.replace_bootstrap`: one transaction, so it happens wholly or not at all. */
    method TryStore(candidate: Config, prepared: nat, commits: bool) returns (ok: bool)
      requires phase == Installed(candidate, prepared)
      modifies this
      ensures ok == commits
      ensures ok ==> Next(old(Snapshot()), StoreSucceeds, Snapshot()) && phase == Stored(candidate, prepared)
                     && store == candidate.forwarding.seed
      ensures !ok ==> Next(old(Snapshot()), StoreFails, Snapshot()) && phase == StoreFailed(candidate, prepared)
                      && store == old(store)
      ensures current == old(current) && routing == old(routing) && tun == old(tun)
    {
      if commits {
        store := candidate.forwarding.seed;
        phase := Stored(candidate, prepared);
      } else {
        phase := StoreFailed(candidate, prepared);
      }
      ok := commits;
    }

    /** `egress.remove` after a failed store. */
    method RollBack(candidate: Config, prepared: nat)
      requires phase == StoreFailed(candidate, prepared)
      modifies this, egress
      ensures Next(old(Snapshot()), Step.Remove, Snapshot()) && phase.Free?
      ensures current == old(current) && store == old(store) && routing == old(routing) && tun == old(tun)
    {
      egress.Remove(prepared + 1);
      phase := Free;
    }

    /** `commit_reconfigure`: refused if the generation is no longer the one the reload was prepared against. */
    method CommitRouting(candidate: Config, prepared: nat) returns (ok: bool)
      requires phase == Stored(candidate, prepared)
      modifies this
      ensures ok <==> old(routing.generation) == prepared
      ensures ok ==> Next(old(Snapshot()), Step.Commit, Snapshot()) && phase == Committed(candidate, prepared)
                     && routing == Routing(prepared + 1, candidate.forwarding.seed)
      ensures !ok ==> Next(old(Snapshot()), Conflict, Snapshot()) && phase == Conflicted(candidate, prepared)
                      && routing == old(routing)
      ensures current == old(current) && store == old(store) && tun == old(tun)
    {
      if routing.generation != prepared {
        phase := Conflicted(candidate, prepared);
        return false;
      }
      phase := Committed(candidate, prepared);
      routing := Routing(prepared + 1, candidate.forwarding.seed);
      committed := committed[prepared + 1 := candidate];
      return true;
    }

    /** After a refused commit: the new graph is removed and the previous seed written back, if that succeeds. */
    method Restore(candidate: Config, prepared: nat, restores: bool)
      returns (ghost states: seq<State>, ghost steps: seq<Step>)
      requires phase == Conflicted(candidate, prepared)
      modifies this, egress
      ensures Stretch(states, steps, old(Snapshot()), Snapshot()) && phase.Free?
      ensures current == old(current) && routing == old(routing) && tun == old(tun)
      ensures store == if restores then current.forwarding.seed else old(store)
    {
      ghost var s0 := Snapshot();
      egress.Remove(prepared + 1);
      phase := Restoring(candidate, prepared);
      ghost var s1 := Snapshot();
      if restores {
        store := current.forwarding.seed;
      }
      phase := Free;
      states, steps := [s0, s1, Snapshot()], [Step.Remove, RestoreStore(restores)];
    }

    /** After the commit: write the timers, replace the current configuration. */
    method Complete(candidate: Config, prepared: nat) returns (ghost states: seq<State>, ghost steps: seq<Step>)
      requires phase == Committed(candidate, prepared)
      modifies this
      ensures Stretch(states, steps, old(Snapshot()), Snapshot()) && phase.Free?
      ensures current == candidate && store == old(store) && tun == candidate.capture.tun && routing == old(routing)
    {
      ghost var s0 := Snapshot();
      tun, phase := candidate.capture.tun, TunWritten(candidate, prepared);
      ghost var s1 := Snapshot();
      current, phase := candidate, Free;
      states, steps := [s0, s1, Snapshot()], [WriteTun, Finish];
    }

    /** Commit and what follows it, with the conflict branch. */
    method CommitCandidate(candidate: Config, prepared: nat, restores: bool)
      returns (ok: bool, ghost states: seq<State>, ghost steps: seq<Step>)
      requires phase == Stored(candidate, prepared)
      modifies this, egress
      ensures Stretch(states, steps, old(Snapshot()), Snapshot()) && phase.Free?
      ensures ok <==> old(routing.generation) == prepared
      ensures ok ==> current == candidate && store == old(store) && tun == candidate.capture.tun
                     && routing == Routing(prepared + 1, candidate.forwarding.seed)
      ensures !ok ==> current == old(current) && routing == old(routing) && tun == old(tun)
                      && store == if restores then current.forwarding.seed else old(store)
    {
      ghost var s0 := Snapshot();
      ok := CommitRouting(candidate, prepared);
      ghost var s1 := Snapshot();
      ghost var step := if ok then Step.Commit else Conflict;
      StretchSnoc([s0], [], s0, s0, step, s1);
      assert [s0] + [s1] == [s0, s1] && [] + [step] == [step];
      ghost var more, next;
      if ok {
        more, next := Complete(candidate, prepared);
      } else {
        more, next := Restore(candidate, prepared, restores);
      }
      StretchAppend([s0, s1], [step], s0, s1, more, next, Snapshot());
      states, steps := [s0, s1] + more[1..], [step] + next;
    }

    /**
      `apply_candidate`, as a stretch of a run. It succeeds exactly if the graph compiles, the store accepts
      the seed and no other writer moved the generation in between; then the generation moves by exactly
      one and the candidate is in place. Otherwise configuration, routing and timers stay as they were,
      and so does the store, unless another writer interfered and the previous seed cannot be restored.
    */
    method ApplyCandidate(candidate: Config, prepared: nat, changed: seq<Field>, compiles: bool, stores: bool, restores: bool)
      returns (r: ReloadResult, ghost states: seq<State>, ghost steps: seq<Step>)
      requires phase == Planned(candidate, prepared)
      modifies this, egress
      ensures Stretch(states, steps, old(Snapshot()), Snapshot()) && phase.Free?
      ensures r == if compiles && stores && prepared == old(routing.generation) then Applied(prepared + 1, changed)
                   else Failed(old(routing.generation))
      ensures r.Applied? ==> prepared == old(routing.generation) && current == candidate
                             && store == candidate.forwarding.seed && tun == candidate.capture.tun
                             && routing == Routing(prepared + 1, candidate.forwarding.seed)
      ensures r.Failed? ==> current == old(current) && routing == old(routing) && tun == old(tun)
      ensures r.Failed? ==> store == if !compiles || !stores then old(store)
                                     else if restores then old(current).forwarding.seed else candidate.forwarding.seed
    {
      ghost var s0 := Snapshot();
      states, steps := [s0], [];
      ghost var before := s0;
      var ok := TryInstall(candidate, prepared, compiles);
      ghost var step := if ok then Step.Install(egress.generations) else CompileFails;
      StretchSnoc(states, steps, s0, before, step, Snapshot());
      states, steps, before := states + [Snapshot()], steps + [step], Snapshot();
      if !ok {
        return Failed(routing.generation), states, steps;
      }
      ok := TryStore(candidate, prepared, stores);
      step := if ok then StoreSucceeds else StoreFails;
      StretchSnoc(states, steps, s0, before, step, Snapshot());
      states, steps, before := states + [Snapshot()], steps + [step], Snapshot();
      if !ok {
        RollBack(candidate, prepared);
        StretchSnoc(states, steps, s0, before, Step.Remove, Snapshot());
        return Failed(routing.generation), states + [Snapshot()], steps + [Step.Remove];
      }
      ghost var lateStates, lateSteps;
      ok, lateStates, lateSteps := CommitCandidate(candidate, prepared, restores);
      StretchAppend(states, steps, s0, before, lateStates, lateSteps, Snapshot());
      states, steps := states + lateStates[1..], steps + lateSteps;
      return if ok then Applied(prepared + 1, changed) else Failed(routing.generation), states, steps;
    }

    /**
      `reload`. The loaded configuration, or None if loading failed, is a parameter, and so is whether the
      graph compiles and the store accepts the seed. Each of the five outcomes has its exact condition.
    */
    method Reload(loaded: Option<Config>, compiles: bool, stores: bool, restores: bool)
      returns (r: ReloadResult, ghost states: seq<State>, ghost steps: seq<Step>)
      requires phase.Free? && (loaded.Some? ==> Loaded(loaded.value))
      modifies this, egress
      ensures Stretch(states, steps, old(Snapshot()), Snapshot()) && phase.Free?
      ensures routing.generation == old(routing.generation) + if r.Applied? then 1 else 0
      ensures r.generation == routing.generation
      ensures r.Applied? ==> loaded == Some(current)
      ensures !r.Applied? ==> current == old(current) && store == old(store) && routing == old(routing) && tun == old(tun)
      ensures r.Invalid? <==> loaded.None?
      ensures r.NothingToDo? <==> loaded == Some(old(current))
      ensures r.NeedsRestart? <==> loaded.Some? && Frozen(loaded.value) != Frozen(old(current))
      ensures r.Applied? <==> loaded.Some? && loaded.value != old(current) && Frozen(loaded.value) == Frozen(old(current))
                              && compiles && stores
      ensures r.Failed? <==> loaded.Some? && loaded.value != old(current) && Frozen(loaded.value) == Frozen(old(current))
                             && !(compiles && stores)
      ensures r.Applied? ==> r.changed == Differing(HOT_FIELDS, old(current), current)
                             && store == current.forwarding.seed && tun == current.capture.tun
                             && routing.seed == current.forwarding.seed
      ensures r.NeedsRestart? ==> r.fields == Differing(RESTART_FIELDS, old(current), loaded.value)
    {
      states, steps := [Snapshot()], [];
      if loaded.None? {
        return Invalid(routing.generation), states, steps;
      }
      var candidate := loaded.value;
      var plan := PlanReload(current, candidate);
      FieldsCover(current, candidate);
      match plan.disposition {
        case Noop => return NothingToDo(routing.generation), states, steps;
        case RestartRequired => return NeedsRestart(routing.generation, plan.restartRequired), states, steps;
        case Apply =>
          ghost var s0 := Snapshot();
          phase := Planned(candidate, routing.generation);
          ghost var s1 := Snapshot();
          r, states, steps := ApplyCandidate(candidate, routing.generation, plan.changed, compiles, stores, restores);
          StretchAppend([s0, s1], [Begin(candidate)], s0, s1, states, steps, Snapshot());
          states, steps := [s0, s1] + states[1..], [Begin(candidate)] + steps;
      }
    }
  }
}
