/**
  The lifecycle of the two capture hooks and the routes and rules they share
  (crates/dynet-capture/src/linux/hooks.rs and router_ingress.rs). Artifacts are facts about the host;
  every changing command may fail, and a failed command changes nothing.
*/
module CaptureHooks {
  import opened CaptureRules

  datatype Slot = Absent | Owned | Foreign

  datatype Chain = NoChain | OwnedChain(rules: seq<ChainRule>) | ForeignChain

  datatype Hook = Output | Router

  datatype Links = Links(route: Slot, rule: Slot)

  datatype Facts = Facts(v4: Links, v6: Links, legacy: Slot, output: Chain, router: Chain) {
    function Of(f: Family): Links {
      if f.V4? then v4 else v6
    }

    function With(f: Family, l: Links): Facts {
      if f.V4? then this.(v4 := l) else this.(v6 := l)
    }

    function At(h: Hook): Chain {
      if h.Output? then output else router
    }

    function Put(h: Hook, c: Chain): Facts {
      if h.Output? then this.(output := c) else this.(router := c)
    }
  }

  datatype Command =
    | AddRoute(family: Family)
    | DelRoute(family: Family)
    | AddRule(family: Family)
    | DelRule(family: Family)
    | AddChain(hook: Hook)
    | AddChainRule(hook: Hook, rule: ChainRule)
    | DelChain(hook: Hook)
    | DelLegacy

  /** A successful command's effect; it overwrites or deletes whatever is there, foreign or not. */
  function Exec(x: Facts, c: Command): Facts {
    match c
    case AddRoute(f) => x.With(f, x.Of(f).(route := Owned))
    case DelRoute(f) => x.With(f, x.Of(f).(route := Absent))
    case AddRule(f) => x.With(f, x.Of(f).(rule := Owned))
    case DelRule(f) => x.With(f, x.Of(f).(rule := Absent))
    case AddChain(h) => x.Put(h, OwnedChain([]))
    case AddChainRule(h, r) => if x.At(h).OwnedChain? then x.Put(h, OwnedChain(x.At(h).rules + [r])) else x
    case DelChain(h) => x.Put(h, NoChain)
    case DelLegacy => x.(legacy := Absent)
  }

  // ---- What every command boundary keeps ----

  ghost predicate ChainServed(x: Facts, c: Chain) {
    c.OwnedChain? ==> forall p :: Captured(c.rules, p) ==> x.Of(p.family).rule.Owned?
  }

  /** A packet an owned chain captures finds its family's rule, and an owned rule finds its route. */
  ghost predicate Served(x: Facts) {
    && (x.v4.rule.Owned? ==> x.v4.route.Owned?) && (x.v6.rule.Owned? ==> x.v6.route.Owned?)
    && ChainServed(x, x.output) && ChainServed(x, x.router)
  }

  predicate SlotKept(a: Slot, b: Slot) {
    a.Foreign? <==> b.Foreign?
  }

  predicate LinksKept(a: Links, b: Links) {
    SlotKept(a.route, b.route) && SlotKept(a.rule, b.rule)
  }

  /** The artifacts of others are the same. */
  predicate ForeignKept(a: Facts, b: Facts) {
    && LinksKept(a.v4, b.v4) && LinksKept(a.v6, b.v6) && SlotKept(a.legacy, b.legacy)
    && (a.output.ForeignChain? <==> b.output.ForeignChain?) && (a.router.ForeignChain? <==> b.router.ForeignChain?)
  }

  ghost predicate Good(origin: Facts, x: Facts) {
    Served(x) && ForeignKept(origin, x)
  }

  predicate NothingOwned(x: Facts) {
    && !x.v4.route.Owned? && !x.v4.rule.Owned? && !x.v6.route.Owned? && !x.v6.rule.Owned? && !x.legacy.Owned?
    && !x.output.OwnedChain? && !x.router.OwnedChain?
  }

  /** Without owned artifacts, the foreign ones are the whole state: cleaning up restores what was there before. */
  lemma CleanStateIsDetermined(a: Facts, b: Facts)
    requires NothingOwned(a) && NothingOwned(b) && ForeignKept(a, b)
    ensures a == b
  {
  }

  /** Once a family has rule and route, a chain built for it may grow without an unserved capture. */
  lemma GrowingOutputIsServed(x: Facts, o: HookOptions, k: nat)
    requires Served(x) && k <= |OutputRules(o)|
    requires x.v4.rule.Owned? && (o.ipv6 ==> x.v6.rule.Owned?)
    ensures Served(x.(output := OwnedChain(OutputRules(o)[..k])))
  {
    var y := x.(output := OwnedChain(OutputRules(o)[..k]));
    forall p | Captured(y.output.rules, p)
      ensures y.Of(p.family).rule.Owned?
    {
      OutputCapturesOnlyEnabled(o, k, p);
    }
    assert ChainServed(x, x.router);
    assert ChainServed(y, y.router);
  }

  lemma GrowingRouterIsServed(x: Facts, o: RouterOptions, k: nat)
    requires Served(x) && k <= |RouterRules(o)|
    requires x.v4.rule.Owned? && (o.ipv6 ==> x.v6.rule.Owned?)
    ensures Served(x.(router := OwnedChain(RouterRules(o)[..k])))
  {
    var y := x.(router := OwnedChain(RouterRules(o)[..k]));
    forall p | Captured(y.router.rules, p)
      ensures y.Of(p.family).rule.Owned?
    {
      RouterCapturesOnlyEnabled(o, k, p);
    }
    assert ChainServed(x, x.output);
    assert ChainServed(y, y.output);
  }

  /** Adding links serves at least the packets served before. */
  lemma MoreLinksServe(x: Facts, f: Family, l: Links)
    requires Served(x) && (l.rule.Owned? ==> l.route.Owned?) && (x.Of(f).rule.Owned? ==> l.rule.Owned?)
    ensures Served(x.With(f, l))
  {
    var y := x.With(f, l);
    assert forall g :: x.Of(g).rule.Owned? ==> y.Of(g).rule.Owned?;
    assert ChainServed(y, y.output) && ChainServed(y, y.router);
  }

  /** Where no owned chain is left, links may go, the rule before the route. */
  lemma FewerLinksServe(x: Facts, f: Family, l: Links)
    requires Served(x) && !x.output.OwnedChain? && !x.router.OwnedChain? && (l.rule.Owned? ==> l.route.Owned?)
    ensures Served(x.With(f, l))
  {
  }

  lemma RemovingChainServes(x: Facts, h: Hook)
    requires Served(x)
    ensures Served(x.Put(h, NoChain))
  {
    var y := x.Put(h, NoChain);
    assert forall g :: y.Of(g) == x.Of(g);
    assert ChainServed(y, y.output) && ChainServed(y, y.router);
  }

  // ---- The log of an apply ----

  datatype Action = CreatedRoute(family: Family) | CreatedRule(family: Family) | CreatedRouterChain | InstalledRules

  /** What rolling back one logged action leaves. */
  function Undo(x: Facts, a: Action): Facts {
    match a
    case CreatedRoute(f) => Exec(x, DelRoute(f))
    case CreatedRule(f) => Exec(x, DelRule(f))
    case CreatedRouterChain => Exec(x, DelChain(Router))
    case InstalledRules => x
  }

  predicate SlotAdded(a: Slot, b: Slot) {
    a == b || (a.Absent? && b.Owned?)
  }

  predicate ChainAdded(a: Chain, b: Chain) {
    a == b || (a.NoChain? && b.OwnedChain?)
  }

  predicate LinksAdded(a: Links, b: Links) {
    SlotAdded(a.route, b.route) && SlotAdded(a.rule, b.rule)
  }

  /** Everything that was there is still there unchanged; what is new is owned and stands where nothing was. */
  predicate OnlyAdded(a: Facts, b: Facts) {
    && LinksAdded(a.v4, b.v4) && LinksAdded(a.v6, b.v6) && a.legacy == b.legacy
    && ChainAdded(a.output, b.output) && ChainAdded(a.router, b.router)
  }

  /** The states between logged actions, each the undoing of the next. */
  ghost predicate LogOk(origin: Facts, states: seq<Facts>, log: seq<Action>, x: Facts) {
    && |states| == |log| + 1 && states[|log|] == x
    && (forall k :: 0 <= k < |states| ==> Good(origin, states[k]) && OnlyAdded(states[0], states[k]))
    && (forall k :: 0 <= k < |log| ==> Undo(states[k + 1], log[k]) == states[k])
  }

  lemma LogGrows(origin: Facts, states: seq<Facts>, log: seq<Action>, x: Facts, a: Action, y: Facts)
    requires LogOk(origin, states, log, x) && Good(origin, y) && Undo(y, a) == x && OnlyAdded(x, y)
    ensures LogOk(origin, states + [y], log + [a], y)
  {
  }

  lemma LogShrinks(origin: Facts, states: seq<Facts>, log: seq<Action>, x: Facts)
    requires LogOk(origin, states, log, x) && log != []
    ensures LogOk(origin, states[..|log|], log[..|log| - 1], Undo(x, log[|log| - 1]))
  {
  }

  // ---- Status ----

  datatype Check = Ready | Missing | Invalid

  function SlotCheck(s: Slot): Check {
    match s
    case Absent => Missing
    case Owned => Ready
    case Foreign => Invalid
  }

  /** Without options, any owned chain is ready; with options it must also look as expected. */
  function ChainCheck(c: Chain, expected: bool): Check {
    match c
    case NoChain => Missing
    case OwnedChain(_) => if expected then Ready else Invalid
    case ForeignChain => Invalid
  }

  function OutputCheck(c: Chain, o: HookOptions): Check {
    ChainCheck(c, c.OwnedChain? && OutputMatches(c.rules, o))
  }

  function RouterCheck(c: Chain, o: RouterOptions): Check {
    ChainCheck(c, c.OwnedChain? && RouterMatches(c.rules, o))
  }

  predicate LinksCollide(l: Links) {
    SlotCheck(l.route).Invalid? || SlotCheck(l.rule).Invalid?
  }

  /** Links and chain an apply may work on. */
  predicate Accepts(x: Facts, ipv6: bool, chain: Check) {
    !LinksCollide(x.v4) && (ipv6 ==> !LinksCollide(x.v6)) && !chain.Invalid?
  }

  predicate ForeignChains(x: Facts) {
    ChainCheck(x.output, true).Invalid? || ChainCheck(x.router, true).Invalid?
  }

  function Other(h: Hook): Hook {
    if h.Output? then Router else Output
  }

  datatype Outcome = Done | Refused | Broken

  datatype ApplyOutcome = Applied(log: seq<Action>) | Rejected | RolledBack | RollbackFailed

  datatype Operation =
    | ApplyHooks(hooks: HookOptions, prepared: bool)
    | CleanHooks
    | ApplyRouter(router: RouterOptions, prepared: bool)
    | CleanRouter

  /** What an apply asks for is in place. */
  predicate LinksReady(x: Facts, ipv6: bool) {
    x.v4 == Links(Owned, Owned) && (ipv6 ==> x.v6 == Links(Owned, Owned))
  }

  /**
    What an operation makes of a host, in terms of its state before: nothing if it is refused, additions
    only if it applies, no change for the other hook if it cleans up; and all that it is for if none of
    its commands fails.
  */
  predicate Effect(op: Operation, a: Facts, b: Facts, allAnswered: bool) {
    match op
    case ApplyHooks(o, prepared) =>
      if o.serviceUid == 0 || !prepared || !Accepts(a, o.ipv6, OutputCheck(a.output, o)) then b == a
      else
        && OnlyAdded(a, b) && b.router == a.router
        && (allAnswered ==> LinksReady(b, o.ipv6) && OutputCheck(b.output, o).Ready?
                            && (a.output.NoChain? ==> b.output == OwnedChain(OutputRules(o))))
    case ApplyRouter(o, prepared) =>
      if !prepared || !Accepts(a, o.ipv6, RouterCheck(a.router, o)) then b == a
      else
        && OnlyAdded(a, b)
        && (allAnswered ==> LinksReady(b, o.ipv6) && b.output == a.output
                            && b.router == if a.router.NoChain? then OwnedChain(RouterRules(o)) else a.router)
    case CleanHooks =>
      if ForeignChains(a) || LinksCollide(a.v4) || LinksCollide(a.v6) || a.legacy.Foreign? then b == a
      else
        && b.router == a.router && (a.router.OwnedChain? ==> b.v4 == a.v4 && b.v6 == a.v6)
        && (allAnswered ==> b.output.NoChain? && (!a.router.OwnedChain? ==> NothingOwned(b)))
    case CleanRouter =>
      if ForeignChains(a) then b == a
      else
        && b.output == a.output && (a.output.OwnedChain? ==> b.v4 == a.v4 && b.v6 == a.v6)
        && (allAnswered ==> b.router.NoChain? && (!a.output.OwnedChain? ==> NothingOwned(b)))
  }

  // ---- The host ----

  class Host {
    var facts: Facts
    var issued: nat
    /** Whether the n-th changing command succeeds. */
    const answers: nat -> bool
    ghost const origin: Facts
    /** The state after every changing command so far. */
    ghost var trace: seq<Facts>

    ghost predicate Safe()
      reads this
    {
      && |trace| == issued + 1 && trace[issued] == facts
      && forall i :: 0 <= i < |trace| ==> Good(origin, trace[i])
    }

    constructor (start: Facts, answers: nat -> bool)
      requires Served(start)
      ensures Safe() && facts == start && origin == start && this.answers == answers && issued == 0
    {
      facts, issued, this.answers, origin, trace := start, 0, answers, start, [start];
    }

    /** One changing command. */
    method Run(c: Command) returns (ok: bool)
      requires Safe() && Good(origin, Exec(facts, c))
      modifies this
      ensures Safe() && facts == if ok then Exec(old(facts), c) else old(facts)
      ensures ok == answers(old(issued)) && issued == old(issued) + 1
      ensures trace == old(trace) + [facts]
    {
      ok := answers(issued);
      issued := issued + 1;
      if ok {
        facts := Exec(facts, c);
      }
      trace := trace + [facts];
    }

    // ---- Links ----

    method EnsureRoute(f: Family, log: seq<Action>, ghost states: seq<Facts>)
      returns (ok: bool, log': seq<Action>, ghost states': seq<Facts>)
      requires Safe() && LogOk(origin, states, log, facts) && !facts.Of(f).route.Foreign?
      modifies this
      ensures old(trace) <= trace && issued >= old(issued)
      ensures Safe() && LogOk(origin, states', log', facts) && states'[0] == states[0]
      ensures facts == if ok then old(facts).With(f, old(facts).Of(f).(route := Owned)) else old(facts)
      ensures log' == if ok && old(facts).Of(f).route.Absent? then log + [CreatedRoute(f)] else log
      ensures !ok ==> issued > old(issued) && !answers(issued - 1)
    {
      ok, log', states' := true, log, states;
      if !SlotCheck(facts.Of(f).route).Ready? {
        MoreLinksServe(facts, f, facts.Of(f).(route := Owned));
        ok := Run(AddRoute(f));
        if ok {
          LogGrows(origin, states, log, old(facts), CreatedRoute(f), facts);
          log', states' := log + [CreatedRoute(f)], states + [facts];
        }
      }
    }

    method EnsureRule(f: Family, log: seq<Action>, ghost states: seq<Facts>)
      returns (ok: bool, log': seq<Action>, ghost states': seq<Facts>)
      requires Safe() && LogOk(origin, states, log, facts)
      requires facts.Of(f).route.Owned? && !facts.Of(f).rule.Foreign?
      modifies this
      ensures old(trace) <= trace && issued >= old(issued)
      ensures Safe() && LogOk(origin, states', log', facts) && states'[0] == states[0]
      ensures facts == if ok then old(facts).With(f, Links(Owned, Owned)) else old(facts)
      ensures log' == if ok && old(facts).Of(f).rule.Absent? then log + [CreatedRule(f)] else log
      ensures !ok ==> issued > old(issued) && !answers(issued - 1)
    {
      ok, log', states' := true, log, states;
      if !SlotCheck(facts.Of(f).rule).Ready? {
        MoreLinksServe(facts, f, facts.Of(f).(rule := Owned));
        ok := Run(AddRule(f));
        if ok {
          LogGrows(origin, states, log, old(facts), CreatedRule(f), facts);
          log', states' := log + [CreatedRule(f)], states + [facts];
        }
      }
    }

    /** `ensure_family_hooks`: the route first, then the rule, each only if missing. */
    method EnsureFamilyHooks(f: Family, log: seq<Action>, ghost states: seq<Facts>)
      returns (ok: bool, log': seq<Action>, ghost states': seq<Facts>)
      requires Safe() && LogOk(origin, states, log, facts) && !LinksCollide(facts.Of(f))
      modifies this
      ensures old(trace) <= trace && issued >= old(issued)
      ensures Safe() && LogOk(origin, states', log', facts) && states'[0] == states[0]
      ensures ok ==> facts == old(facts).With(f, Links(Owned, Owned))
      ensures !ok ==> facts == old(facts) || facts == old(facts).With(f, old(facts).Of(f).(route := Owned))
      ensures !ok ==> issued > old(issued) && !answers(issued - 1)
      ensures old(facts).Of(f) == Links(Owned, Owned) ==> log' == log
    {
      ok, log', states' := EnsureRoute(f, log, states);
      if ok {
        ok, log', states' := EnsureRule(f, log', states');
      }
    }

    /** Links of the enabled families. */
    method EnsureLinks(ipv6: bool) returns (ok: bool, log: seq<Action>, ghost states: seq<Facts>)
      requires Safe() && !LinksCollide(facts.v4) && (ipv6 ==> !LinksCollide(facts.v6))
      modifies this
      ensures old(trace) <= trace && issued >= old(issued)
      ensures Safe() && LogOk(origin, states, log, facts) && states[0] == old(facts)
      ensures facts == old(facts).(v4 := facts.v4, v6 := facts.v6)
      ensures ok ==> facts.v4 == Links(Owned, Owned) && facts.v6 == if ipv6 then Links(Owned, Owned) else old(facts).v6
      ensures !ok ==> issued > old(issued) && !answers(issued - 1)
    {
      states := [facts];
      ok, log, states := EnsureFamilyHooks(V4, [], states);
      if ok && ipv6 {
        ok, log, states := EnsureFamilyHooks(V6, log, states);
      }
    }

    method DeleteRule(f: Family) returns (ok: bool)
      requires Safe() && !facts.output.OwnedChain? && !facts.router.OwnedChain?
      modifies this
      ensures old(trace) <= trace && issued >= old(issued)
      ensures Safe() && (!ok ==> issued > old(issued) && !answers(issued - 1))
      ensures facts == if ok && old(facts).Of(f).rule.Owned? then old(facts).With(f, old(facts).Of(f).(rule := Absent)) else old(facts)
    {
      ok := true;
      if SlotCheck(facts.Of(f).rule).Ready? {
        FewerLinksServe(facts, f, facts.Of(f).(rule := Absent));
        ok := Run(DelRule(f));
      }
    }

    method DeleteRoute(f: Family) returns (ok: bool)
      requires Safe() && !facts.output.OwnedChain? && !facts.router.OwnedChain? && !facts.Of(f).rule.Owned?
      modifies this
      ensures old(trace) <= trace && issued >= old(issued)
      ensures Safe() && (!ok ==> issued > old(issued) && !answers(issued - 1))
      ensures facts == if ok && old(facts).Of(f).route.Owned? then old(facts).With(f, old(facts).Of(f).(route := Absent)) else old(facts)
    {
      ok := true;
      if SlotCheck(facts.Of(f).route).Ready? {
        FewerLinksServe(facts, f, facts.Of(f).(route := Absent));
        ok := Run(DelRoute(f));
      }
    }

    /** `delete_family_hooks`: the rule first, then the route, each only if owned. */
    method DeleteFamilyHooks(f: Family) returns (ok: bool)
      requires Safe() && !facts.output.OwnedChain? && !facts.router.OwnedChain?
      modifies this
      ensures old(trace) <= trace && issued >= old(issued)
      ensures Safe() && (!ok ==> issued > old(issued) && !answers(issued - 1))
      ensures facts == old(facts).With(f, facts.Of(f))
      ensures ok ==> !facts.Of(f).rule.Owned? && !facts.Of(f).route.Owned?
    {
      ok := DeleteRule(f);
      if ok {
        ok := DeleteRoute(f);
      }
    }

    method DeleteLegacyRule() returns (ok: bool)
      requires Safe()
      modifies this
      ensures old(trace) <= trace && issued >= old(issued)
      ensures Safe() && (!ok ==> issued > old(issued) && !answers(issued - 1))
      ensures facts == old(facts).(legacy := if ok && old(facts).legacy.Owned? then Absent else old(facts).legacy)
    {
      ok := true;
      if SlotCheck(facts.legacy).Ready? {
        assert Served(facts.(legacy := Absent)) by {
          var y := facts.(legacy := Absent);
          assert forall g :: y.Of(g) == facts.Of(g);
          assert ChainServed(y, y.output) && ChainServed(y, y.router);
        }
        ok := Run(DelLegacy);
      }
    }

    // ---- Chains ----

    /** The rules of a freshly created output chain, one command each. */
    method FillOutputChain(o: HookOptions) returns (ok: bool)
      requires Safe() && facts.output == OwnedChain([])
      requires facts.v4.rule.Owned? && (o.ipv6 ==> facts.v6.rule.Owned?)
      modifies this
      ensures old(trace) <= trace && issued >= old(issued)
      ensures Safe() && (!ok ==> issued > old(issued) && !answers(issued - 1))
      ensures facts.output.OwnedChain? && facts == old(facts).(output := facts.output)
      ensures ok ==> facts.output.rules == OutputRules(o)
    {
      var rules := OutputRules(o);
      ghost var start := facts;
      ok := true;
      for i := 0 to |rules|
        invariant Safe() && ok && old(trace) <= trace && issued >= old(issued)
        invariant facts == start.(output := OwnedChain(rules[..i]))
      {
        GrowingOutputIsServed(facts, o, i + 1);
        assert rules[..i] + [rules[i]] == rules[..i + 1];
        ok := Run(AddChainRule(Output, rules[i]));
        if !ok {
          return;
        }
      }
      assert rules[..|rules|] == rules;
    }

    method CreateOutputChain(o: HookOptions) returns (ok: bool)
      requires Safe() && facts.output.NoChain?
      requires facts.v4.rule.Owned? && (o.ipv6 ==> facts.v6.rule.Owned?)
      modifies this
      ensures old(trace) <= trace && issued >= old(issued)
      ensures Safe() && (!ok ==> issued > old(issued) && !answers(issued - 1))
      ensures facts == old(facts).(output := facts.output) && ChainAdded(old(facts).output, facts.output)
      ensures ok ==> facts.output == OwnedChain(OutputRules(o))
    {
      GrowingOutputIsServed(facts, o, 0);
      ok := Run(AddChain(Output));
      if ok {
        ok := FillOutputChain(o);
      }
    }

    /** `ensure_output_chain`: created empty, then filled rule by rule. */
    method EnsureOutputChain(o: HookOptions) returns (ok: bool)
      requires Safe() && !OutputCheck(facts.output, o).Invalid?
      requires facts.v4.rule.Owned? && (o.ipv6 ==> facts.v6.rule.Owned?)
      modifies this
      ensures old(trace) <= trace && issued >= old(issued)
      ensures Safe() && (!ok ==> issued > old(issued) && !answers(issued - 1))
      ensures facts == old(facts).(output := facts.output) && ChainAdded(old(facts).output, facts.output)
      ensures ok ==> facts.output == if old(facts).output.NoChain? then OwnedChain(OutputRules(o)) else old(facts).output
      ensures ok ==> OutputCheck(facts.output, o).Ready?
    {
      ok := true;
      if !OutputCheck(facts.output, o).Ready? {
        OutputMatchesItself(o);
        ok := CreateOutputChain(o);
      }
    }

    /** The rules of a freshly created router chain; the last logged action stays the chain's creation. */
    method FillRouterChain(o: RouterOptions, log: seq<Action>, ghost states: seq<Facts>, ghost before: Facts)
      returns (ok: bool)
      requires Safe() && LogOk(origin, states, log, before) && before.router.NoChain?
      requires facts == before.(router := OwnedChain([]))
      requires facts.v4.rule.Owned? && (o.ipv6 ==> facts.v6.rule.Owned?)
      modifies this
      ensures old(trace) <= trace && issued >= old(issued)
      ensures Safe() && (!ok ==> issued > old(issued) && !answers(issued - 1))
      ensures LogOk(origin, states + [facts], log + [CreatedRouterChain], facts)
      ensures facts.router.OwnedChain? && facts == before.(router := facts.router)
      ensures ok ==> facts.router.rules == RouterRules(o)
    {
      var rules := RouterRules(o);
      ok := true;
      for i := 0 to |rules|
        invariant Safe() && ok && old(trace) <= trace && issued >= old(issued)
        invariant facts == before.(router := OwnedChain(rules[..i]))
      {
        GrowingRouterIsServed(facts, o, i + 1);
        assert rules[..i] + [rules[i]] == rules[..i + 1];
        ok := Run(AddChainRule(Router, rules[i]));
        if !ok {
          break;
        }
      }
      LogGrows(origin, states, log, before, CreatedRouterChain, facts);
      assert rules[..|rules|] == rules;
    }

    /** `ensure_router_chain`: as the output chain, with the creation logged before the rules. */
    method EnsureRouterChain(o: RouterOptions, log: seq<Action>, ghost states: seq<Facts>)
      returns (ok: bool, log': seq<Action>, ghost states': seq<Facts>)
      requires Safe() && LogOk(origin, states, log, facts) && !RouterCheck(facts.router, o).Invalid?
      requires facts.v4.rule.Owned? && (o.ipv6 ==> facts.v6.rule.Owned?)
      modifies this
      ensures old(trace) <= trace && issued >= old(issued)
      ensures Safe() && LogOk(origin, states', log', facts) && states'[0] == states[0]
      ensures !ok ==> issued > old(issued) && !answers(issued - 1)
      ensures facts == old(facts).(router := facts.router)
      ensures ok ==> facts.router == if old(facts).router.NoChain? then OwnedChain(RouterRules(o)) else old(facts).router
    {
      log', states' := log, states;
      if RouterCheck(facts.router, o).Ready? {
        return true, log', states';
      }
      GrowingRouterIsServed(facts, o, 0);
      ok := Run(AddChain(Router));
      if !ok {
        return;
      }
      log' := log + [CreatedRouterChain];
      ok := FillRouterChain(o, log, states, old(facts));
      states' := states + [facts];
      if ok {
        LogGrows(origin, states', log', facts, InstalledRules, facts);
        log', states' := log' + [InstalledRules], states' + [facts];
      }
    }

    method DeleteChain(h: Hook) returns (ok: bool)
      requires Safe() && !facts.At(h).ForeignChain?
      modifies this
      ensures old(trace) <= trace && issued >= old(issued)
      ensures Safe() && (!ok ==> issued > old(issued) && !answers(issued - 1))
      ensures facts == if ok then old(facts).Put(h, NoChain) else old(facts)
    {
      ok := true;
      if ChainCheck(facts.At(h), true).Ready? {
        RemovingChainServes(facts, h);
        ok := Run(DelChain(h));
      }
    }

    // ---- Operations ----

    /** The changing part of `hooks_apply_options_with`. */
    method InstallOutput(o: HookOptions) returns (ok: bool)
      requires Safe() && Accepts(facts, o.ipv6, OutputCheck(facts.output, o))
      modifies this
      ensures old(trace) <= trace && issued >= old(issued)
      ensures Safe() && (!ok ==> issued > old(issued) && !answers(issued - 1))
      ensures OnlyAdded(old(facts), facts) && facts.router == old(facts).router
      ensures ok ==> facts.v4 == Links(Owned, Owned) && (o.ipv6 ==> facts.v6 == Links(Owned, Owned))
      ensures ok ==> OutputCheck(facts.output, o).Ready?
      ensures ok && old(facts).output.NoChain? ==> facts.output == OwnedChain(OutputRules(o))
    {
      var log;
      ghost var states;
      ok, log, states := EnsureLinks(o.ipv6);
      assert OnlyAdded(states[0], states[|log|]);
      if ok {
        ok := EnsureOutputChain(o);
      }
    }

    /** `hooks_apply_options_with`; `prepared` is whether the runtime skeleton is ready. */
    method HooksApply(o: HookOptions, prepared: bool) returns (r: Outcome)
      requires Safe()
      modifies this
      ensures old(trace) <= trace && issued >= old(issued)
      ensures Safe()
      ensures r.Refused? <==> o.serviceUid == 0 || !prepared
                              || !Accepts(old(facts), o.ipv6, OutputCheck(old(facts).output, o))
      ensures r.Refused? ==> facts == old(facts) && issued == old(issued)
      ensures OnlyAdded(old(facts), facts) && facts.router == old(facts).router
      ensures r.Done? ==> facts.v4 == Links(Owned, Owned) && (o.ipv6 ==> facts.v6 == Links(Owned, Owned))
                          && OutputCheck(facts.output, o).Ready?
      ensures r.Done? && old(facts).output.NoChain? ==> facts.output == OwnedChain(OutputRules(o))
      ensures r.Broken? ==> issued > old(issued) && !answers(issued - 1)
    {
      if o.serviceUid == 0 || !prepared || !Accepts(facts, o.ipv6, OutputCheck(facts.output, o)) {
        return Refused;
      }
      var ok := InstallOutput(o);
      return if ok then Done else Broken;
    }

    method UndoOne(a: Action) returns (ok: bool)
      requires Safe() && Good(origin, Undo(facts, a))
      modifies this
      ensures old(trace) <= trace && issued >= old(issued)
      ensures Safe() && (!ok ==> issued > old(issued) && !answers(issued - 1))
      ensures facts == if ok then Undo(old(facts), a) else old(facts)
    {
      match a {
        case CreatedRoute(f) => ok := Run(DelRoute(f));
        case CreatedRule(f) => ok := Run(DelRule(f));
        case CreatedRouterChain => ok := Run(DelChain(Router));
        case InstalledRules => ok := true;
      }
    }

    /** `rollback_router_apply`: the log backwards, stopping at the first command that fails. */
    method RollBack(log: seq<Action>, ghost states: seq<Facts>) returns (ok: bool)
      requires Safe() && LogOk(origin, states, log, facts)
      modifies this
      ensures old(trace) <= trace && issued >= old(issued)
      ensures Safe() && OnlyAdded(states[0], facts)
      ensures ok ==> facts == states[0]
      ensures !ok ==> issued > old(issued) && !answers(issued - 1)
    {
      ok := true;
      assert states[..|log| + 1] == states && log[..|log|] == log;
      for k := |log| downto 0
        invariant Safe() && ok && LogOk(origin, states[..k + 1], log[..k], facts)
        invariant old(trace) <= trace && issued >= old(issued)
      {
        LogShrinks(origin, states[..k + 2], log[..k + 1], facts);
        assert states[..k + 2][..k + 1] == states[..k + 1] && log[..k + 1][..k] == log[..k];
        ok := UndoOne(log[k]);
        if !ok {
          return;
        }
      }
    }

    method InstallRouter(o: RouterOptions) returns (ok: bool, log: seq<Action>, ghost states: seq<Facts>)
      requires Safe() && Accepts(facts, o.ipv6, RouterCheck(facts.router, o))
      modifies this
      ensures old(trace) <= trace && issued >= old(issued)
      ensures Safe() && LogOk(origin, states, log, facts) && states[0] == old(facts)
      ensures !ok ==> issued > old(issued) && !answers(issued - 1)
      ensures facts.output == old(facts).output && facts.legacy == old(facts).legacy
      ensures ok ==> facts.v4 == Links(Owned, Owned) && (o.ipv6 ==> facts.v6 == Links(Owned, Owned))
      ensures ok ==> facts.router == if old(facts).router.NoChain? then OwnedChain(RouterRules(o)) else old(facts).router
    {
      ok, log, states := EnsureLinks(o.ipv6);
      if ok {
        ok, log, states := EnsureRouterChain(o, log, states);
      }
    }

    /**
      `router_hooks_apply_with`; `prepared` is whether options, runtime skeleton and interface are in
      order. A failed apply whose rollback succeeds leaves the host exactly as it was.
    */
    method RouterApply(o: RouterOptions, prepared: bool) returns (r: ApplyOutcome)
      requires Safe()
      modifies this
      ensures old(trace) <= trace && issued >= old(issued)
      ensures Safe()
      ensures r.Rejected? <==> !prepared || !Accepts(old(facts), o.ipv6, RouterCheck(old(facts).router, o))
      ensures r.Rejected? || r.RolledBack? ==> facts == old(facts)
      ensures OnlyAdded(old(facts), facts) && (r.Applied? ==> facts.output == old(facts).output)
      ensures r.Applied? ==> facts.v4 == Links(Owned, Owned) && (o.ipv6 ==> facts.v6 == Links(Owned, Owned))
      ensures r.Applied? ==> facts.router == if old(facts).router.NoChain? then OwnedChain(RouterRules(o)) else old(facts).router
      ensures r.RolledBack? || r.RollbackFailed? ==> exists i :: old(issued) <= i < issued && !answers(i)
      ensures r.RollbackFailed? ==> !answers(issued - 1)
    {
      if !prepared || !Accepts(facts, o.ipv6, RouterCheck(facts.router, o)) {
        return Rejected;
      }
      var ok, log;
      ghost var states;
      ok, log, states := InstallRouter(o);
      assert OnlyAdded(states[0], states[|log|]);
      if ok {
        return Applied(log);
      }
      ok := RollBack(log, states);
      return if ok then RolledBack else RollbackFailed;
    }

    /** Deletes one hook's chain and, if the other hook's chain is not there, the links of both families. */
    method RemoveHook(h: Hook) returns (r: Outcome)
      requires Safe() && !facts.output.ForeignChain? && !facts.router.ForeignChain?
      modifies this
      ensures old(trace) <= trace && issued >= old(issued)
      ensures Safe() && !r.Refused?
      ensures facts.At(Other(h)) == old(facts).At(Other(h))
      ensures old(facts).At(Other(h)).OwnedChain? ==> facts.v4 == old(facts).v4 && facts.v6 == old(facts).v6
      ensures r.Done? ==> facts.At(h).NoChain? && !facts.legacy.Owned?
      ensures r.Done? && !old(facts).At(Other(h)).OwnedChain? ==> NothingOwned(facts)
      ensures r.Broken? ==> issued > old(issued) && !answers(issued - 1)
    {
      var ok := DeleteChain(h);
      if !ok {
        return Broken;
      }
      if !ChainCheck(facts.At(Other(h)), true).Ready? {
        ok := DeleteFamilyHooks(V6);
        if !ok {
          return Broken;
        }
        ok := DeleteFamilyHooks(V4);
        if !ok {
          return Broken;
        }
      }
      ok := DeleteLegacyRule();
      return if ok then Done else Broken;
    }

    /** `hooks_cleanup_with_runner`: refuses every foreign artifact. */
    method HooksCleanup() returns (r: Outcome)
      requires Safe()
      modifies this
      ensures old(trace) <= trace && issued >= old(issued)
      ensures Safe()
      ensures r.Refused? <==> ForeignChains(old(facts)) || LinksCollide(old(facts).v4) || LinksCollide(old(facts).v6)
                              || old(facts).legacy.Foreign?
      ensures r.Refused? ==> facts == old(facts)
      ensures facts.router == old(facts).router
      ensures old(facts).router.OwnedChain? ==> facts.v4 == old(facts).v4 && facts.v6 == old(facts).v6
      ensures r.Done? ==> facts.output.NoChain? && (!old(facts).router.OwnedChain? ==> NothingOwned(facts))
      ensures r.Broken? ==> issued > old(issued) && !answers(issued - 1)
    {
      if ForeignChains(facts) || LinksCollide(facts.v4) || LinksCollide(facts.v6) || SlotCheck(facts.legacy).Invalid? {
        return Refused;
      }
      r := RemoveHook(Output);
    }

    /** `router_hooks_cleanup_with`: refuses foreign chains only; foreign links are left alone. */
    method RouterCleanup() returns (r: Outcome)
      requires Safe()
      modifies this
      ensures old(trace) <= trace && issued >= old(issued)
      ensures Safe()
      ensures r.Refused? <==> ForeignChains(old(facts))
      ensures r.Refused? ==> facts == old(facts)
      ensures facts.output == old(facts).output
      ensures old(facts).output.OwnedChain? ==> facts.v4 == old(facts).v4 && facts.v6 == old(facts).v6
      ensures r.Done? ==> facts.router.NoChain? && (!old(facts).output.OwnedChain? ==> NothingOwned(facts))
      ensures r.Broken? ==> issued > old(issued) && !answers(issued - 1)
    {
      if ForeignChains(facts) {
        return Refused;
      }
      r := RemoveHook(Router);
    }

    // ---- Whole runs ----

    /** All commands from one number up to another succeed. */
    ghost predicate Answered(first: nat, last: nat) {
      forall i :: first <= i < last ==> answers(i)
    }

    method Perform(op: Operation)
      requires Safe()
      modifies this
      ensures old(trace) <= trace && issued >= old(issued)
      ensures Safe() && Effect(op, old(facts), facts, Answered(old(issued), issued))
    {
      match op {
        case ApplyHooks(o, prepared) => var _ := HooksApply(o, prepared);
        case CleanHooks => var _ := HooksCleanup();
        case ApplyRouter(o, prepared) => var _ := RouterApply(o, prepared);
        case CleanRouter => var _ := RouterCleanup();
      }
    }

    /**
      Every sequence of operations, with every pattern of failing commands: each operation has its effect,
      and at each command boundary a captured packet has its rule and route, and the artifacts of others
      are untouched.
    */
    method PerformAll(ops: seq<Operation>) returns (ghost between: seq<Facts>, ghost counts: seq<nat>)
      requires Safe()
      modifies this
      ensures old(trace) <= trace && issued >= old(issued)
      ensures Safe()
      ensures |between| == |counts| == |ops| + 1 && between[0] == old(facts) && between[|ops|] == facts
      ensures counts[0] == old(issued) && counts[|ops|] == issued
      ensures forall i {:trigger ops[i]} :: 0 <= i < |ops| ==>
                Effect(ops[i], between[i], between[i + 1], Answered(counts[i], counts[i + 1]))
    {
      between, counts := [facts], [issued];
      for i := 0 to |ops|
        invariant Safe() && old(trace) <= trace && issued >= old(issued)
        invariant |between| == |counts| == i + 1 && between[0] == old(facts) && between[i] == facts
        invariant counts[0] == old(issued) && counts[i] == issued
        invariant forall j {:trigger ops[j]} :: 0 <= j < i ==>
                    Effect(ops[j], between[j], between[j + 1], Answered(counts[j], counts[j + 1]))
      {
        Perform(ops[i]);
        between, counts := between + [facts], counts + [issued];
      }
    }
  }
}
