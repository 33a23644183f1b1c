/**
  Forwarding-graph selection (crates/dynet-runtime/src/stores.rs): groups of nodes linked by their
  `next` references, walked from a start group to a terminal.
*/
module ForwardingGraph {
  import opened ByteStrings
  import opened Orders

  // ---- Orders ----

  datatype Member = Member(groupId: Id, nodeId: Id, priority: int, enabled: bool)

  /** Lower priority first, then node id. */
  predicate MemberLe(a: Member, b: Member) {
    a.priority < b.priority || (a.priority == b.priority && IdLe(a.nodeId, b.nodeId))
  }

  lemma MemberLeOrder(a: Member, b: Member, c: Member)
    ensures MemberLe(a, b) || MemberLe(b, a)
    ensures MemberLe(a, b) && MemberLe(b, c) ==> MemberLe(a, c)
  {
    IdLeTotal(a.nodeId, b.nodeId);
    if IdLe(a.nodeId, b.nodeId) && IdLe(b.nodeId, c.nodeId) {
      IdLeTransitive(a.nodeId, b.nodeId, c.nodeId);
    }
  }

  predicate Sorted(ms: seq<Member>) {
    forall i, j :: 0 <= i < j < |ms| ==> MemberLe(ms[i], ms[j])
  }

  // ---- The stores ----

  datatype Node = Node(id: Id, enabled: bool, supportsIpv6: bool)

  datatype NextRef = DirectAuditOutlet | Named(name: Id)

  datatype Group = Group(id: Id, enabled: bool, scheduler: nat, next: NextRef)

  datatype Family = Ipv4 | Ipv6

  type NodeStore = map<Id, Node>

  datatype GroupStore = GroupStore(defaultGroup: Option<Id>, groups: map<Id, Group>, members: map<Id, seq<Member>>)

  /** What building the store establishes: groups by id, members by group in selection order. */
  predicate StoreOk(s: GroupStore) {
    && (forall g :: g in s.groups ==> s.groups[g].id == g)
    && (forall g :: g in s.members ==> Sorted(s.members[g]))
    && (forall g, i :: g in s.members && 0 <= i < |s.members[g]| ==> s.members[g][i].groupId == g)
  }

  /** The members of one group, in list order. */
  function Belonging(ms: seq<Member>, g: Id): seq<Member> {
    if ms == [] then []
    else
      var front, last := Belonging(ms[..|ms| - 1], g), ms[|ms| - 1];
      if last.groupId == g then front + [last] else front
  }

  lemma {:induction false} BelongingBelong(ms: seq<Member>, g: Id)
    ensures forall i :: 0 <= i < |Belonging(ms, g)| ==> Belonging(ms, g)[i].groupId == g
  {
    if ms != [] {
      BelongingBelong(ms[..|ms| - 1], g);
    }
  }

  /** The per-group lists before sorting: exactly the groups that have members. */
  ghost predicate Grouped(m: map<Id, seq<Member>>, ms: seq<Member>) {
    && (forall g :: g in m <==> Belonging(ms, g) != [])
    && (forall g :: g in m ==> m[g] == Belonging(ms, g))
  }

  /** The loop of `from_parts` that distributes members over their groups. */
  method GroupMembers(ms: seq<Member>) returns (m: map<Id, seq<Member>>)
    ensures Grouped(m, ms)
  {
    m := map[];
    for i := 0 to |ms|
      invariant Grouped(m, ms[..i])
    {
      var member := ms[i];
      var before := if member.groupId in m then m[member.groupId] else [];
      ghost var previous := m;
      m := m[member.groupId := before + [member]];
      assert ms[..i + 1][..i] == ms[..i];
      forall g
        ensures g in m <==> Belonging(ms[..i + 1], g) != []
        ensures g in m ==> m[g] == Belonging(ms[..i + 1], g)
      {
        assert Belonging(ms[..i + 1], g)
            == if member.groupId == g then Belonging(ms[..i], g) + [member] else Belonging(ms[..i], g);
        assert g != member.groupId ==> (g in m <==> g in previous);
      }
    }
    assert ms[..|ms|] == ms;
  }

  /** Insertion keeping equal elements in their order, so that the sort is stable. */
  function InsertMember(ms: seq<Member>, x: Member): (r: seq<Member>)
    ensures multiset(r) == multiset(ms) + multiset{x}
  {
    if ms == [] then [x]
    else if MemberLe(ms[|ms| - 1], x) then ms + [x]
    else
      var front := InsertMember(ms[..|ms| - 1], x);
      assert ms == ms[..|ms| - 1] + [ms[|ms| - 1]];
      front + [ms[|ms| - 1]]
  }

  lemma {:induction false} InsertKeepsSorted(ms: seq<Member>, x: Member)
    requires Sorted(ms)
    ensures Sorted(InsertMember(ms, x))
  {
    if ms == [] {
    } else {
      var n := |ms| - 1;
      var last, front := ms[n], ms[..n];
      MemberLeOrder(last, x, x);
      if MemberLe(last, x) {
        forall i | 0 <= i < n
          ensures MemberLe(ms[i], x)
        {
          MemberLeOrder(ms[i], last, x);
        }
      } else {
        InsertKeepsSorted(front, x);
        var r := InsertMember(front, x);
        forall i | 0 <= i < |r|
          ensures MemberLe(r[i], last)
        {
          assert r[i] in multiset(r);
          assert r[i] == x || r[i] in multiset(front);
        }
      }
    }
  }

  function SortMembers(ms: seq<Member>): (r: seq<Member>)
    ensures multiset(r) == multiset(ms)
  {
    if ms == [] then []
    else
      assert ms == ms[..|ms| - 1] + [ms[|ms| - 1]];
      InsertMember(SortMembers(ms[..|ms| - 1]), ms[|ms| - 1])
  }

  lemma {:induction false} SortMembersSorts(ms: seq<Member>)
    ensures Sorted(SortMembers(ms))
  {
    if ms != [] {
      SortMembersSorts(ms[..|ms| - 1]);
      InsertKeepsSorted(SortMembers(ms[..|ms| - 1]), ms[|ms| - 1]);
    }
  }

  predicate LeastEnabled(groups: map<Id, Group>, g: Id) {
    g in groups && groups[g].enabled && forall h :: h in groups && groups[h].enabled ==> IdLe(g, h)
  }

  lemma {:induction false} LeastEnabledExists(groups: map<Id, Group>, ids: set<Id>)
    requires ids != {} && forall g :: g in ids <==> g in groups && groups[g].enabled
    ensures exists g :: LeastEnabled(groups, g)
    decreases |ids|
  {
    var g :| g in ids;
    var rest := groups - {g};
    if ids == {g} {
      IdLeTotal(g, g);
      assert LeastEnabled(groups, g);
    } else {
      LeastEnabledExists(rest, ids - {g});
      var h :| LeastEnabled(rest, h);
      var least := if IdLe(g, h) then g else h;
      forall x | x in groups && groups[x].enabled
        ensures IdLe(least, x)
      {
        IdLeTotal(g, h);
        IdLeTotal(x, x);
        if x != g {
          assert x in rest && rest[x].enabled;
          if least == g {
            IdLeTransitive(g, h, x);
          }
        }
      }
      assert LeastEnabled(groups, least);
    }
  }

  /** The wanted default if it is enabled, else the enabled group with the least id, else none. */
  predicate IsDefault(groups: map<Id, Group>, wanted: Id, d: Option<Id>) {
    if wanted in groups && groups[wanted].enabled then d == Some(wanted)
    else match d
         case Some(g) => LeastEnabled(groups, g)
         case None => forall h :: h in groups ==> !groups[h].enabled
  }

  /** The group a later entry with the same id does not replace. */
  predicate LastWithId(gs: seq<Group>, id: Id, group: Group) {
    exists i :: 0 <= i < |gs| && gs[i] == group && group.id == id && forall j :: i < j < |gs| ==> gs[j].id != id
  }

  lemma LastWithIdSnoc(gs: seq<Group>, last: Group)
    ensures LastWithId(gs + [last], last.id, last)
    ensures forall id, group :: id != last.id && LastWithId(gs, id, group) ==> LastWithId(gs + [last], id, group)
  {
    assert (gs + [last])[|gs|] == last;
    forall id, group | id != last.id && LastWithId(gs, id, group)
      ensures LastWithId(gs + [last], id, group)
    {
      var i :| 0 <= i < |gs| && gs[i] == group && group.id == id && forall j :: i < j < |gs| ==> gs[j].id != id;
      assert (gs + [last])[i] == group;
    }
  }

  /** `from_parts`: groups by id, members of each group as a stable-sorted permutation of its input members. */
  method FromParts(wanted: Id, groupList: seq<Group>, memberList: seq<Member>) returns (s: GroupStore)
    ensures StoreOk(s) && IsDefault(s.groups, wanted, s.defaultGroup)
    ensures forall i :: 0 <= i < |groupList| ==> groupList[i].id in s.groups
    ensures forall g :: g in s.groups ==> LastWithId(groupList, g, s.groups[g])
    ensures forall g :: g in s.members <==> Belonging(memberList, g) != []
    ensures forall g :: g in s.members ==> s.members[g] == SortMembers(Belonging(memberList, g))
  {
    var groups: map<Id, Group> := map[];
    for i := 0 to |groupList|
      invariant forall g :: g in groups ==> groups[g].id == g
      invariant forall j :: 0 <= j < i ==> groupList[j].id in groups
      invariant forall g :: g in groups ==> LastWithId(groupList[..i], g, groups[g])
    {
      LastWithIdSnoc(groupList[..i], groupList[i]);
      assert groupList[..i + 1] == groupList[..i] + [groupList[i]];
      groups := groups[groupList[i].id := groupList[i]];
    }
    assert groupList[..|groupList|] == groupList;
    var grouped := GroupMembers(memberList);
    var sorted := map g | g in grouped :: SortMembers(grouped[g]);
    forall g | g in sorted
      ensures Sorted(sorted[g])
      ensures forall i :: 0 <= i < |sorted[g]| ==> sorted[g][i].groupId == g
    {
      SortMembersSorts(grouped[g]);
      BelongingBelong(memberList, g);
      forall i | 0 <= i < |sorted[g]|
        ensures sorted[g][i].groupId == g
      {
        assert sorted[g][i] in multiset(sorted[g]);
        assert sorted[g][i] in grouped[g];
      }
    }
    var chosen: Option<Id> := None;
    if wanted in groups && groups[wanted].enabled {
      chosen := Some(wanted);
    } else {
      var enabled := set g | g in groups && groups[g].enabled;
      if enabled != {} {
        LeastEnabledExists(groups, enabled);
        var g: Id :| g in enabled && LeastEnabled(groups, g);
        chosen := Some(g);
      } else {
        assert forall h :: h in groups ==> h !in enabled;
      }
    }
    s := GroupStore(chosen, groups, sorted);
  }

  // ---- One hop ----

  predicate NodeEnabled(nodes: NodeStore, id: Id) {
    id in nodes && nodes[id].enabled
  }

  predicate Eligible(nodes: NodeStore, id: Id, family: Family) {
    NodeEnabled(nodes, id) && (family.Ipv4? || nodes[id].supportsIpv6)
  }

  predicate IsCandidate(m: Member, nodes: NodeStore, family: Family) {
    m.enabled && Eligible(nodes, m.nodeId, family)
  }

  /** The eligible members, in member order. */
  function Candidates(ms: seq<Member>, nodes: NodeStore, family: Family): (r: seq<Member>)
    ensures forall m :: m in r <==> m in ms && IsCandidate(m, nodes, family)
  {
    if ms == [] then []
    else
      var front, last := Candidates(ms[..|ms| - 1], nodes, family), ms[|ms| - 1];
      if IsCandidate(last, nodes, family) then front + [last] else front
  }

  /** Candidates of a sorted list are sorted, so the first one is the least. */
  lemma {:induction false} CandidatesSorted(ms: seq<Member>, nodes: NodeStore, family: Family)
    requires Sorted(ms)
    ensures Sorted(Candidates(ms, nodes, family))
  {
    if ms != [] {
      var n := |ms| - 1;
      CandidatesSorted(ms[..n], nodes, family);
      var front := Candidates(ms[..n], nodes, family);
      forall i | 0 <= i < |front|
        ensures MemberLe(front[i], ms[n])
      {
        assert front[i] in front;
        assert front[i] in ms[..n];
        var j :| 0 <= j < n && ms[j] == front[i];
      }
    }
  }

  datatype Error = GroupMissing | GroupDisabled | NoMembers | NoCapableNode | NextCycle

  datatype Result<+T> = Ok(value: T) | Err(error: Error)

  /** Whether a group can be passed, and with which candidates. */
  function CheckHop(s: GroupStore, nodes: NodeStore, family: Family, g: Id): (r: Result<seq<Member>>)
    ensures r.Ok? ==> g in s.groups && s.groups[g].enabled && r.value != []
  {
    if g !in s.groups then Err(GroupMissing)
    else if !s.groups[g].enabled then Err(GroupDisabled)
    else if g !in s.members then Err(NoMembers)
    else
      var candidates := Candidates(s.members[g], nodes, family);
      if candidates == [] then Err(NoCapableNode) else Ok(candidates)
  }

  datatype TraceHop = TraceHop(groupId: Id, nodeId: Id, next: NextRef, scheduler: nat, candidateCount: nat)

  /** What the selector is shown and what it answers; the hop number stands for whatever state it keeps. */
  type Selector = (nat, Id, seq<Member>) -> Option<Id>

  predicate Names(candidates: seq<Member>, choice: Option<Id>) {
    choice.Some? && exists m :: m in candidates && m.nodeId == choice.value
  }

  predicate LeastCandidate(candidates: seq<Member>, id: Id) {
    exists least :: least in candidates && least.nodeId == id && forall m :: m in candidates ==> MemberLe(least, m)
  }

  /**
    A hop of a trace: its node is an eligible member of its group, the one the selector names if it names
    one, else the least by priority and node id.
  */
  ghost predicate HopOk(s: GroupStore, nodes: NodeStore, family: Family, select: Selector, index: nat, hop: TraceHop) {
    && CheckHop(s, nodes, family, hop.groupId).Ok?
    && var candidates := CheckHop(s, nodes, family, hop.groupId).value;
       var choice := select(index, hop.groupId, candidates);
       && (exists m :: m in candidates && m.nodeId == hop.nodeId)
       && (if Names(candidates, choice) then hop.nodeId == choice.value else LeastCandidate(candidates, hop.nodeId))
       && hop.next == s.groups[hop.groupId].next && hop.scheduler == s.groups[hop.groupId].scheduler
       && hop.candidateCount == |candidates|
  }

  lemma LeastIsFirst(ms: seq<Member>, nodes: NodeStore, family: Family, candidates: seq<Member>)
    requires Sorted(ms) && candidates == Candidates(ms, nodes, family) && candidates != []
    ensures LeastCandidate(candidates, candidates[0].nodeId)
  {
    CandidatesSorted(ms, nodes, family);
    var least := candidates[0];
    assert least in candidates;
    forall m | m in candidates
      ensures MemberLe(least, m)
    {
      var j :| 0 <= j < |candidates| && candidates[j] == m;
      MemberLeOrder(least, least, least);
    }
  }

  /** The candidates, collected in a loop. */
  method CollectCandidates(ms: seq<Member>, nodes: NodeStore, family: Family) returns (r: seq<Member>)
    ensures r == Candidates(ms, nodes, family)
  {
    r := [];
    for i := 0 to |ms|
      invariant r == Candidates(ms[..i], nodes, family)
    {
      assert ms[..i + 1][..i] == ms[..i];
      if ms[i].enabled && Eligible(nodes, ms[i].nodeId, family) {
        r := r + [ms[i]];
      }
    }
    assert ms[..|ms|] == ms;
  }

  /** Whether some candidate is the node given. */
  method HasNode(candidates: seq<Member>, id: Id) returns (found: bool)
    ensures found <==> exists m :: m in candidates && m.nodeId == id
  {
    for i := 0 to |candidates|
      invariant forall j :: 0 <= j < i ==> candidates[j].nodeId != id
    {
      if candidates[i].nodeId == id {
        return true;
      }
    }
    return false;
  }

  /**
    `select_group_hop`: which error exactly when; otherwise the node is an eligible member, the one the
    selector names if it is eligible and else the least by priority and node id.
  */
  method SelectGroupHop(s: GroupStore, g: Id, nodes: NodeStore, family: Family, select: Selector, index: nat)
    returns (r: Result<TraceHop>)
    requires StoreOk(s)
    ensures r == Err(GroupMissing) <==> g !in s.groups
    ensures r == Err(GroupDisabled) <==> g in s.groups && !s.groups[g].enabled
    ensures r == Err(NoMembers) <==> g in s.groups && s.groups[g].enabled && g !in s.members
    ensures r == Err(NoCapableNode) <==> g in s.groups && s.groups[g].enabled && g in s.members
                                         && forall m :: m in s.members[g] ==> !IsCandidate(m, nodes, family)
    ensures r != Err(NextCycle)
    ensures r.Ok? ==> r.value.groupId == g && HopOk(s, nodes, family, select, index, r.value)
    ensures r.Err? ==> CheckHop(s, nodes, family, g) == Err(r.error)
  {
    if g !in s.groups {
      return Err(GroupMissing);
    }
    var group := s.groups[g];
    if !group.enabled {
      return Err(GroupDisabled);
    }
    if g !in s.members {
      return Err(NoMembers);
    }
    var candidates := CollectCandidates(s.members[g], nodes, family);
    if candidates == [] {
      return Err(NoCapableNode);
    }
    assert candidates[0] in candidates;
    var selected := candidates[0].nodeId;
    var choice := select(index, group.id, candidates);
    if choice.Some? {
      var found := HasNode(candidates, choice.value);
      if found {
        selected := choice.value;
      }
    }
    r := Ok(TraceHop(group.id, selected, group.next, group.scheduler, |candidates|));
    LeastIsFirst(s.members[g], nodes, family, candidates);
  }

  // ---- Routes ----

  datatype Terminal = Outlet | AtNode(id: Id)

  /** Where a group's next reference ends the walk; None if it leads to another group. */
  function TerminalOf(nodes: NodeStore, next: NextRef): Option<Terminal> {
    match next
    case DirectAuditOutlet => Some(Outlet)
    case Named(name) => if NodeEnabled(nodes, name) then Some(AtNode(name)) else None
  }

  /** A chain of passable groups along next references from g to a terminal. */
  predicate IsRoute(s: GroupStore, nodes: NodeStore, family: Family, g: Id, path: seq<Id>, terminal: Terminal)
    decreases |path|
  {
    && path != [] && path[0] == g
    && CheckHop(s, nodes, family, g).Ok?
    && match TerminalOf(nodes, s.groups[g].next)
       case Some(t) => |path| == 1 && t == terminal
       case None => IsRoute(s, nodes, family, s.groups[g].next.name, path[1..], terminal)
  }

  /** The walk as a function of the stores alone: no selector appears in it. */
  function Walk(s: GroupStore, nodes: NodeStore, family: Family, g: Id, seen: set<Id>): Result<(seq<Id>, Terminal)>
    decreases s.groups.Keys - seen
  {
    if g in seen then Err(NextCycle)
    else match CheckHop(s, nodes, family, g)
         case Err(e) => Err(e)
         case Ok(_) =>
           match TerminalOf(nodes, s.groups[g].next)
           case Some(t) => Ok(([g], t))
           case None =>
             match Walk(s, nodes, family, s.groups[g].next.name, seen + {g})
             case Err(e) => Err(e)
             case Ok((path, t)) => Ok(([g] + path, t))
  }

  /** A route determines its own length: the group at any position leads to its end in the remaining number of hops. */
  lemma {:induction false} RouteIsDetermined(s: GroupStore, nodes: NodeStore, family: Family, g: Id,
                                             p: seq<Id>, t: Terminal, q: seq<Id>, u: Terminal)
    requires IsRoute(s, nodes, family, g, p, t) && IsRoute(s, nodes, family, g, q, u)
    ensures p == q && t == u
    decreases |p|
  {
    if TerminalOf(nodes, s.groups[g].next).None? {
      RouteIsDetermined(s, nodes, family, s.groups[g].next.name, p[1..], t, q[1..], u);
    }
    assert p == [p[0]] + p[1..] && q == [q[0]] + q[1..];
  }

  lemma {:induction false} RouteSuffix(s: GroupStore, nodes: NodeStore, family: Family, g: Id, p: seq<Id>, t: Terminal, i: nat)
    requires IsRoute(s, nodes, family, g, p, t) && i < |p|
    ensures IsRoute(s, nodes, family, p[i], p[i..], t)
    decreases |p|
  {
    if i == 0 {
      assert p[0..] == p;
    } else {
      RouteSuffix(s, nodes, family, s.groups[g].next.name, p[1..], t, i - 1);
      assert p[1..][i - 1..] == p[i..];
    }
  }

  /** A route never passes the same group twice: it would have to continue from there in two lengths. */
  lemma RouteNeverRepeats(s: GroupStore, nodes: NodeStore, family: Family, g: Id, p: seq<Id>, t: Terminal)
    requires IsRoute(s, nodes, family, g, p, t)
    ensures forall i, j :: 0 <= i < j < |p| ==> p[i] != p[j]
  {
    forall i, j | 0 <= i < j < |p|
      ensures p[i] != p[j]
    {
      RouteSuffix(s, nodes, family, g, p, t, i);
      RouteSuffix(s, nodes, family, g, p, t, j);
      if p[i] == p[j] {
        RouteIsDetermined(s, nodes, family, p[i], p[i..], t, p[j..], t);
      }
    }
  }

  /** The walk finds the route if and only if there is one that avoids the groups already seen. */
  lemma {:induction false} WalkIff(s: GroupStore, nodes: NodeStore, family: Family, g: Id, seen: set<Id>, p: seq<Id>, t: Terminal)
    ensures Walk(s, nodes, family, g, seen) == Ok((p, t))
       <==> IsRoute(s, nodes, family, g, p, t) && forall i :: 0 <= i < |p| ==> p[i] !in seen
    decreases s.groups.Keys - seen
  {
    if g !in seen && CheckHop(s, nodes, family, g).Ok? && TerminalOf(nodes, s.groups[g].next).None? {
      var next := s.groups[g].next.name;
      if p != [] {
        WalkIff(s, nodes, family, next, seen + {g}, p[1..], t);
        assert p == [p[0]] + p[1..];
        assert (forall i :: 0 <= i < |p[1..]| ==> p[1..][i] !in seen + {g})
          <==> forall i :: 1 <= i < |p| ==> p[i] !in seen && p[i] != g by {
          assert forall i :: 1 <= i < |p| ==> p[i] == p[1..][i - 1];
        }
        if IsRoute(s, nodes, family, g, p, t) {
          RouteNeverRepeats(s, nodes, family, g, p, t);
        }
      }
      assert forall x: seq<Id> :: ([g] + x)[1..] == x;
    } else if |p| == 1 {
      assert p == [p[0]];
    }
  }

  /** The groups a trace passes. */
  function TraceGroups(trace: seq<TraceHop>): (r: seq<Id>)
    ensures |r| == |trace| && forall i :: 0 <= i < |r| ==> r[i] == trace[i].groupId
  {
    seq(|trace|, i requires 0 <= i < |trace| => trace[i].groupId)
  }

  datatype Selection = Selection(trace: seq<TraceHop>, terminal: Terminal, scheduler: nat, candidateCount: nat)

  ghost predicate HopsOk(s: GroupStore, nodes: NodeStore, family: Family, select: Selector, trace: seq<TraceHop>) {
    forall i :: 0 <= i < |trace| ==> HopOk(s, nodes, family, select, i, trace[i])
  }

  lemma HopsSnoc(s: GroupStore, nodes: NodeStore, family: Family, select: Selector, trace: seq<TraceHop>, hop: TraceHop)
    requires HopsOk(s, nodes, family, select, trace) && HopOk(s, nodes, family, select, |trace|, hop)
    ensures HopsOk(s, nodes, family, select, trace + [hop])
    ensures TraceGroups(trace + [hop]) == TraceGroups(trace) + [hop.groupId]
  {
    forall i | 0 <= i < |trace| + 1
      ensures HopOk(s, nodes, family, select, i, (trace + [hop])[i])
    {
      assert i < |trace| ==> HopOk(s, nodes, family, select, i, trace[i]);
    }
  }

  /** The rest of the walk, put behind the groups already passed. */
  function Resume(done: seq<Id>, rest: Result<(seq<Id>, Terminal)>): Result<(seq<Id>, Terminal)> {
    match rest
    case Err(e) => Err(e)
    case Ok((path, t)) => Ok((done + path, t))
  }

  lemma ResumeStep(done: seq<Id>, g: Id, rest: Result<(seq<Id>, Terminal)>)
    ensures Resume(done, Resume([g], rest)) == Resume(done + [g], rest)
  {
    if rest.Ok? {
      Assoc(done, [g], rest.value.0);
    }
  }

  /**
    `select_graph_with`. It succeeds exactly when the selector-free walk does, with the same groups in
    the same order, the same terminal and the same error otherwise; every hop's node is an eligible
    member. It terminates on every store, cyclic or dangling.
  */
  method SelectGraph(s: GroupStore, start: Id, nodes: NodeStore, family: Family, select: Selector)
    returns (r: Result<Selection>)
    requires StoreOk(s)
    ensures match Walk(s, nodes, family, start, {})
            case Err(e) => r == Err(e)
            case Ok((path, t)) =>
              && r.Ok? && TraceGroups(r.value.trace) == path && r.value.terminal == t
              && HopsOk(s, nodes, family, select, r.value.trace)
              && r.value.trace != []
              && r.value.scheduler == r.value.trace[0].scheduler
              && r.value.candidateCount == r.value.trace[0].candidateCount
  {
    var current := start;
    var seen: set<Id> := {};
    var trace: seq<TraceHop> := [];
    ghost var whole := Walk(s, nodes, family, start, {});
    assert TraceGroups(trace) == [];
    assert Resume([], whole) == whole by {
      if whole.Ok? {
        assert [] + whole.value.0 == whole.value.0;
      }
    }
    while true
      invariant whole == Resume(TraceGroups(trace), Walk(s, nodes, family, current, seen))
      invariant HopsOk(s, nodes, family, select, trace)
      decreases s.groups.Keys - seen
    {
      if current in seen {
        return Err(NextCycle);
      }
      var hop := SelectGroupHop(s, current, nodes, family, select, |trace|);
      if hop.Err? {
        return Err(hop.error);
      }
      ghost var done := TraceGroups(trace);
      assert HopOk(s, nodes, family, select, |trace|, hop.value);
      HopsSnoc(s, nodes, family, select, trace, hop.value);
      trace := trace + [hop.value];
      match hop.value.next {
        case DirectAuditOutlet =>
          return Ok(Selection(trace, Outlet, trace[0].scheduler, trace[0].candidateCount));
        case Named(name) =>
          if NodeEnabled(nodes, name) {
            return Ok(Selection(trace, AtNode(name), trace[0].scheduler, trace[0].candidateCount));
          }
          ResumeStep(done, current, Walk(s, nodes, family, name, seen + {current}));
          seen := seen + {current};
          current := name;
      }
    }
  }

  /** The node of a hop is an enabled member of its group that the stores hold eligible for the family. */
  lemma HopNodeIsEligible(s: GroupStore, nodes: NodeStore, family: Family, select: Selector, index: nat, hop: TraceHop)
    requires StoreOk(s) && HopOk(s, nodes, family, select, index, hop)
    ensures exists m :: m in s.members[hop.groupId] && m.groupId == hop.groupId && m.nodeId == hop.nodeId && m.enabled
    ensures Eligible(nodes, hop.nodeId, family)
  {
    var candidates := CheckHop(s, nodes, family, hop.groupId).value;
    var m :| m in candidates && m.nodeId == hop.nodeId;
    assert m in s.members[hop.groupId];
  }
}
