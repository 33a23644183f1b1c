/**
  The capture chains' rules and which packets they mark (output_rules in
  crates/dynet-capture/src/linux/hooks.rs, router_rules in router_ingress.rs next to it).
*/
module CaptureRules {
  import opened ByteStrings

  datatype Family = V4 | V6

  datatype Protocol = Tcp | Udp | OtherProtocol

  type Cidr = string

  /** A packet, with the address blocks its endpoints lie in. */
  datatype Packet = Packet(family: Family, uid: nat, marked: bool, protocol: Protocol, sport: nat, dport: nat, local: bool,
                           iface: string, sources: set<Cidr>, dests: set<Cidr>)

  datatype ChainRule =
    | SkipUid(uid: nat)
    | SkipMarked
    | SkipV6
    | SkipLocal
    | SkipDest(family: Family, block: Cidr)
    | SkipSsh(towards: bool)
    | MarkAll(protocol: Protocol)
    | MarkSource(iface: string, family: Family, block: Cidr, protocol: Protocol)

  /** The rule lets the packet leave the chain. */
  predicate Skips(r: ChainRule, p: Packet) {
    match r
    case SkipUid(uid) => p.uid == uid
    case SkipMarked => p.marked
    case SkipV6 => p.family.V6?
    case SkipLocal => p.local
    case SkipDest(f, block) => p.family == f && block in p.dests
    case SkipSsh(towards) => p.protocol.Tcp? && (if towards then p.dport else p.sport) == 22
    case MarkAll(_) => false
    case MarkSource(_, _, _, _) => false
  }

  /** The rule sets the capture mark on the packet. */
  predicate Marks(r: ChainRule, p: Packet) {
    match r
    case MarkAll(protocol) => p.protocol == protocol
    case MarkSource(iface, f, block, protocol) =>
      p.iface == iface && p.family == f && block in p.sources && p.protocol == protocol
    case _ => false
  }

  /** Evaluating a chain rule by rule: whether the packet gets the mark. */
  predicate Captured(rules: seq<ChainRule>, p: Packet) {
    rules != [] && !Skips(rules[0], p) && (Marks(rules[0], p) || Captured(rules[1..], p))
  }

  lemma {:induction false} CapturedIff(rules: seq<ChainRule>, p: Packet)
    ensures Captured(rules, p)
       <==> exists i :: 0 <= i < |rules| && Marks(rules[i], p) && forall j :: 0 <= j <= i ==> !Skips(rules[j], p)
  {
    if rules != [] {
      var rest := rules[1..];
      CapturedIff(rest, p);
      if Captured(rest, p) && !Skips(rules[0], p) {
        var i :| 0 <= i < |rest| && Marks(rest[i], p) && forall j :: 0 <= j <= i ==> !Skips(rest[j], p);
        assert Marks(rules[i + 1], p);
        forall j | 0 <= j <= i + 1
          ensures !Skips(rules[j], p)
        {
          assert j > 0 ==> rules[j] == rest[j - 1];
        }
      }
      if i :| 0 <= i < |rules| && Marks(rules[i], p) && forall j :: 0 <= j <= i ==> !Skips(rules[j], p) {
        if i > 0 {
          assert Marks(rest[i - 1], p);
          assert forall j :: 0 <= j <= i - 1 ==> rest[j] == rules[j + 1];
        }
      }
    }
  }

  /** A chain whose mark rules come last captures what no guard lets go and some mark rule takes. */
  lemma GuardsThenMarks(guards: seq<ChainRule>, marks: seq<ChainRule>, p: Packet)
    requires forall g :: g in guards ==> !Marks(g, p)
    requires forall m :: m in marks ==> !Skips(m, p)
    ensures Captured(guards + marks, p) <==> NoneSkips(guards, p) && exists m :: m in marks && Marks(m, p)
  {
    var rules, n := guards + marks, |guards|;
    CapturedIff(rules, p);
    forall j | 0 <= j < n
      ensures !Marks(rules[j], p)
    {
      assert guards[j] in guards;
    }
    if Captured(rules, p) {
      var i :| 0 <= i < |rules| && Marks(rules[i], p) && forall j :: 0 <= j <= i ==> !Skips(rules[j], p);
      assert rules[i] == marks[i - n];
      forall g | g in guards
        ensures !Skips(g, p)
      {
        var j :| 0 <= j < n && guards[j] == g;
        assert rules[j] == g;
      }
    }
    if (forall g :: g in guards ==> !Skips(g, p)) && exists m :: m in marks && Marks(m, p) {
      var m :| m in marks && Marks(m, p);
      var k :| 0 <= k < |marks| && marks[k] == m;
      assert rules[n + k] == m;
      forall j | 0 <= j <= n + k
        ensures !Skips(rules[j], p)
      {
        assert rules[j] in guards || rules[j] in marks;
      }
    }
  }

  /** The packet goes to one of the blocks. */
  predicate GoesTo(p: Packet, blocks: seq<Cidr>) {
    exists b :: b in blocks && b in p.dests
  }

  function SkipDests(f: Family, blocks: seq<Cidr>): (r: seq<ChainRule>)
    ensures |r| == |blocks| && forall i :: 0 <= i < |r| ==> r[i] == SkipDest(f, blocks[i])
  {
    seq(|blocks|, i requires 0 <= i < |blocks| => SkipDest(f, blocks[i]))
  }

  predicate NoneSkips(rules: seq<ChainRule>, p: Packet) {
    forall g :: g in rules ==> !Skips(g, p)
  }

  lemma DestsSkip(f: Family, blocks: seq<Cidr>, p: Packet)
    ensures NoneSkips(SkipDests(f, blocks), p) <==> (p.family == f ==> !GoesTo(p, blocks))
  {
    var rules := SkipDests(f, blocks);
    if p.family == f && GoesTo(p, blocks) {
      var b :| b in blocks && b in p.dests;
      var i :| 0 <= i < |blocks| && blocks[i] == b;
      assert rules[i] in rules && Skips(rules[i], p);
    }
  }

  lemma NoneOfBothSkips(a: seq<ChainRule>, b: seq<ChainRule>, p: Packet)
    ensures NoneSkips(a + b, p) <==> NoneSkips(a, p) && NoneSkips(b, p)
  {
    assert forall g :: g in a + b <==> g in a || g in b;
  }

  lemma NoneOfTwoSkips(x: ChainRule, y: ChainRule, p: Packet)
    ensures NoneSkips([x], p) <==> !Skips(x, p)
    ensures NoneSkips([x, y], p) <==> !Skips(x, p) && !Skips(y, p)
  {
    assert x in [x] && x in [x, y] && y in [x, y];
  }

  // ---- The output chain ----

  datatype HookOptions = HookOptions(serviceUid: nat, ipv6: bool)

  function OutputHead(o: HookOptions): seq<ChainRule> {
    if o.ipv6 then
      [SkipUid(o.serviceUid), SkipMarked, SkipDest(V6, "::1"), SkipDest(V6, "fe80::/10"), SkipDest(V6, "ff00::/8")]
    else
      [SkipUid(o.serviceUid), SkipMarked, SkipV6]
  }

  const OUTPUT_TAIL: seq<ChainRule> :=
    [SkipDest(V4, "127.0.0.0/8"), SkipDest(V4, "169.254.0.0/16"), SkipDest(V4, "224.0.0.0/4"),
     SkipDest(V4, "255.255.255.255"), SkipSsh(false), SkipSsh(true), MarkAll(Tcp), MarkAll(Udp)]

  function OutputRules(o: HookOptions): seq<ChainRule> {
    OutputHead(o) + OUTPUT_TAIL
  }

  /** What the status check looks for in an owned output chain. */
  predicate OutputMatches(rules: seq<ChainRule>, o: HookOptions) {
    && SkipUid(o.serviceUid) in rules
    && (if o.ipv6 then SkipDest(V6, "::1") in rules else SkipV6 in rules)
    && SkipMarked in rules && MarkAll(Tcp) in rules && MarkAll(Udp) in rules
  }

  /**
    However far its installation got, an output chain never captures the service's own packets, packets
    already marked, or IPv6 packets when IPv6 is off.
  */
  lemma OutputCapturesOnlyEnabled(o: HookOptions, k: nat, p: Packet)
    requires k <= |OutputRules(o)| && Captured(OutputRules(o)[..k], p)
    ensures p.uid != o.serviceUid && !p.marked && (p.family.V4? || o.ipv6)
  {
    var rules := OutputRules(o)[..k];
    CapturedIff(rules, p);
    var i :| 0 <= i < |rules| && Marks(rules[i], p) && forall j :: 0 <= j <= i ==> !Skips(rules[j], p);
    assert i > 2;
    assert !Skips(rules[0], p) && !Skips(rules[1], p) && !Skips(rules[2], p);
  }

  /** Destinations that stay on the host or its links. */
  function HostBlocks(f: Family): seq<Cidr> {
    if f.V4? then ["127.0.0.0/8", "169.254.0.0/16", "224.0.0.0/4", "255.255.255.255"] else ["::1", "fe80::/10", "ff00::/8"]
  }

  /** The protocols that are captured. */
  predicate TcpOrUdp(p: Packet) {
    p.protocol.Tcp? || p.protocol.Udp?
  }

  predicate IsSsh(p: Packet) {
    p.protocol.Tcp? && (p.sport == 22 || p.dport == 22)
  }

  /**
    What the complete output chain captures: unmarked TCP and UDP packets of other users and enabled
    families, except to the host's own blocks and except TCP from or to port 22.
  */
  lemma OutputCapturesIff(o: HookOptions, p: Packet)
    ensures Captured(OutputRules(o), p)
       <==> && p.uid != o.serviceUid && !p.marked && (p.family.V4? || o.ipv6) && TcpOrUdp(p)
            && !GoesTo(p, HostBlocks(p.family)) && !IsSsh(p)
  {
    var guards, marks := OutputHead(o) + OUTPUT_TAIL[..6], OUTPUT_TAIL[6..];
    assert OutputRules(o) == guards + marks;
    assert marks == [MarkAll(Tcp), MarkAll(Udp)];
    GuardsThenMarks(guards, marks, p);
    assert (exists m :: m in marks && Marks(m, p)) <==> TcpOrUdp(p) by {
      assert MarkAll(Tcp) in marks && MarkAll(Udp) in marks;
    }
    NoneOfBothSkips(OutputHead(o), OUTPUT_TAIL[..6], p);
    OutputHeadSkips(o, p);
    OutputTailSkips(p);
  }

  lemma OutputTailSkips(p: Packet)
    ensures NoneSkips(OUTPUT_TAIL[..6], p) <==> !IsSsh(p) && (p.family.V4? ==> !GoesTo(p, HostBlocks(V4)))
  {
    assert OUTPUT_TAIL[..6] == SkipDests(V4, HostBlocks(V4)) + [SkipSsh(false), SkipSsh(true)];
    NoneOfBothSkips(SkipDests(V4, HostBlocks(V4)), [SkipSsh(false), SkipSsh(true)], p);
    DestsSkip(V4, HostBlocks(V4), p);
    NoneOfTwoSkips(SkipSsh(false), SkipSsh(true), p);
  }

  lemma OutputHeadSkips(o: HookOptions, p: Packet)
    ensures NoneSkips(OutputHead(o), p)
       <==> p.uid != o.serviceUid && !p.marked && (p.family.V6? ==> o.ipv6 && !GoesTo(p, HostBlocks(V6)))
  {
    var six := if o.ipv6 then SkipDests(V6, HostBlocks(V6)) else [SkipV6];
    assert OutputHead(o) == [SkipUid(o.serviceUid), SkipMarked] + six;
    NoneOfBothSkips([SkipUid(o.serviceUid), SkipMarked], six, p);
    NoneOfTwoSkips(SkipUid(o.serviceUid), SkipMarked, p);
    DestsSkip(V6, HostBlocks(V6), p);
    NoneOfTwoSkips(SkipV6, SkipV6, p);
  }

  /** The status check accepts a partly installed chain if and only if it is complete and built for the same options. */
  lemma OutputMatchesIff(built: HookOptions, k: nat, o: HookOptions)
    requires k <= |OutputRules(built)|
    ensures OutputMatches(OutputRules(built)[..k], o) <==> k == |OutputRules(built)| && o == built
  {
    LastOutputRule(built, k);
    if k == |OutputRules(built)| {
      assert OutputRules(built)[..k] == OutputRules(built);
      OutputMarkers(built, o);
    }
  }

  /** The rule that is installed last. */
  lemma LastOutputRule(o: HookOptions, k: nat)
    requires k <= |OutputRules(o)|
    ensures MarkAll(Udp) in OutputRules(o)[..k] ==> k == |OutputRules(o)|
  {
    forall i | 0 <= i < k
      ensures OutputRules(o)[..k][i] == OutputRules(o)[i]
    {
    }
  }

  /** The rules that tell the options. */
  lemma OutputMarkers(built: HookOptions, o: HookOptions)
    ensures OutputMatches(OutputRules(built), o) <==> o == built
  {
    var rules := OutputRules(built);
    var n := |rules|;
    assert rules[0] == SkipUid(built.serviceUid) && rules[1] == SkipMarked;
    assert rules[2] == if built.ipv6 then SkipDest(V6, "::1") else SkipV6;
    assert rules[n - 2] == MarkAll(Tcp) && rules[n - 1] == MarkAll(Udp);
    assert SkipUid(o.serviceUid) in rules ==> o.serviceUid == built.serviceUid;
    assert SkipV6 in rules <==> !built.ipv6;
    assert SkipDest(V6, "::1") in rules <==> built.ipv6;
  }

  lemma OutputMatchesItself(o: HookOptions)
    ensures OutputMatches(OutputRules(o), o)
  {
    OutputMatchesIff(o, |OutputRules(o)|, o);
    assert OutputRules(o)[..|OutputRules(o)|] == OutputRules(o);
  }

  // ---- The router chain ----

  datatype RouterOptions = RouterOptions(iface: string, sources4: seq<Cidr>, sources6: seq<Cidr>, ipv6: bool)

  const ROUTER_HEAD: seq<ChainRule> :=
    [SkipMarked, SkipLocal, SkipDest(V4, "0.0.0.0/8"), SkipDest(V4, "10.0.0.0/8"), SkipDest(V4, "127.0.0.0/8"),
     SkipDest(V4, "169.254.0.0/16"), SkipDest(V4, "172.16.0.0/12"), SkipDest(V4, "192.168.0.0/16"),
     SkipDest(V4, "224.0.0.0/4"), SkipDest(V4, "255.255.255.255")]

  function RouterSix(ipv6: bool): seq<ChainRule> {
    if ipv6 then
      [SkipDest(V6, "::1"), SkipDest(V6, "fe80::/10"), SkipDest(V6, "fc00::/7"), SkipDest(V6, "ff00::/8")]
    else
      [SkipV6]
  }

  /** Two mark rules for each source block. */
  function SourceMarks(iface: string, f: Family, blocks: seq<Cidr>): seq<ChainRule> {
    if blocks == [] then []
    else [MarkSource(iface, f, blocks[0], Tcp), MarkSource(iface, f, blocks[0], Udp)] + SourceMarks(iface, f, blocks[1..])
  }

  lemma {:induction false} SourceMarksMembers(iface: string, f: Family, blocks: seq<Cidr>, x: ChainRule)
    ensures x in SourceMarks(iface, f, blocks)
       <==> x.MarkSource? && x.iface == iface && x.family == f && x.block in blocks && !x.protocol.OtherProtocol?
  {
    if blocks != [] {
      SourceMarksMembers(iface, f, blocks[1..], x);
      var two := [MarkSource(iface, f, blocks[0], Tcp), MarkSource(iface, f, blocks[0], Udp)];
      assert x in SourceMarks(iface, f, blocks) <==> x in two || x in SourceMarks(iface, f, blocks[1..]);
      assert x in two <==> x == two[0] || x == two[1];
    }
  }

  function RouterMarks(o: RouterOptions): seq<ChainRule> {
    SourceMarks(o.iface, V4, o.sources4) + if o.ipv6 then SourceMarks(o.iface, V6, o.sources6) else []
  }

  function RouterRules(o: RouterOptions): seq<ChainRule> {
    ROUTER_HEAD + RouterSix(o.ipv6) + RouterMarks(o)
  }

  /** The guards the status check looks for. */
  predicate GuardsMatch(rules: seq<ChainRule>, ipv6: bool) {
    && SkipMarked in rules && SkipLocal in rules
    && (if ipv6 then SkipDest(V6, "fe80::/10") in rules && SkipDest(V6, "fc00::/7") in rules
                     && SkipDest(V6, "ff00::/8") in rules
        else SkipV6 in rules)
    && SkipDest(V4, "10.0.0.0/8") in rules && SkipDest(V4, "172.16.0.0/12") in rules
    && SkipDest(V4, "192.168.0.0/16") in rules
  }

  /** The position of the first slash, or the length. */
  function SlashAt(b: Cidr): (i: nat)
    ensures i <= |b| && (forall j :: 0 <= j < i ==> b[j] != '/') && (i < |b| ==> b[i] == '/')
  {
    if b == [] || b[0] == '/' then 0 else 1 + SlashAt(b[1..])
  }

  function AddressOf(b: Cidr): string {
    b[..SlashAt(b)]
  }

  /** The block is a single address. */
  predicate IsHost(f: Family, b: Cidr) {
    SlashAt(b) < |b| && b[SlashAt(b) + 1..] == if f.V4? then "32" else "128"
  }

  /** How a listing writes a source block: a single address goes without its prefix length. */
  function Shown(f: Family, b: Cidr): string {
    if IsHost(f, b) then AddressOf(b) else b
  }

  /**
    `source_matches` on the part of a listed rule behind `saddr`: the text looked for, the block or for
    a single address the address alone, only has to begin there.
  */
  predicate SourceMatches(f: Family, shown: string, wanted: Cidr) {
    wanted <= shown || (IsHost(f, wanted) && AddressOf(wanted) <= shown)
  }

  /** The listed line of `rule` passes for the mark rule `wanted`. */
  predicate Finds(wanted: ChainRule, rule: ChainRule) {
    && wanted.MarkSource? && rule.MarkSource?
    && rule.iface == wanted.iface && rule.family == wanted.family && rule.protocol == wanted.protocol
    && SourceMatches(rule.family, Shown(rule.family, rule.block), wanted.block)
  }

  predicate Found(wanted: ChainRule, rules: seq<ChainRule>) {
    exists r :: r in rules && Finds(wanted, r)
  }

  predicate AllFound(wanted: seq<ChainRule>, rules: seq<ChainRule>) {
    forall x :: x in wanted ==> Found(x, rules)
  }

  /** What the status check looks for in an owned router chain: the guards and every wanted source, in any order. */
  predicate RouterMatches(rules: seq<ChainRule>, o: RouterOptions) {
    GuardsMatch(rules, o.ipv6) && AllFound(RouterMarks(o), rules)
  }

  lemma RouterMarkRule(o: RouterOptions, i: nat)
    requires i < |RouterRules(o)| && (RouterRules(o)[i].MarkSource? || RouterRules(o)[i].MarkAll?)
    ensures RouterRules(o)[i] in RouterMarks(o)
  {
    var h := ROUTER_HEAD + RouterSix(o.ipv6);
    if i < |h| {
      assert false;
    }
    assert RouterRules(o)[i] == RouterMarks(o)[i - |h|];
  }

  lemma RouterMarksAreScoped(o: RouterOptions, r: ChainRule)
    requires r in RouterMarks(o)
    ensures r.MarkSource? && r.iface == o.iface && (r.family.V4? || o.ipv6)
  {
    SourceMarksMembers(o.iface, V4, o.sources4, r);
    SourceMarksMembers(o.iface, V6, o.sources6, r);
  }

  lemma RouterCapturesOnlyEnabled(o: RouterOptions, k: nat, p: Packet)
    requires k <= |RouterRules(o)| && Captured(RouterRules(o)[..k], p)
    ensures p.iface == o.iface && !p.marked && (p.family.V4? || o.ipv6)
  {
    var all := RouterRules(o);
    var rules := all[..k];
    CapturedIff(rules, p);
    var i :| 0 <= i < |rules| && Marks(rules[i], p) && forall j :: 0 <= j <= i ==> !Skips(rules[j], p);
    var rule := all[i];
    assert Marks(rule, p);
    RouterMarkRule(o, i);
    RouterMarksAreScoped(o, rule);
    assert !Skips(rules[0], p);
    assert all[0] == SkipMarked;
  }

  /** Everything before the mark rules. */
  function RouterGuards(ipv6: bool): seq<ChainRule> {
    ROUTER_HEAD + RouterSix(ipv6)
  }

  /** Destinations that are not routed to the outside. */
  function PrivateBlocks(f: Family): seq<Cidr> {
    if f.V4? then ["0.0.0.0/8", "10.0.0.0/8", "127.0.0.0/8", "169.254.0.0/16", "172.16.0.0/12", "192.168.0.0/16",
                   "224.0.0.0/4", "255.255.255.255"]
    else ["::1", "fe80::/10", "fc00::/7", "ff00::/8"]
  }

  function SourcesOf(o: RouterOptions, f: Family): seq<Cidr> {
    if f.V4? then o.sources4 else o.sources6
  }

  /**
    What the complete router chain captures: unmarked TCP and UDP packets that come in on its interface
    from one of its sources of an enabled family and go neither to the host nor to private blocks.
  */
  lemma RouterCapturesIff(o: RouterOptions, p: Packet)
    ensures Captured(RouterRules(o), p)
       <==> && !p.marked && !p.local && (p.family.V4? || o.ipv6) && TcpOrUdp(p) && !GoesTo(p, PrivateBlocks(p.family))
            && p.iface == o.iface && exists b :: b in SourcesOf(o, p.family) && b in p.sources
  {
    var guards, marks := RouterGuards(o.ipv6), RouterMarks(o);
    assert RouterRules(o) == guards + marks;
    forall m | m in marks
      ensures !Skips(m, p)
    {
      RouterMarksAreScoped(o, m);
    }
    forall g | g in guards
      ensures !Marks(g, p)
    {
      GuardsDoNotMark(o.ipv6, g, p);
    }
    GuardsThenMarks(guards, marks, p);
    RouterGuardsSkip(o.ipv6, p);
    RouterMarksTake(o, p);
  }

  lemma RouterMarksTake(o: RouterOptions, p: Packet)
    ensures (exists m :: m in RouterMarks(o) && Marks(m, p))
       <==> && (p.family.V4? || o.ipv6) && TcpOrUdp(p) && p.iface == o.iface
            && exists b :: b in SourcesOf(o, p.family) && b in p.sources
  {
    if m :| m in RouterMarks(o) && Marks(m, p) {
      SourceMarksMembers(o.iface, V4, o.sources4, m);
      SourceMarksMembers(o.iface, V6, o.sources6, m);
    }
    if (p.family.V4? || o.ipv6) && TcpOrUdp(p) && p.iface == o.iface {
      if b :| b in SourcesOf(o, p.family) && b in p.sources {
        var m := MarkSource(o.iface, p.family, b, p.protocol);
        SourceMarksMembers(o.iface, p.family, SourcesOf(o, p.family), m);
        assert m in RouterMarks(o) && Marks(m, p);
      }
    }
  }

  lemma RouterGuardsSkip(ipv6: bool, p: Packet)
    ensures NoneSkips(RouterGuards(ipv6), p)
       <==> !p.marked && !p.local && (p.family.V4? || ipv6) && !GoesTo(p, PrivateBlocks(p.family))
  {
    NoneOfBothSkips(ROUTER_HEAD, RouterSix(ipv6), p);
    RouterHeadSkips(p);
    RouterSixSkips(ipv6, p);
  }

  lemma RouterHeadSkips(p: Packet)
    ensures NoneSkips(ROUTER_HEAD, p) <==> !p.marked && !p.local && (p.family.V4? ==> !GoesTo(p, PrivateBlocks(V4)))
  {
    var dests := SkipDests(V4, PrivateBlocks(V4));
    RouterHeadIs(dests);
    NoneOfBothSkips([SkipMarked, SkipLocal], dests, p);
    NoneOfTwoSkips(SkipMarked, SkipLocal, p);
    DestsSkip(V4, PrivateBlocks(V4), p);
  }

  lemma RouterHeadIs(dests: seq<ChainRule>)
    requires dests == SkipDests(V4, PrivateBlocks(V4))
    ensures ROUTER_HEAD == [SkipMarked, SkipLocal] + dests
  {
    assert |dests| == 8;
    forall i | 0 <= i < 10
      ensures ROUTER_HEAD[i] == ([SkipMarked, SkipLocal] + dests)[i]
    {
      assert i >= 2 ==> dests[i - 2] == SkipDest(V4, PrivateBlocks(V4)[i - 2]);
    }
  }

  lemma RouterSixSkips(ipv6: bool, p: Packet)
    ensures NoneSkips(RouterSix(ipv6), p) <==> (p.family.V6? ==> ipv6 && !GoesTo(p, PrivateBlocks(V6)))
  {
    assert RouterSix(ipv6) == if ipv6 then SkipDests(V6, PrivateBlocks(V6)) else [SkipV6];
    DestsSkip(V6, PrivateBlocks(V6), p);
    NoneOfTwoSkips(SkipV6, SkipV6, p);
  }

  /** A piece of the guards passes for them if and only if it is all of them, for the same families. */
  lemma GuardsMatchIff(built: bool, k: nat, ipv6: bool)
    requires k <= |RouterGuards(built)|
    ensures GuardsMatch(RouterGuards(built)[..k], ipv6) <==> k == |RouterGuards(built)| && ipv6 == built
  {
    if k == |RouterGuards(built)| {
      assert RouterGuards(built)[..k] == RouterGuards(built);
      AllGuardsMatch(built);
    }
    if built {
      LastGuardOfSix(k);
    } else {
      LastGuardOfFour(k);
    }
  }

  lemma AllGuardsMatch(built: bool)
    ensures GuardsMatch(RouterGuards(built), built)
  {
    var guards := RouterGuards(built);
    assert guards[0] == SkipMarked && guards[1] == SkipLocal && guards[3] == SkipDest(V4, "10.0.0.0/8");
    assert guards[6] == SkipDest(V4, "172.16.0.0/12") && guards[7] == SkipDest(V4, "192.168.0.0/16");
    if built {
      assert guards[11] == SkipDest(V6, "fe80::/10") && guards[12] == SkipDest(V6, "fc00::/7");
      assert guards[13] == SkipDest(V6, "ff00::/8");
    } else {
      assert guards[10] == SkipV6;
    }
  }

  lemma LastGuardOfSix(k: nat)
    requires k <= |RouterGuards(true)|
    ensures SkipV6 !in RouterGuards(true)[..k]
    ensures SkipDest(V6, "ff00::/8") in RouterGuards(true)[..k] ==> k == |RouterGuards(true)|
  {
    forall i | 0 <= i < k
      ensures RouterGuards(true)[..k][i] == RouterGuards(true)[i]
    {
    }
  }

  lemma LastGuardOfFour(k: nat)
    requires k <= |RouterGuards(false)|
    ensures SkipDest(V6, "ff00::/8") !in RouterGuards(false)[..k]
    ensures SkipV6 in RouterGuards(false)[..k] ==> k == |RouterGuards(false)|
  {
    forall i | 0 <= i < k
      ensures RouterGuards(false)[..k][i] == RouterGuards(false)[i]
    {
    }
  }

  lemma GuardsAreNoMarks(ipv6: bool, r: ChainRule)
    requires r in RouterGuards(ipv6)
    ensures !r.MarkSource?
  {
  }

  /** A chain of guards and marks passes if and only if its guards and its marks do. */
  lemma MatchesByParts(guards: seq<ChainRule>, built: bool, marks: seq<ChainRule>, o: RouterOptions)
    requires guards <= RouterGuards(built) && forall x :: x in marks ==> x.MarkSource?
    ensures RouterMatches(guards + marks, o)
       <==> GuardsMatch(guards, o.ipv6) && AllFound(RouterMarks(o), marks)
  {
    assert forall x: ChainRule :: !x.MarkSource? ==> (x in guards + marks <==> x in guards);
    forall x
      ensures Found(x, guards + marks) <==> Found(x, marks)
    {
      FoundBehindGuards(guards, built, marks, x);
    }
  }

  lemma FoundBehindGuards(guards: seq<ChainRule>, built: bool, marks: seq<ChainRule>, x: ChainRule)
    requires guards <= RouterGuards(built)
    ensures Found(x, guards + marks) <==> Found(x, marks)
  {
    if r :| r in guards + marks && Finds(x, r) {
      if r in guards {
        assert r in RouterGuards(built);
        GuardsAreNoMarks(built, r);
      }
      assert r in marks;
    }
    if r :| r in marks && Finds(x, r) {
      assert r in guards + marks;
    }
  }

  lemma RouterRulesCut(o: RouterOptions, k: nat, head: nat)
    requires k <= |RouterRules(o)| && head == |RouterGuards(o.ipv6)|
    ensures k <= head ==> RouterRules(o)[..k] == RouterGuards(o.ipv6)[..k] + []
    ensures k >= head ==> RouterRules(o)[..k] == RouterGuards(o.ipv6) + RouterMarks(o)[..k - head]
  {
  }

  /**
    The router counterpart of OutputMatchesIff: the status check accepts a partly installed chain if
    and only if its guards are complete and built for the same families, and every wanted mark rule is
    found among the mark rules reached.
  */
  lemma RouterMatchesIff(built: RouterOptions, k: nat, o: RouterOptions, head: nat)
    requires k <= |RouterRules(built)| && head == |RouterGuards(built.ipv6)|
    ensures RouterMatches(RouterRules(built)[..k], o)
       <==> k >= head && o.ipv6 == built.ipv6 && AllFound(RouterMarks(o), RouterMarks(built)[..k - head])
  {
    var guards := RouterGuards(built.ipv6);
    RouterRulesCut(built, k, head);
    if k < head {
      GuardsMatchIff(built.ipv6, k, o.ipv6);
      MatchesByParts(guards[..k], built.ipv6, [], o);
    } else {
      GuardsMatchIff(built.ipv6, head, o.ipv6);
      assert guards[..head] == guards;
      forall x | x in RouterMarks(built)[..k - head]
        ensures x.MarkSource?
      {
        RouterMarksAreScoped(built, x);
      }
      MatchesByParts(guards, built.ipv6, RouterMarks(built)[..k - head], o);
    }
  }

  lemma FindsItself(o: RouterOptions, x: ChainRule)
    requires x in RouterMarks(o)
    ensures Finds(x, x)
  {
    RouterMarksAreScoped(o, x);
  }

  /** For its own options a chain passes if and only if every mark rule that is missing is found among those reached. */
  lemma OwnChainMatchesIff(o: RouterOptions, k: nat, head: nat)
    requires k <= |RouterRules(o)| && head == |RouterGuards(o.ipv6)|
    ensures RouterMatches(RouterRules(o)[..k], o)
       <==> k >= head && AllFound(RouterMarks(o)[k - head..], RouterMarks(o)[..k - head])
  {
    RouterMatchesIff(o, k, o, head);
    if k >= head {
      ReachedAreFound(o, k - head);
    }
  }

  lemma ReachedAreFound(o: RouterOptions, j: nat)
    requires j <= |RouterMarks(o)|
    ensures AllFound(RouterMarks(o), RouterMarks(o)[..j]) <==> AllFound(RouterMarks(o)[j..], RouterMarks(o)[..j])
  {
    var marks := RouterMarks(o);
    forall x | x in marks[..j]
      ensures Found(x, marks[..j])
    {
      FindsItself(o, x);
    }
    SplitMembers(marks, j);
  }

  lemma SplitMembers<T>(xs: seq<T>, j: nat)
    requires j <= |xs|
    ensures forall x :: x in xs <==> x in xs[..j] || x in xs[j..]
  {
    assert xs == xs[..j] + xs[j..];
  }

  // ---- Which scopes the check cannot tell from a part of themselves ----

  lemma {:induction false} SourceMarksAt(iface: string, f: Family, blocks: seq<Cidr>, i: nat)
    ensures |SourceMarks(iface, f, blocks)| == 2 * |blocks|
    ensures i < |blocks| ==>
              && SourceMarks(iface, f, blocks)[2 * i] == MarkSource(iface, f, blocks[i], Tcp)
              && SourceMarks(iface, f, blocks)[2 * i + 1] == MarkSource(iface, f, blocks[i], Udp)
  {
    if blocks != [] {
      SourceMarksAt(iface, f, blocks[1..], if i == 0 then 0 else i - 1);
    }
  }

  /** The sources whose mark rules are installed last. */
  function LastFamily(o: RouterOptions): Family {
    if o.ipv6 && o.sources6 != [] then V6 else V4
  }

  function LastSources(o: RouterOptions): seq<Cidr> {
    if LastFamily(o).V6? then o.sources6 else o.sources4
  }

  /** The last of the sources passes for found where an earlier one is listed. */
  predicate LastIsConfused(f: Family, blocks: seq<Cidr>) {
    blocks != [] && exists i :: 0 <= i < |blocks| - 1 && SourceMatches(f, Shown(f, blocks[i]), blocks[|blocks| - 1])
  }

  predicate IsMarkOf(x: ChainRule, f: Family) {
    x.MarkSource? && x.family == f
  }

  /** The mark rules of the last sources, behind those of the other family. */
  ghost predicate EndsWith(marks: seq<ChainRule>, own: seq<ChainRule>, f: Family) {
    |own| <= |marks| && marks[|marks| - |own|..] == own && forall x :: x in marks[..|marks| - |own|] ==> !IsMarkOf(x, f)
  }

  /** Where the mark rules of the last sources lie. */
  lemma LastMarks(o: RouterOptions, n: nat)
    requires n == |RouterMarks(o)|
    ensures var own := SourceMarks(o.iface, LastFamily(o), LastSources(o));
            && |own| == 2 * |LastSources(o)| <= n && EndsWith(RouterMarks(o), own, LastFamily(o))
  {
    var a, b := SourceMarks(o.iface, V4, o.sources4), SourceMarks(o.iface, V6, o.sources6);
    SourceMarksAt(o.iface, V4, o.sources4, 0);
    SourceMarksAt(o.iface, V6, o.sources6, 0);
    if LastFamily(o).V6? {
      assert RouterMarks(o)[..|a|] == a && RouterMarks(o)[|a|..] == b;
      forall x | x in a
        ensures !IsMarkOf(x, V6)
      {
        SourceMarksMembers(o.iface, V4, o.sources4, x);
      }
    } else {
      assert RouterMarks(o) == a;
    }
  }

  /** A UDP mark rule that is not the last one belongs to a source that is not the last one. */
  lemma EarlierUdpMark(iface: string, f: Family, blocks: seq<Cidr>, t: nat) returns (i: nat)
    requires t < 2 * |blocks| - 1 && |SourceMarks(iface, f, blocks)| == 2 * |blocks|
    requires SourceMarks(iface, f, blocks)[t].MarkSource? && SourceMarks(iface, f, blocks)[t].protocol.Udp?
    ensures i < |blocks| - 1 && SourceMarks(iface, f, blocks)[t] == MarkSource(iface, f, blocks[i], Udp)
  {
    i := t / 2;
    SourceMarksAt(iface, f, blocks, i);
    assert t == 2 * i || t == 2 * i + 1;
  }

  lemma OwnMark(marks: seq<ChainRule>, own: seq<ChainRule>, f: Family, j: nat)
    requires EndsWith(marks, own, f) && j < |own|
    ensures marks[|marks| - |own| + j] == own[j]
  {
    assert marks[|marks| - |own|..][j] == own[j];
  }

  lemma OtherMark(marks: seq<ChainRule>, own: seq<ChainRule>, f: Family, t: nat)
    requires EndsWith(marks, own, f) && t < |marks| - |own|
    ensures !IsMarkOf(marks[t], f)
  {
    assert marks[..|marks| - |own|][t] == marks[t];
  }

  /** Within the mark rules of one family. */
  lemma OwnFoundMeansConfused(iface: string, f: Family, blocks: seq<Cidr>, last: nat, t: nat)
    requires |blocks| == last + 1 && t < 2 * |blocks| - 1 && |SourceMarks(iface, f, blocks)| == 2 * |blocks|
    requires Finds(MarkSource(iface, f, blocks[last], Udp), SourceMarks(iface, f, blocks)[t])
    ensures LastIsConfused(f, blocks)
  {
    var i := EarlierUdpMark(iface, f, blocks, t);
    assert SourceMatches(f, Shown(f, blocks[i]), blocks[last]);
  }

  lemma ConfusedMeansOwnFound(iface: string, f: Family, blocks: seq<Cidr>, last: nat) returns (t: nat)
    requires |blocks| == last + 1 && LastIsConfused(f, blocks)
    ensures t < 2 * |blocks| - 1 && |SourceMarks(iface, f, blocks)| == 2 * |blocks|
    ensures Finds(MarkSource(iface, f, blocks[last], Udp), SourceMarks(iface, f, blocks)[t])
  {
    var i :| 0 <= i < last && SourceMatches(f, Shown(f, blocks[i]), blocks[last]);
    SourceMarksAt(iface, f, blocks, i);
    t := 2 * i + 1;
  }

  /** Within all mark rules. */
  lemma FoundIsOwn(marks: seq<ChainRule>, own: seq<ChainRule>, f: Family, wanted: ChainRule) returns (t: nat)
    requires marks != [] && EndsWith(marks, own, f) && IsMarkOf(wanted, f) && Found(wanted, marks[..|marks| - 1])
    ensures t < |own| - 1 && Finds(wanted, own[t])
  {
    var r :| r in marks[..|marks| - 1] && Finds(wanted, r);
    var u :| 0 <= u < |marks[..|marks| - 1]| && marks[..|marks| - 1][u] == r;
    if u < |marks| - |own| {
      OtherMark(marks, own, f, u);
      assert false;
    }
    t := u - (|marks| - |own|);
    OwnMark(marks, own, f, t);
  }

  lemma OwnIsFound(marks: seq<ChainRule>, own: seq<ChainRule>, f: Family, wanted: ChainRule, t: nat)
    requires EndsWith(marks, own, f) && t < |own| - 1 && Finds(wanted, own[t])
    ensures Found(wanted, marks[..|marks| - 1])
  {
    OwnMark(marks, own, f, t);
    FoundAt(marks, |marks| - |own| + t, wanted);
  }

  lemma FoundAt(marks: seq<ChainRule>, t: nat, wanted: ChainRule)
    requires t < |marks| - 1 && Finds(wanted, marks[t])
    ensures Found(wanted, marks[..|marks| - 1])
  {
    assert marks[..|marks| - 1][t] == marks[t];
  }

  /** The last mark rule is found among the others if and only if the last source is confused with an earlier one. */
  lemma LastMarkFoundIff(o: RouterOptions, n: nat)
    requires n == |RouterMarks(o)| > 0
    ensures Found(RouterMarks(o)[n - 1], RouterMarks(o)[..n - 1]) <==> LastIsConfused(LastFamily(o), LastSources(o))
  {
    var f, blocks, marks := LastFamily(o), LastSources(o), RouterMarks(o);
    LastMarks(o, n);
    var last := LastMarkIs(o, n);
    var own := SourceMarks(o.iface, f, blocks);
    if Found(marks[n - 1], marks[..n - 1]) {
      var t := FoundIsOwn(marks, own, f, marks[n - 1]);
      OwnFoundMeansConfused(o.iface, f, blocks, last, t);
    }
    if LastIsConfused(f, blocks) {
      var t := ConfusedMeansOwnFound(o.iface, f, blocks, last);
      OwnIsFound(marks, own, f, marks[n - 1], t);
    }
  }

  lemma LastMarkIs(o: RouterOptions, n: nat) returns (last: nat)
    requires n == |RouterMarks(o)| > 0
    ensures |LastSources(o)| == last + 1
    ensures RouterMarks(o)[n - 1] == MarkSource(o.iface, LastFamily(o), LastSources(o)[last], Udp)
  {
    LastMarks(o, n);
    var f, blocks, marks := LastFamily(o), LastSources(o), RouterMarks(o);
    if blocks == [] {
      assert false;
    }
    last := |blocks| - 1;
    SourceMarksAt(o.iface, f, blocks, last);
    assert marks[n - 1] == marks[n - 2 * |blocks|..][2 * last + 1];
  }

  /**
    Some incomplete chain passes for its own options if and only if the source that is installed last
    passes for found where an earlier one of its family is listed.
  */
  lemma IncompletePassesIff(o: RouterOptions)
    ensures (exists k: nat :: k < |RouterRules(o)| && RouterMatches(RouterRules(o)[..k], o))
       <==> LastIsConfused(LastFamily(o), LastSources(o))
  {
    var head, marks, n := |RouterGuards(o.ipv6)|, RouterMarks(o), |RouterMarks(o)|;
    if n == 0 {
      LastMarks(o, n);
    } else {
      LastMarkFoundIff(o, n);
      OwnChainMatchesIff(o, head + n - 1, head);
      assert marks[n - 1..] == [marks[n - 1]];
    }
    forall k: nat | k < |RouterRules(o)| && RouterMatches(RouterRules(o)[..k], o)
      ensures n > 0 && Found(marks[n - 1], marks[..n - 1])
    {
      OwnChainMatchesIff(o, k, head);
      LateFound(marks, k - head, n);
    }
  }

  lemma LateFound(marks: seq<ChainRule>, j: nat, n: nat)
    requires n == |marks| && j < n && AllFound(marks[j..], marks[..j])
    ensures Found(marks[n - 1], marks[..n - 1])
  {
    assert marks[j..][n - 1 - j] == marks[n - 1];
    assert marks[n - 1] in marks[j..];
    var r :| r in marks[..j] && Finds(marks[n - 1], r);
    assert marks[..j] <= marks[..n - 1];
  }

  // ---- An input ----

  lemma HostBlock(address: string)
    requires '/' !in address
    ensures IsHost(V4, address + "/32") && AddressOf(address + "/32") == address
  {
    var b := address + "/32";
    assert b[|address|] == '/';
    assert forall j :: 0 <= j < |address| ==> b[j] == address[j] && address[j] in address;
    assert b[|address| + 1..] == "32";
  }

  /**
    Two single addresses, the second of which begins like the first: a chain cut between them is taken
    for complete, and a packet from the second alone is not captured.
  */
  lemma CutBetweenHosts(iface: string, first: string, second: string, o: RouterOptions, k: nat, p: Packet)
    requires '/' !in first && '/' !in second && second <= first && first != second
    requires o == RouterOptions(iface, [first + "/32", second + "/32"], [], false) && k == |RouterGuards(false)| + 2
    requires p.sources == {second + "/32"}
    ensures o.sources4[0] != o.sources4[1] && k < |RouterRules(o)|
    ensures RouterMatches(RouterRules(o)[..k], o) && !Captured(RouterRules(o)[..k], p)
  {
    HostBlock(first);
    HostBlock(second);
    var a, b := first + "/32", second + "/32";
    HostMarks(iface, a, b, o);
    TwoFound(RouterMarks(o));
    OwnChainMatchesIff(o, k, |RouterGuards(false)|);
    NotCaptured(o, k, a, p);
  }

  lemma TwoFound(marks: seq<ChainRule>)
    requires |marks| == 4 && Finds(marks[2], marks[0]) && Finds(marks[3], marks[1])
    ensures AllFound(marks[2..], marks[..2])
  {
    assert marks[2..] == [marks[2], marks[3]];
    assert marks[0] in marks[..2] && marks[1] in marks[..2];
  }

  lemma HostMarks(iface: string, a: Cidr, b: Cidr, o: RouterOptions)
    requires o == RouterOptions(iface, [a, b], [], false)
    ensures RouterMarks(o) == [MarkSource(iface, V4, a, Tcp), MarkSource(iface, V4, a, Udp),
                               MarkSource(iface, V4, b, Tcp), MarkSource(iface, V4, b, Udp)]
  {
    SourceMarksAt(iface, V4, [a, b], 0);
    SourceMarksAt(iface, V4, [a, b], 1);
  }

  lemma NotCaptured(o: RouterOptions, k: nat, a: Cidr, p: Packet)
    requires k == |RouterGuards(o.ipv6)| + 2 <= |RouterRules(o)| && a !in p.sources
    requires RouterMarks(o)[..2] == [MarkSource(o.iface, V4, a, Tcp), MarkSource(o.iface, V4, a, Udp)]
    ensures !Captured(RouterRules(o)[..k], p)
  {
    var rules := RouterRules(o)[..k];
    RouterRulesCut(o, k, |RouterGuards(o.ipv6)|);
    CapturedIff(rules, p);
    forall i | 0 <= i < k
      ensures !Marks(rules[i], p)
    {
      if i < k - 2 {
        assert rules[i] == RouterGuards(o.ipv6)[i];
        GuardsDoNotMark(o.ipv6, rules[i], p);
      } else {
        assert rules[i] == RouterMarks(o)[..2][i - (k - 2)];
      }
    }
  }

  lemma GuardsDoNotMark(ipv6: bool, r: ChainRule, p: Packet)
    requires r in RouterGuards(ipv6)
    ensures !Marks(r, p)
  {
  }

  /** For instance these two. */
  lemma CutScopeExample(iface: string, o: RouterOptions, k: nat)
    requires o == RouterOptions(iface, ["192.168.20.12" + "/32", "192.168.20.1" + "/32"], [], false)
    requires k == |RouterGuards(false)| + 2
    ensures k < |RouterRules(o)| && RouterMatches(RouterRules(o)[..k], o)
  {
    var first, second := "192.168.20.12", "192.168.20.1";
    assert second + "2" == first;
    var p := Packet(V4, 0, false, Tcp, 0, 0, false, iface, {second + "/32"}, {});
    CutBetweenHosts(iface, first, second, o, k, p);
  }
}
