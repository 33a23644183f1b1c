/**
  Reload planning (crates/dynet-state/src/reload.rs) over the configuration tree
  (crates/dynet-state/src/lib.rs, crates/dynet-ingress/src/lib.rs).
*/
module ReloadPlanning {

  type Address = string
  type Millis = nat

  datatype DnsRelay = DnsRelay(bind: Address, maxSessions: nat)
  datatype TcpRelay = TcpRelay(bind: Address, upstream: Address, maxSessions: nat)
  datatype UdpRelay = UdpRelay(bind: Address, upstream: Address, idleTimeout: Millis, maxSessions: nat)
  datatype Advertise = Unset | Advertise(ip: Address)
  datatype Socks5 = Socks5(bind: Address, udpAdvertiseIp: Advertise, idleTimeout: Millis, maxSessions: nat)
  datatype Ingress = Ingress(dns: DnsRelay, tcp: TcpRelay, udp: UdpRelay, socks5: Socks5)

  datatype Tun = Tun(
    enabled: bool,
    interface: string,
    tcpIdleTimeout: Millis,
    udpIdleTimeout: Millis,
    udpResponseTimeout: Millis)

  /** Sub-configurations that the plan only compares as a whole. */
  type Section = string

  datatype Seed = Seed(ipv6Enabled: bool, graph: Section)
  datatype Forwarding = Forwarding(seed: Seed, executionNodes: Section)
  datatype Capture = Capture(tun: Tun, routerIngress: Section)

  datatype Config = Config(
    controlBind: Address,
    ingress: Ingress,
    capture: Capture,
    ipv6Enabled: bool,
    dnsMapping: Section,
    persistence: Section,
    forwarding: Forwarding,
    service: Section)

  datatype Field =
    | ControlBind
    | DnsBind | DnsMaxSessions
    | TcpBind | TcpUpstream | TcpMaxSessions
    | UdpBind | UdpUpstream | UdpIdleTimeout | UdpMaxSessions
    | SocksBind | SocksUdpAdvertiseIp | SocksIdleTimeout | SocksMaxSessions
    | TunEnabled | TunInterface
    | RouterIngress | Ipv6Enabled | DnsMapping | Persistence | Service
    | TunTcpIdleTimeout | TunUdpIdleTimeout | TunUdpResponseTimeout | ForwardingField

  const RESTART_FIELDS: seq<Field> := [
    ControlBind, DnsBind, DnsMaxSessions, TcpBind, TcpUpstream, TcpMaxSessions,
    UdpBind, UdpUpstream, UdpIdleTimeout, UdpMaxSessions,
    SocksBind, SocksUdpAdvertiseIp, SocksIdleTimeout, SocksMaxSessions,
    TunEnabled, TunInterface, RouterIngress, Ipv6Enabled, DnsMapping, Persistence, Service]

  const HOT_FIELDS: seq<Field> := [TunTcpIdleTimeout, TunUdpIdleTimeout, TunUdpResponseTimeout, ForwardingField]

  predicate Differs(f: Field, a: Config, b: Config) {
    match f
    case ControlBind => a.controlBind != b.controlBind
    case DnsBind => a.ingress.dns.bind != b.ingress.dns.bind
    case DnsMaxSessions => a.ingress.dns.maxSessions != b.ingress.dns.maxSessions
    case TcpBind => a.ingress.tcp.bind != b.ingress.tcp.bind
    case TcpUpstream => a.ingress.tcp.upstream != b.ingress.tcp.upstream
    case TcpMaxSessions => a.ingress.tcp.maxSessions != b.ingress.tcp.maxSessions
    case UdpBind => a.ingress.udp.bind != b.ingress.udp.bind
    case UdpUpstream => a.ingress.udp.upstream != b.ingress.udp.upstream
    case UdpIdleTimeout => a.ingress.udp.idleTimeout != b.ingress.udp.idleTimeout
    case UdpMaxSessions => a.ingress.udp.maxSessions != b.ingress.udp.maxSessions
    case SocksBind => a.ingress.socks5.bind != b.ingress.socks5.bind
    case SocksUdpAdvertiseIp => a.ingress.socks5.udpAdvertiseIp != b.ingress.socks5.udpAdvertiseIp
    case SocksIdleTimeout => a.ingress.socks5.idleTimeout != b.ingress.socks5.idleTimeout
    case SocksMaxSessions => a.ingress.socks5.maxSessions != b.ingress.socks5.maxSessions
    case TunEnabled => a.capture.tun.enabled != b.capture.tun.enabled
    case TunInterface => a.capture.tun.interface != b.capture.tun.interface
    case RouterIngress => a.capture.routerIngress != b.capture.routerIngress
    case Ipv6Enabled => a.ipv6Enabled != b.ipv6Enabled
    case DnsMapping => a.dnsMapping != b.dnsMapping
    case Persistence => a.persistence != b.persistence
    case Service => a.service != b.service
    case TunTcpIdleTimeout => a.capture.tun.tcpIdleTimeout != b.capture.tun.tcpIdleTimeout
    case TunUdpIdleTimeout => a.capture.tun.udpIdleTimeout != b.capture.tun.udpIdleTimeout
    case TunUdpResponseTimeout => a.capture.tun.udpResponseTimeout != b.capture.tun.udpResponseTimeout
    case ForwardingField => a.forwarding != b.forwarding
  }

  /** The part of a configuration that only a restart may change: all but forwarding and the three TUN timers. */
  function Frozen(c: Config): Config {
    c.(capture := c.capture.(tun := c.capture.tun.(tcpIdleTimeout := 0, udpIdleTimeout := 0, udpResponseTimeout := 0)),
       forwarding := Forwarding(Seed(false, ""), ""))
  }

  datatype Disposition = Noop | Apply | RestartRequired

  datatype ReloadPlan = ReloadPlan(disposition: Disposition, changed: seq<Field>, restartRequired: seq<Field>)

  function NewPlan(changed: seq<Field>, restart: seq<Field>): ReloadPlan {
    ReloadPlan(if changed == [] then Noop else if restart == [] then Apply else RestartRequired, changed, restart)
  }

  /** The members of a field list that differ, in list order. */
  function Differing(fields: seq<Field>, a: Config, b: Config): (r: seq<Field>)
    ensures forall f :: f in r <==> f in fields && Differs(f, a, b)
  {
    if fields == [] then []
    else
      var front := Differing(fields[..|fields| - 1], a, b);
      var last := fields[|fields| - 1];
      if Differs(last, a, b) then front + [last] else front
  }

  /** Every field of a configuration is compared, and the restart fields are the frozen part. */
  lemma FieldsCover(a: Config, b: Config)
    ensures Differing(RESTART_FIELDS, a, b) == [] <==> Frozen(a) == Frozen(b)
    ensures Differing(RESTART_FIELDS, a, b) == [] && Differing(HOT_FIELDS, a, b) == [] <==> a == b
  {
    var restart, hot := Differing(RESTART_FIELDS, a, b), Differing(HOT_FIELDS, a, b);
    if restart == [] {
      NothingDiffers(RESTART_FIELDS, a, b);
      RestartFieldsFreeze(a, b);
    } else {
      var f := restart[0];
      assert f in restart;
      SomethingDiffers(f, a, b);
    }
    if hot == [] {
      NothingDiffers(HOT_FIELDS, a, b);
      HotFieldsThaw(a, b);
    } else {
      assert hot[0] in hot;
      SomethingDiffers(hot[0], a, b);
    }
  }

  lemma NothingDiffers(fields: seq<Field>, a: Config, b: Config)
    requires Differing(fields, a, b) == []
    ensures forall i :: 0 <= i < |fields| ==> !Differs(fields[i], a, b)
  {
    forall i | 0 <= i < |fields|
      ensures !Differs(fields[i], a, b)
    {
      assert fields[i] in fields;
    }
  }

  lemma SomethingDiffers(f: Field, a: Config, b: Config)
    requires Differs(f, a, b)
    ensures a != b && (f in RESTART_FIELDS ==> Frozen(a) != Frozen(b))
  {
  }

  lemma IngressIsFrozen(a: Config, b: Config)
    requires forall i :: 0 <= i < |RESTART_FIELDS| ==> !Differs(RESTART_FIELDS[i], a, b)
    ensures a.controlBind == b.controlBind && a.ingress.dns == b.ingress.dns && a.ingress.tcp == b.ingress.tcp
  {
    var r := RESTART_FIELDS;
    assert !Differs(r[0], a, b) && !Differs(r[1], a, b) && !Differs(r[2], a, b);
    assert !Differs(r[3], a, b) && !Differs(r[4], a, b) && !Differs(r[5], a, b);
  }

  lemma DatagramIngressIsFrozen(a: Config, b: Config)
    requires forall i :: 0 <= i < |RESTART_FIELDS| ==> !Differs(RESTART_FIELDS[i], a, b)
    ensures a.ingress.udp == b.ingress.udp && a.ingress.socks5 == b.ingress.socks5
  {
    var r := RESTART_FIELDS;
    assert !Differs(r[6], a, b) && !Differs(r[7], a, b) && !Differs(r[8], a, b) && !Differs(r[9], a, b);
    assert !Differs(r[10], a, b) && !Differs(r[11], a, b) && !Differs(r[12], a, b) && !Differs(r[13], a, b);
  }

  lemma HostIsFrozen(a: Config, b: Config)
    requires forall i :: 0 <= i < |RESTART_FIELDS| ==> !Differs(RESTART_FIELDS[i], a, b)
    ensures a.capture.tun.enabled == b.capture.tun.enabled && a.capture.tun.interface == b.capture.tun.interface
    ensures a.capture.routerIngress == b.capture.routerIngress && a.ipv6Enabled == b.ipv6Enabled
    ensures a.dnsMapping == b.dnsMapping && a.persistence == b.persistence && a.service == b.service
  {
    var r := RESTART_FIELDS;
    assert !Differs(r[14], a, b) && !Differs(r[15], a, b) && !Differs(r[16], a, b) && !Differs(r[17], a, b);
    assert !Differs(r[18], a, b) && !Differs(r[19], a, b) && !Differs(r[20], a, b);
  }

  lemma RestartFieldsFreeze(a: Config, b: Config)
    requires forall i :: 0 <= i < |RESTART_FIELDS| ==> !Differs(RESTART_FIELDS[i], a, b)
    ensures Frozen(a) == Frozen(b)
  {
    IngressIsFrozen(a, b);
    DatagramIngressIsFrozen(a, b);
    HostIsFrozen(a, b);
  }

  lemma HotFieldsThaw(a: Config, b: Config)
    requires forall i :: 0 <= i < |HOT_FIELDS| ==> !Differs(HOT_FIELDS[i], a, b)
    ensures Frozen(a) == Frozen(b) ==> a == b
  {
    var h := HOT_FIELDS;
    assert !Differs(h[0], a, b) && !Differs(h[1], a, b) && !Differs(h[2], a, b) && !Differs(h[3], a, b);
  }

  /**
    `plan_reload`. Noop exactly for equal configurations; Apply exactly when they differ and only in
    forwarding and the three TUN timers; the reported fields are the ones that differ, in order.
  */
  method PlanReload(current: Config, next: Config) returns (plan: ReloadPlan)
    ensures plan.disposition.Noop? <==> current == next
    ensures plan.disposition.Apply? <==> current != next && Frozen(current) == Frozen(next)
    ensures plan.restartRequired == Differing(RESTART_FIELDS, current, next)
    ensures plan.changed == plan.restartRequired + Differing(HOT_FIELDS, current, next)
  {
    var changed, restart := CompareRestartFields(RESTART_FIELDS, current, next);
    changed := CompareHotFields(changed, HOT_FIELDS, current, next);
    FieldsCover(current, next);
    plan := NewPlan(changed, restart);
  }

  method CompareRestartFields(fields: seq<Field>, current: Config, next: Config)
    returns (changed: seq<Field>, restart: seq<Field>)
    ensures changed == restart == Differing(fields, current, next)
  {
    changed, restart := [], [];
    for i := 0 to |fields|
      invariant changed == restart == Differing(fields[..i], current, next)
    {
      changed, restart := RestartField(changed, restart, fields[i], Differs(fields[i], current, next));
      assert fields[..i + 1][..i] == fields[..i];
    }
    assert fields[..|fields|] == fields;
  }

  method CompareHotFields(before: seq<Field>, fields: seq<Field>, current: Config, next: Config) returns (changed: seq<Field>)
    ensures changed == before + Differing(fields, current, next)
  {
    changed := before;
    for i := 0 to |fields|
      invariant changed == before + Differing(fields[..i], current, next)
    {
      changed := HotField(changed, fields[i], Differs(fields[i], current, next));
      assert fields[..i + 1][..i] == fields[..i];
    }
    assert fields[..|fields|] == fields;
  }

  method HotField(changed: seq<Field>, name: Field, differs: bool) returns (r: seq<Field>)
    ensures r == if differs then changed + [name] else changed
  {
    r := changed;
    if differs {
      r := r + [name];
    }
  }

  method RestartField(changed: seq<Field>, restart: seq<Field>, name: Field, differs: bool)
    returns (c: seq<Field>, r: seq<Field>)
    ensures c == if differs then changed + [name] else changed
    ensures r == if differs then restart + [name] else restart
  {
    c, r := changed, restart;
    if differs {
      c := c + [name];
      r := r + [name];
    }
  }
}
