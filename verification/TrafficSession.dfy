/**
  Traffic sessions: the in-memory fold (crates/dynet-runtime/src/traffic_session.rs) and the SQL upsert
  read as a row update (crates/dynet-runtime/src/persistence.rs).
*/
module TrafficSessions {
  import opened ByteStrings

  /** The columns that hold optional text and keep the latest value given. */
  datatype TextColumn =
    | NodeProtocol | Peer | Target | TargetIp | TargetDomain | TargetSource | Upstream
    | SelectionGroups | SelectionNodes | SelectionTrace | CloseReason
    | ErrorStage | ErrorCode | ErrorClass | ErrorSide | ErrorPhase | ErrorProtocolPhase | ErrorScoreImpact | ErrorText

  type Port = n: nat | n < 0x1_0000

  type Texts = map<TextColumn, string>

  /** One direction's part of an update: an absolute byte total, or the size of one more datagram. */
  datatype Flow = Flow(total: Option<nat>, datagram: Option<nat>)

  datatype Update = Update(key: string, sessionId: nat, decisionId: Option<nat>, generation: Option<nat>, inbound: string,
                           at: nat, texts: Texts, targetPort: Option<Port>, sent: Flow, received: Flow, closes: bool)

  // ---- In memory ----

  datatype Counters = Counters(bytes: nat, datagrams: nat, firstAt: Option<nat>)

  datatype Session = Session(key: string, sessionId: nat, decisionId: Option<nat>, generation: Option<nat>, inbound: string,
                             texts: Texts, targetPort: Option<Port>, startedAt: nat, closedAt: Option<nat>,
                             duration: Option<nat>, sent: Counters, received: Counters, latency: Option<nat>,
                             lastObserved: nat)

  function Or<T>(a: Option<T>, b: Option<T>): Option<T> {
    if a.Some? then a else b
  }

  function Minus(a: nat, b: nat): nat {
    if a >= b then a - b else 0
  }

  function NewSession(u: Update): Session {
    var none := Counters(0, 0, None);
    Session(u.key, u.sessionId, u.decisionId, u.generation, u.inbound, map[], None, u.at, None, None, none, none, None, u.at)
  }

  /** Totals replace, datagrams add; the first datagram is dated. */
  function Counted(c: Counters, f: Flow, at: nat): Counters {
    var bytes := if f.total.Some? then f.total.value else c.bytes;
    if f.datagram.None? then c.(bytes := bytes)
    else Counters(bytes + f.datagram.value, c.datagrams + 1, Or(c.firstAt, Some(at)))
  }

  function Applied(s: Session, u: Update): Session {
    var received := Counted(s.received, u.received, u.at);
    Session(s.key, s.sessionId, Or(s.decisionId, u.decisionId), Or(s.generation, u.generation), s.inbound,
            s.texts + u.texts, Or(s.targetPort, u.targetPort), s.startedAt,
            if u.closes then Some(u.at) else s.closedAt,
            if u.closes then Some(Minus(u.at, s.startedAt)) else s.duration,
            Counted(s.sent, u.sent, u.at), received,
            if s.latency.None? && received.firstAt.Some? then Some(Minus(received.firstAt.value, s.startedAt)) else s.latency,
            u.at)
  }

  class TrafficSession {
    const key: string
    const sessionId: nat
    const inbound: string
    const startedAt: nat
    var decisionId: Option<nat>
    var generation: Option<nat>
    var texts: Texts
    var targetPort: Option<Port>
    var closedAt: Option<nat>
    var duration: Option<nat>
    var sentBytes: nat
    var sentDatagrams: nat
    var firstSentAt: Option<nat>
    var receivedBytes: nat
    var receivedDatagrams: nat
    var firstReceivedAt: Option<nat>
    var latency: Option<nat>
    var lastObserved: nat

    ghost function State(): Session
      reads this
    {
      Session(key, sessionId, decisionId, generation, inbound, texts, targetPort, startedAt, closedAt, duration,
              Counters(sentBytes, sentDatagrams, firstSentAt),
              Counters(receivedBytes, receivedDatagrams, firstReceivedAt), latency, lastObserved)
    }

    constructor (u: Update)
      ensures State() == NewSession(u)
    {
      key, sessionId, inbound, startedAt := u.key, u.sessionId, u.inbound, u.at;
      decisionId, generation, texts, targetPort := u.decisionId, u.generation, map[], None;
      closedAt, duration, latency, lastObserved := None, None, None, u.at;
      sentBytes, sentDatagrams, firstSentAt := 0, 0, None;
      receivedBytes, receivedDatagrams, firstReceivedAt := 0, 0, None;
    }

    method CountSent(f: Flow, at: nat)
      modifies this`sentBytes, this`sentDatagrams, this`firstSentAt
      ensures Counters(sentBytes, sentDatagrams, firstSentAt)
           == Counted(old(Counters(sentBytes, sentDatagrams, firstSentAt)), f, at)
    {
      if f.total.Some? {
        sentBytes := f.total.value;
      }
      if f.datagram.Some? {
        sentDatagrams := sentDatagrams + 1;
        sentBytes := sentBytes + f.datagram.value;
        firstSentAt := Or(firstSentAt, Some(at));
      }
    }

    method CountReceived(f: Flow, at: nat)
      modifies this`receivedBytes, this`receivedDatagrams, this`firstReceivedAt
      ensures Counters(receivedBytes, receivedDatagrams, firstReceivedAt)
           == Counted(old(Counters(receivedBytes, receivedDatagrams, firstReceivedAt)), f, at)
    {
      if f.total.Some? {
        receivedBytes := f.total.value;
      }
      if f.datagram.Some? {
        receivedDatagrams := receivedDatagrams + 1;
        receivedBytes := receivedBytes + f.datagram.value;
        firstReceivedAt := Or(firstReceivedAt, Some(at));
      }
    }

    /** Identifiers and port keep the first value given, texts the latest. */
    method Merge(u: Update)
      modifies this`decisionId, this`generation, this`texts, this`targetPort
      ensures decisionId == Or(old(decisionId), u.decisionId) && generation == Or(old(generation), u.generation)
      ensures texts == old(texts) + u.texts && targetPort == Or(old(targetPort), u.targetPort)
    {
      decisionId := Or(decisionId, u.decisionId);
      generation := Or(generation, u.generation);
      texts := texts + u.texts;
      targetPort := Or(targetPort, u.targetPort);
    }

    method Clock(at: nat, closes: bool)
      modifies this`latency, this`closedAt, this`duration, this`lastObserved
      ensures latency == if old(latency).None? && firstReceivedAt.Some? then Some(Minus(firstReceivedAt.value, startedAt))
                         else old(latency)
      ensures closedAt == (if closes then Some(at) else old(closedAt)) && lastObserved == at
      ensures duration == if closes then Some(Minus(at, startedAt)) else old(duration)
    {
      if latency.None? && firstReceivedAt.Some? {
        latency := Some(Minus(firstReceivedAt.value, startedAt));
      }
      if closes {
        closedAt := Some(at);
        duration := Some(Minus(at, startedAt));
      }
      lastObserved := at;
    }

    method ApplyUpdate(u: Update)
      modifies this
      ensures State() == Applied(old(State()), u)
    {
      Merge(u);
      CountSent(u.sent, u.at);
      CountReceived(u.received, u.at);
      Clock(u.at, u.closes);
    }
  }

  // ---- The row ----

  const I64_MAX := 0x7fff_ffff_ffff_ffff

  /** SQL values; an integer sum that leaves 64 bits becomes a real. */
  datatype Value = Null | Int(n: int) | Text(s: string) | Real(r: real)

  function Saturated(n: nat): Value {
    Int(if n <= I64_MAX then n else I64_MAX)
  }

  function OptInt(n: Option<nat>): Value {
    if n.Some? then Saturated(n.value) else Null
  }

  function TextIn(texts: Texts, c: TextColumn): Value {
    if c in texts then Text(texts[c]) else Null
  }

  /** The numbered parameters of the statement. */
  datatype Params =
    Params(p1: Value, p2: Value, p3: Value, p4: Value, p5: Value, p6: Value, p7: Value, p8: Value, p9: Value,
           p10: Value, p11: Value, p12: Value, p13: Value, p14: Value, p15: Value, p16: Value, p17: Value, p18:
           Value, p19: Value, p20: Value, p21: Value, p22: Value, p23: Value, p24: Value, p25: Value, p26:
           Value, p27: Value, p28: Value, p29: Value, p30: Value, p31: Value, p32: Value)

  /** The values bound to the parameters, in bind order. */
  function Bound(u: Update): Params {
    Params(Text(u.key), Saturated(u.sessionId), OptInt(u.decisionId), Text(u.inbound), TextIn(u.texts, NodeProtocol),
           TextIn(u.texts, Peer), TextIn(u.texts, Target), TextIn(u.texts, TargetIp), OptInt(u.targetPort),
           TextIn(u.texts, TargetDomain), TextIn(u.texts, TargetSource), TextIn(u.texts, Upstream),
           TextIn(u.texts, SelectionGroups), TextIn(u.texts, SelectionNodes), TextIn(u.texts, SelectionTrace),
           Saturated(u.at), TextIn(u.texts, CloseReason), TextIn(u.texts, ErrorStage), TextIn(u.texts, ErrorCode),
           TextIn(u.texts, ErrorClass), TextIn(u.texts, ErrorSide), TextIn(u.texts, ErrorPhase),
           TextIn(u.texts, ErrorProtocolPhase), TextIn(u.texts, ErrorScoreImpact), TextIn(u.texts, ErrorText),
           OptInt(u.sent.total), OptInt(u.received.total), OptInt(u.sent.datagram), OptInt(u.received.datagram),
           Int(if u.closes then 1 else 0), Saturated(u.at), OptInt(u.generation))
  }

  /** The parameter the insert's value list puts into each text column. */
  function TextParam(p: Params, c: TextColumn): Value {
    match c
    case NodeProtocol => p.p5
    case Peer => p.p6
    case Target => p.p7
    case TargetIp => p.p8
    case TargetDomain => p.p10
    case TargetSource => p.p11
    case Upstream => p.p12
    case SelectionGroups => p.p13
    case SelectionNodes => p.p14
    case SelectionTrace => p.p15
    case CloseReason => p.p17
    case ErrorStage => p.p18
    case ErrorCode => p.p19
    case ErrorClass => p.p20
    case ErrorSide => p.p21
    case ErrorPhase => p.p22
    case ErrorProtocolPhase => p.p23
    case ErrorScoreImpact => p.p24
    case ErrorText => p.p25
  }

  /** Bind order and column order fit together. */
  lemma TextsAreBoundInOrder(u: Update, c: TextColumn)
    ensures TextParam(Bound(u), c) == TextIn(u.texts, c)
  {
  }

  function Coalesce(a: Value, b: Value): Value {
    if a.Null? then b else a
  }

  function Add(a: Value, b: Value): Value {
    if a.Int? && b.Int? then
      if -I64_MAX - 1 <= a.n + b.n <= I64_MAX then Int(a.n + b.n) else Real((a.n + b.n) as real)
    else Null
  }

  /** max(a - b, 0), null if either is. */
  function ClampedDifference(a: Value, b: Value): Value {
    if a.Int? && b.Int? then Int(if a.n - b.n > 0 then a.n - b.n else 0) else Null
  }

  function OneUnlessNull(v: Value): Value {
    Int(if v.Null? then 0 else 1)
  }

  function Unless(test: Value, v: Value): Value {
    if test.Null? then Null else v
  }

  datatype RowCounters = RowCounters(bytes: Value, datagrams: Value, firstAt: Value)

  datatype Row = Row(key: Value, sessionId: Value, decisionId: Value, generation: Value, inbound: Value,
                     texts: TextColumn -> Value, targetPort: Value, startedAt: Value, closedAt: Value, duration: Value,
                     sent: RowCounters, received: RowCounters, latency: Value, lastObserved: Value)

  /** The inserted row. */
  function Inserted(u: Update): Row {
    var p := Bound(u);
    var at, start, closes := p.p31, p.p16, p.p30 == Int(1);
    Row(p.p1, p.p2, p.p3, p.p32, p.p4, c => TextParam(p, c), p.p9, start,
        if closes then at else Null,
        if closes then ClampedDifference(at, start) else Null,
        RowCounters(Add(Coalesce(p.p26, Int(0)), Coalesce(p.p28, Int(0))), OneUnlessNull(p.p28),
                    Unless(p.p28, at)),
        RowCounters(Add(Coalesce(p.p27, Int(0)), Coalesce(p.p29, Int(0))), OneUnlessNull(p.p29),
                    Unless(p.p29, at)),
        Unless(p.p29, ClampedDifference(at, start)), at)
  }

  function CountersUpdated(old_: RowCounters, excluded: RowCounters, total: Value, datagram: Value): RowCounters {
    RowCounters(if !total.Null? then total else Add(old_.bytes, Coalesce(datagram, Int(0))),
                Add(old_.datagrams, OneUnlessNull(datagram)), Coalesce(old_.firstAt, excluded.firstAt))
  }

  /** The row after a conflict on the key. */
  function Updated(r: Row, u: Update): Row {
    var x, p := Inserted(u), Bound(u);
    Row(r.key, r.sessionId, Coalesce(r.decisionId, x.decisionId), Coalesce(r.generation, x.generation), r.inbound,
        c => Coalesce(x.texts(c), r.texts(c)), Coalesce(x.targetPort, r.targetPort), r.startedAt,
        Coalesce(x.closedAt, r.closedAt), Coalesce(x.duration, r.duration),
        CountersUpdated(r.sent, x.sent, p.p26, p.p28),
        CountersUpdated(r.received, x.received, p.p27, p.p29),
        Coalesce(r.latency, x.latency), x.lastObserved)
  }

  // ---- Agreement ----

  predicate CountersMatch(r: RowCounters, c: Counters) {
    r.bytes == Int(c.bytes) && r.datagrams == Int(c.datagrams) && r.firstAt == OptInt(c.firstAt)
  }

  ghost predicate RestMatches(r: Row, s: Session) {
    && r.key == Text(s.key) && r.sessionId == Saturated(s.sessionId) && r.inbound == Text(s.inbound)
    && r.decisionId == OptInt(s.decisionId) && r.generation == OptInt(s.generation)
    && (forall c :: r.texts(c) == TextIn(s.texts, c))
    && r.startedAt == Saturated(s.startedAt) && r.closedAt == OptInt(s.closedAt)
    && r.lastObserved == Saturated(s.lastObserved)
  }

  /** Row and session agree on every column but the target port and the two intervals. */
  ghost predicate Matches(r: Row, s: Session) {
    RestMatches(r, s) && CountersMatch(r.sent, s.sent) && CountersMatch(r.received, s.received)
  }

  /** The session's counters fit a 64-bit column. */
  predicate CountersFit(c: Counters) {
    c.bytes <= I64_MAX && c.datagrams <= I64_MAX
  }

  predicate Fits(s: Session) {
    CountersFit(s.sent) && CountersFit(s.received)
  }

  /** A flow with both a total and a non-empty datagram: memory adds the datagram, the row drops it. */
  predicate Mixed(f: Flow) {
    f.total.Some? && f.datagram.Some? && f.datagram.value > 0
  }

  lemma InsertMatches(u: Update)
    requires Fits(Applied(NewSession(u), u))
    ensures Matches(Inserted(u), Applied(NewSession(u), u))
  {
    var r, s := Inserted(u), Applied(NewSession(u), u);
    forall c
      ensures r.texts(c) == TextIn(s.texts, c)
    {
      TextsAreBoundInOrder(u, c);
    }
  }

  lemma CountersAgreeIff(r: RowCounters, x: RowCounters, c: Counters, f: Flow, at: nat)
    requires CountersMatch(r, c) && CountersFit(Counted(c, f, at))
    requires x.firstAt == Unless(OptInt(f.datagram), Saturated(at))
    ensures CountersMatch(CountersUpdated(r, x, OptInt(f.total), OptInt(f.datagram)), Counted(c, f, at)) <==> !Mixed(f)
  {
  }

  lemma UpdateMatchesRest(r: Row, s: Session, u: Update)
    requires RestMatches(r, s)
    ensures RestMatches(Updated(r, u), Applied(s, u))
  {
    var r', s' := Updated(r, u), Applied(s, u);
    forall c
      ensures r'.texts(c) == TextIn(s'.texts, c)
    {
      TextsAreBoundInOrder(u, c);
    }
  }

  /** One more update keeps the two in agreement if and only if neither direction is mixed. */
  lemma UpdateMatchesIff(r: Row, s: Session, u: Update)
    requires Matches(r, s) && Fits(Applied(s, u))
    ensures Matches(Updated(r, u), Applied(s, u)) <==> !Mixed(u.sent) && !Mixed(u.received)
  {
    UpdateMatchesRest(r, s, u);
    var x := Inserted(u);
    CountersAgreeIff(r.sent, x.sent, s.sent, u.sent, u.at);
    CountersAgreeIff(r.received, x.received, s.received, u.received, u.at);
  }

  // ---- Whole runs of one session ----

  function SessionFold(us: seq<Update>): Session
    requires us != []
  {
    var n := |us| - 1;
    Applied(if n == 0 then NewSession(us[0]) else SessionFold(us[..n]), us[n])
  }

  function RowFold(us: seq<Update>): Row
    requires us != []
  {
    var n := |us| - 1;
    if n == 0 then Inserted(us[0]) else Updated(RowFold(us[..n]), us[n])
  }

  predicate Unmixed(u: Update) {
    !Mixed(u.sent) && !Mixed(u.received)
  }

  /** The counters fit after every update of the run. */
  predicate AlwaysFits(us: seq<Update>) {
    us == [] || (Fits(SessionFold(us)) && AlwaysFits(us[..|us| - 1]))
  }

  ghost predicate AlwaysMatches(us: seq<Update>) {
    us == [] || (Matches(RowFold(us), SessionFold(us)) && AlwaysMatches(us[..|us| - 1]))
  }

  /** No update after the first is mixed. */
  predicate LaterUnmixed(us: seq<Update>) {
    forall i :: 1 <= i < |us| ==> Unmixed(us[i])
  }

  lemma LaterUnmixedStep(us: seq<Update>, n: nat)
    requires n > 0 && |us| == n + 1
    ensures LaterUnmixed(us) <==> LaterUnmixed(us[..n]) && Unmixed(us[n])
  {
    assert forall i :: 1 <= i < n ==> us[..n][i] == us[i];
  }

  lemma MatchStep(us: seq<Update>, n: nat)
    requires n > 0 && |us| == n + 1 && Fits(SessionFold(us)) && Matches(RowFold(us[..n]), SessionFold(us[..n]))
    ensures Matches(RowFold(us), SessionFold(us)) <==> Unmixed(us[n])
  {
    UpdateMatchesIff(RowFold(us[..n]), SessionFold(us[..n]), us[n]);
  }

  /** The two folds agree throughout a run if and only if no update after the first is mixed. */
  lemma {:induction false} FoldsAgreeIff(us: seq<Update>)
    requires us != [] && AlwaysFits(us)
    ensures AlwaysMatches(us) <==> LaterUnmixed(us)
  {
    var n := |us| - 1;
    if n == 0 {
      assert us[..0] == [];
      InsertMatches(us[0]);
    } else {
      FoldsAgreeIff(us[..n]);
      LaterUnmixedStep(us, n);
      if AlwaysMatches(us[..n]) {
        MatchStep(us, n);
      }
    }
  }

  /** The row measures both intervals from the update's own time, so it only ever stores zero. */
  lemma {:induction false} IntervalsInTheRow(us: seq<Update>)
    requires us != []
    ensures var r, s := RowFold(us), SessionFold(us);
            && r.duration == (if s.closedAt.Some? then Int(0) else Null)
            && r.latency == (if s.received.firstAt.Some? then Int(0) else Null)
            && s.duration == (if s.closedAt.Some? then Some(Minus(s.closedAt.value, s.startedAt)) else None)
            && s.latency == (if s.received.firstAt.Some? then Some(Minus(s.received.firstAt.value, s.startedAt)) else None)
  {
    var n := |us| - 1;
    if n > 0 {
      IntervalsInTheRow(us[..n]);
    }
  }

  /** They agree with the session's if and only if the clock did not advance from the session's start. */
  lemma IntervalsAgreeIff(us: seq<Update>)
    requires us != []
    ensures var r, s := RowFold(us), SessionFold(us);
            && (r.duration == OptInt(s.duration) <==> (s.closedAt.Some? ==> s.closedAt.value <= s.startedAt))
            && (r.latency == OptInt(s.latency) <==> (s.received.firstAt.Some? ==> s.received.firstAt.value <= s.startedAt))
  {
    IntervalsInTheRow(us);
  }

  function FirstPort(us: seq<Update>): Option<Port> {
    if us == [] then None else Or(FirstPort(us[..|us| - 1]), us[|us| - 1].targetPort)
  }

  function LastPort(us: seq<Update>): Option<Port> {
    if us == [] then None else Or(us[|us| - 1].targetPort, LastPort(us[..|us| - 1]))
  }

  lemma {:induction false} SessionKeepsFirstPort(us: seq<Update>)
    requires us != []
    ensures SessionFold(us).targetPort == FirstPort(us)
  {
    var n := |us| - 1;
    if n == 0 {
      assert us[..0] == [];
    } else {
      SessionKeepsFirstPort(us[..n]);
    }
  }

  lemma {:induction false} RowKeepsLastPort(us: seq<Update>)
    requires us != []
    ensures RowFold(us).targetPort == OptInt(LastPort(us))
  {
    var n := |us| - 1;
    if n == 0 {
      assert us[..0] == [];
    } else {
      RowKeepsLastPort(us[..n]);
    }
  }

  /** The session keeps the first target port, the row the last: they agree if and only if these are the same. */
  lemma PortsAgreeIff(us: seq<Update>)
    requires us != []
    ensures RowFold(us).targetPort == OptInt(SessionFold(us).targetPort) <==> FirstPort(us) == LastPort(us)
  {
    SessionKeepsFirstPort(us);
    RowKeepsLastPort(us);
  }
}
