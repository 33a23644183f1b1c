/**
  The Vision stream (prototype/vless/src/vision_stream.rs), read side, from the moment the VLESS
  response has been consumed: outer records are opened one by one, unpadded, and delivered; an End
  block switches to plain TLS, a Direct block to the raw bytes behind its record.

  Opening a record is abstract: a function of the record's number and bytes, which may fail. How the
  TCP bytes are cut into reads is left open.
*/
module VisionReading {
  import opened ByteStrings
  import opened FuzzyDeframing
  import opened VisionFiltering
  import opened VisionUnpadding
  import opened VisionWriting
  import TlsDeframing

  /** Decryption of the i-th record; None is a decryption error. */
  type Opener = (nat, Bytes) -> Option<Bytes>

  // ---- What a TCP byte stream means ----

  /** All plaintext of the complete records at the front of t, the first of which has number i. */
  function Plain(open: Opener, i: nat, t: Bytes): Bytes
    decreases |t|
  {
    match TlsDeframing.NextFrame(t)
    case Record(k) =>
      (match open(i, t[..k])
       case Some(p) => p + Plain(open, i + 1, t[k..])
       case None => [])
    case _ => []
  }

  /** What is delivered from padded records t, record by record. */
  function Padded(open: Opener, u: Unpadder, i: nat, t: Bytes): Bytes
    decreases |t|, 0
  {
    match TlsDeframing.NextFrame(t)
    case Record(k) =>
      (match open(i, t[..k])
       case None => []
       case Some(p) => if p == [] then Padded(open, u, i + 1, t[k..]) else After(open, u, i + 1, p, t[k..]))
    case _ => []
  }

  /** What is delivered from one piece of padded plaintext and the TCP bytes t behind its record. */
  function After(open: Opener, u: Unpadder, i: nat, p: Bytes, t: Bytes): Bytes
    decreases |t|, 1
  {
    var (v, r) := UnpadCall(u, p);
    match r
    case Invalid => []
    case Unpadded(content, Some(Direct)) => content + t
    case Unpadded(content, Some(End)) => content + Plain(open, i, t)
    case Unpadded(content, _) => content + Padded(open, v, i, t)
  }

  /** Where reading starts: the unpadder, the next record's number and plaintext left over from the response. */
  datatype Origin = Origin(u: Unpadder, i: nat, leftover: Bytes)

  function Total(open: Opener, o: Origin, t: Bytes): Bytes {
    if o.leftover == [] then Padded(open, o.u, o.i, t) else After(open, o.u, o.i, o.leftover, t)
  }

  // ---- Where a TCP byte stream is faulty ----

  /** A malformed record, or one that cannot be opened, among the records at the front of t. */
  predicate PlainFaulty(open: Opener, i: nat, t: Bytes)
    decreases |t|
  {
    match TlsDeframing.NextFrame(t)
    case Record(k) => open(i, t[..k]).None? || PlainFaulty(open, i + 1, t[k..])
    case Bad(_) => true
    case NeedMore => false
  }

  /** The same while padding lasts, where a bad command byte is a fault too. */
  predicate PaddedFaulty(open: Opener, u: Unpadder, i: nat, t: Bytes)
    decreases |t|, 0
  {
    match TlsDeframing.NextFrame(t)
    case Record(k) =>
      (match open(i, t[..k])
       case None => true
       case Some(p) =>
         if p == [] then PaddedFaulty(open, u, i + 1, t[k..]) else AfterFaulty(open, u, i + 1, p, t[k..]))
    case Bad(_) => true
    case NeedMore => false
  }

  predicate AfterFaulty(open: Opener, u: Unpadder, i: nat, p: Bytes, t: Bytes)
    decreases |t|, 1
  {
    var (v, r) := UnpadCall(u, p);
    match r
    case Invalid => true
    case Unpadded(_, Some(Direct)) => false
    case Unpadded(_, Some(End)) => PlainFaulty(open, i, t)
    case Unpadded(_, _) => PaddedFaulty(open, v, i, t)
  }

  predicate Faulty(open: Opener, o: Origin, t: Bytes) {
    if o.leftover == [] then PaddedFaulty(open, o.u, o.i, t) else AfterFaulty(open, o.u, o.i, o.leftover, t)
  }

  // ---- The read side ----

  datatype Reader = Reader(
    readMode: Mode,
    /** The outer deframer's buffer while padding lasts. */
    outer: Bytes,
    unpadder: Unpadder,
    innerRead: Fuzzy,
    filter: Filter,
    pendingRead: Bytes,
    /** Session state: records opened, undelivered plaintext and an incomplete record in Tls mode. */
    recordsIn: nat,
    plainIn: Bytes,
    cipherIn: Bytes,
    isReadEof: bool,
    /** TCP bytes that will still arrive. */
    incoming: Bytes,
    /** History: TCP bytes read, bytes delivered to the caller, and what was shown to the filter
        with its value before and after. */
    tcpIn: Bytes,
    delivered: Bytes,
    events: seq<Event>,
    trail: seq<Filter>,
    /** History: how often TCP had nothing yet or failed. */
    setbacks: nat)

  /** What the bytes t will yield if they arrive next. */
  function Rest(open: Opener, rd: Reader, t: Bytes): Bytes {
    match rd.readMode
    case PaddingMode => Padded(open, rd.unpadder, rd.recordsIn, rd.outer + t)
    case TlsMode => rd.plainIn + Plain(open, rd.recordsIn, rd.cipherIn + t)
    case DirectMode => t
  }

  /** Whether the bytes t will show a fault if they arrive next. */
  predicate RestFaulty(open: Opener, rd: Reader, t: Bytes) {
    match rd.readMode
    case PaddingMode => PaddedFaulty(open, rd.unpadder, rd.recordsIn, rd.outer + t)
    case TlsMode => PlainFaulty(open, rd.recordsIn, rd.cipherIn + t)
    case DirectMode => false
  }

  /** The unpadder has not finished: one more call cannot meet the Done state. */
  predicate Unfinished(u: Unpadder) {
    u.Parsing? ==> !u.core.phase.Finished?
  }

  /** Whatever arrives next: delivered, buffered and still to come is what the whole stream means. */
  ghost predicate ReadOk(open: Opener, o: Origin, rd: Reader) {
    && (forall t: Bytes :: Total(open, o, rd.tcpIn + t) == rd.delivered + rd.pendingRead + Rest(open, rd, t))
    && (forall t: Bytes :: Faulty(open, o, rd.tcpIn + t) <==> RestFaulty(open, rd, t))
    && (rd.readMode.PaddingMode? ==> Unfinished(rd.unpadder))
  }

  /** No record, complete or malformed, waits to be processed. */
  predicate Quiet(rd: Reader) {
    match rd.readMode
    case PaddingMode => TlsDeframing.NextFrame(rd.outer).NeedMore?
    case TlsMode => TlsDeframing.NextFrame(rd.cipherIn).NeedMore?
    case DirectMode => true
  }

  /** Plaintext the session holds for the caller. */
  function SessionHolds(rd: Reader): Bytes {
    if rd.readMode.TlsMode? then rd.plainIn else []
  }

  /**
    Read-side delivery: however TCP cut the bytes into reads, delivered and buffered bytes together
    are a function of the TCP bytes alone, and the filter plays no part in it.
  */
  lemma DeliveryIsWhole(open: Opener, o: Origin, rd: Reader)
    requires ReadOk(open, o, rd) && Quiet(rd)
    ensures rd.delivered + rd.pendingRead + SessionHolds(rd) == Total(open, o, rd.tcpIn)
    ensures !Faulty(open, o, rd.tcpIn)
  {
    assert rd.tcpIn + [] == rd.tcpIn && rd.outer + [] == rd.outer && rd.cipherIn + [] == rd.cipherIn;
    assert Total(open, o, rd.tcpIn + []) == rd.delivered + rd.pendingRead + Rest(open, rd, []);
    assert rd.plainIn + [] == rd.plainIn;
    assert Faulty(open, o, rd.tcpIn + []) <==> RestFaulty(open, rd, []);
  }

  /** A fault in what is left of the bytes read so far is a fault of the stream. */
  lemma FaultSeen(open: Opener, o: Origin, rd: Reader)
    requires ReadOk(open, o, rd) && RestFaulty(open, rd, [])
    ensures Faulty(open, o, rd.tcpIn)
  {
    assert rd.tcpIn + [] == rd.tcpIn;
  }

  // ---- A record does not depend on what follows it ----

  /** The length of the record in front. */
  function FrontLen(t: Bytes): (n: nat)
    requires TlsDeframing.NextFrame(t).Record?
    ensures 0 < n <= |t|
  {
    TlsDeframing.NextFrame(t).len
  }

  lemma RecordInFront(s: Bytes, t: Bytes, k: nat)
    requires TlsDeframing.NextFrame(s) == TlsDeframing.Record(k)
    ensures 0 < k <= |s| && TlsDeframing.NextFrame(s + t) == TlsDeframing.Record(k)
    ensures (s + t)[..k] == s[..k] && (s + t)[k..] == s[k..] + t
  {
    TlsDeframing.FrameIsStable(s, t);
  }

  // ---- Moves of the read side ----

  /** A TCP read while padding lasts. */
  function Received(rd: Reader, c: Bytes): Reader {
    rd.(outer := rd.outer + c, tcpIn := rd.tcpIn + c)
  }

  lemma ReceivedKeepsOk(open: Opener, o: Origin, rd: Reader, c: Bytes)
    requires ReadOk(open, o, rd) && rd.readMode.PaddingMode?
    ensures ReadOk(open, o, Received(rd, c))
  {
    forall t: Bytes
      ensures Total(open, o, Received(rd, c).tcpIn + t) == rd.delivered + rd.pendingRead + Rest(open, Received(rd, c), t)
      ensures Faulty(open, o, Received(rd, c).tcpIn + t) <==> RestFaulty(open, Received(rd, c), t)
    {
      Assoc(rd.tcpIn, c, t);
      Assoc(rd.outer, c, t);
      assert Total(open, o, rd.tcpIn + (c + t)) == rd.delivered + rd.pendingRead + Rest(open, rd, c + t);
      assert Faulty(open, o, rd.tcpIn + (c + t)) <==> RestFaulty(open, rd, c + t);
    }
  }

  /** Delivery of n buffered bytes to the caller. */
  function Handed(rd: Reader, n: nat): Reader
    requires n <= |rd.pendingRead|
  {
    rd.(pendingRead := rd.pendingRead[n..], delivered := rd.delivered + rd.pendingRead[..n])
  }

  lemma HandedKeepsOk(open: Opener, o: Origin, rd: Reader, n: nat)
    requires ReadOk(open, o, rd) && n <= |rd.pendingRead|
    ensures ReadOk(open, o, Handed(rd, n))
  {
    var next := Handed(rd, n);
    Assoc(rd.delivered, rd.pendingRead[..n], rd.pendingRead[n..]);
    assert rd.pendingRead[..n] + rd.pendingRead[n..] == rd.pendingRead;
    forall t: Bytes
      ensures Total(open, o, next.tcpIn + t) == next.delivered + next.pendingRead + Rest(open, next, t)
    {
      assert Rest(open, next, t) == Rest(open, rd, t);
    }
    assert forall t: Bytes :: RestFaulty(open, next, t) == RestFaulty(open, rd, t);
  }

  /** The state between opening a record and unpadding its plaintext p. */
  ghost predicate Holding(open: Opener, o: Origin, rd: Reader, p: Bytes) {
    && rd.readMode.PaddingMode? && Unfinished(rd.unpadder)
    && (forall t: Bytes :: Total(open, o, rd.tcpIn + t)
                        == rd.delivered + rd.pendingRead + After(open, rd.unpadder, rd.recordsIn, p, rd.outer + t))
    && (forall t: Bytes :: Faulty(open, o, rd.tcpIn + t)
                      <==> AfterFaulty(open, rd.unpadder, rd.recordsIn, p, rd.outer + t))
  }

  /** A record taken off the outer deframer. */
  function Taken(rd: Reader, k: nat): Reader
    requires k <= |rd.outer|
  {
    rd.(outer := rd.outer[k..], recordsIn := rd.recordsIn + 1)
  }

  lemma TakenKeepsOk(open: Opener, o: Origin, rd: Reader, k: nat, p: Bytes)
    requires ReadOk(open, o, rd) && rd.readMode.PaddingMode? && k <= |rd.outer|
    requires TlsDeframing.IsRecord(rd.outer[..k]) && open(rd.recordsIn, rd.outer[..k]) == Some(p)
    ensures if p == [] then ReadOk(open, o, Taken(rd, k)) else Holding(open, o, Taken(rd, k), p)
  {
    var next := Taken(rd, k);
    forall t: Bytes
      ensures Total(open, o, next.tcpIn + t) == next.delivered + next.pendingRead + TakenRest(open, next, p, t)
      ensures Faulty(open, o, next.tcpIn + t) <==> TakenFaulty(open, next, p, t)
    {
      FrontRecordMeans(open, rd, k, p, t);
    }
  }

  /** What is still to come behind a record that opened to p. */
  function TakenRest(open: Opener, rd: Reader, p: Bytes, t: Bytes): Bytes {
    if p == [] then Padded(open, rd.unpadder, rd.recordsIn, rd.outer + t)
    else After(open, rd.unpadder, rd.recordsIn, p, rd.outer + t)
  }

  predicate TakenFaulty(open: Opener, rd: Reader, p: Bytes, t: Bytes) {
    if p == [] then PaddedFaulty(open, rd.unpadder, rd.recordsIn, rd.outer + t)
    else AfterFaulty(open, rd.unpadder, rd.recordsIn, p, rd.outer + t)
  }

  lemma FrontRecordMeans(open: Opener, rd: Reader, k: nat, p: Bytes, t: Bytes)
    requires rd.readMode.PaddingMode? && k <= |rd.outer| && TlsDeframing.IsRecord(rd.outer[..k])
    requires open(rd.recordsIn, rd.outer[..k]) == Some(p)
    ensures Rest(open, rd, t) == TakenRest(open, Taken(rd, k), p, t)
    ensures RestFaulty(open, rd, t) == TakenFaulty(open, Taken(rd, k), p, t)
  {
    TlsDeframing.FrameIsThePrefixRecord(rd.outer, k);
    RecordInFront(rd.outer, t, k);
  }

  /** The first piece of plaintext, left over from the response. */
  lemma StartsHolding(open: Opener, o: Origin, rd: Reader)
    requires rd.readMode.PaddingMode? && rd.unpadder == o.u && rd.recordsIn == o.i && Unfinished(o.u)
    requires rd.delivered == [] && rd.pendingRead == [] && rd.tcpIn == rd.outer
    ensures if o.leftover == [] then ReadOk(open, o, rd) else Holding(open, o, rd, o.leftover)
  {
    assert rd.delivered + rd.pendingRead == [];
  }

  // ---- The filter's look at the content ----

  /** Show one event to the filter and record it. */
  function Watched(rd: Reader, e: Event): Reader {
    var g := Apply(rd.filter, e);
    rd.(filter := g, events := rd.events + [e], trail := rd.trail + [g])
  }

  /** The recorded events lead from f0 to the present filter. */
  ghost predicate FilterTraced(rd: Reader, f0: Filter) {
    && |rd.trail| == |rd.events| + 1 && rd.trail[0] == f0 && rd.trail[|rd.events|] == rd.filter
    && forall i {:trigger rd.events[i]} :: 0 <= i < |rd.events| ==> rd.trail[i + 1] == Apply(rd.trail[i], rd.events[i])
  }

  lemma WatchedTraced(rd: Reader, e: Event, f0: Filter)
    requires FilterTraced(rd, f0)
    ensures FilterTraced(Watched(rd, e), f0)
  {
  }

  /** Everything that decides what is delivered is the same in both. */
  predicate SameDelivery(a: Reader, b: Reader) {
    a == b.(innerRead := a.innerRead, filter := a.filter, events := a.events, trail := a.trail, setbacks := a.setbacks)
  }

  /** The inner deframer, the filter, and what it has been shown. */
  datatype Watch = Watch(f: Fuzzy, filter: Filter, events: seq<Event>, trail: seq<Filter>)

  function WatchOf(rd: Reader): Watch {
    Watch(rd.innerRead, rd.filter, rd.events, rd.trail)
  }

  /** How an answer of the deframer is shown to the filter. */
  function ShownAs(a: Answer): Event
    requires !a.NeedData?
  {
    match a
    case TlsRecord(record) => Saw(record)
    case UnknownPrefix(_) => SkippedPrefix
    case Failed(_) => GaveUp
  }

  predicate IsNext(a: Fuzzy, r: (Fuzzy, Answer)) {
    r == FuzzyNext(a)
  }

  /** One call: the deframer goes from a to b and its answer is shown as e. */
  ghost predicate Gives(a: Fuzzy, b: Fuzzy, e: Event) {
    forall r: (Fuzzy, Answer) {:trigger IsNext(a, r)} :: IsNext(a, r) ==> r.0 == b && !r.1.NeedData? && e == ShownAs(r.1)
  }

  /** One call: the deframer goes from a to b and needs more data. */
  ghost predicate Needs(a: Fuzzy, b: Fuzzy) {
    forall r: (Fuzzy, Answer) {:trigger IsNext(a, r)} :: IsNext(a, r) ==> r == (b, NeedData)
  }

  lemma GivesOrNeeds(a: Fuzzy, b: Fuzzy, answer: Answer)
    requires FuzzyNext(a) == (b, answer)
    ensures if answer.NeedData? then Needs(a, b) else Gives(a, b, ShownAs(answer))
  {
  }

  /** The loop leaves off behind this event: malformed data, or a record that finds the filter done. */
  predicate LeavesOff(e: Event, g: Filter) {
    e.GaveUp? || (e.Saw? && !IsFiltering(g))
  }

  /** Through these states the deframer has given the events after the first m, and none of them was the last. */
  ghost predicate Giving(x: Watch, m: nat, states: seq<Fuzzy>) {
    && m <= |x.events| && |states| == |x.events| - m + 1 && |x.trail| == |x.events| + 1
    && states[|states| - 1] == x.f && x.trail[|x.events|] == x.filter
    && (forall k {:trigger states[k]} :: 0 <= k < |states| - 1 ==> Gives(states[k], states[k + 1], x.events[m + k]))
    && (forall k {:trigger x.events[k]} :: m <= k < |x.events| - 1 ==> !LeavesOff(x.events[k], x.trail[k + 1]))
  }

  /**
    The deframer f was called again and again and every answer was shown to the filter, until it needed
    more data or the loop left off.
  */
  ghost predicate Given(x: Watch, m: nat, f: Fuzzy, states: seq<Fuzzy>) {
    && states != [] && states[0] == f
    && if |x.events| > m && |x.trail| == |x.events| + 1 && LeavesOff(x.events[|x.events| - 1], x.filter) then Giving(x, m, states)
       else Giving(x.(f := states[|states| - 1]), m, states) && Needs(states[|states| - 1], x.f)
  }

  /** What the filter was shown of one piece of content. */
  ghost predicate Inspected(x: Watch, x0: Watch, content: Bytes) {
    if content == [] || !IsFiltering(x0.filter) then x == x0
    else
      && |x0.events| <= |x.events| && x.events[..|x0.events|] == x0.events
      && exists states: seq<Fuzzy> :: Given(x, |x0.events|, FuzzyFeed(x0.f, content), states)
  }

  lemma GivesOneMore(x: Watch, m: nat, states: seq<Fuzzy>, y: Watch, e: Event)
    requires Giving(x, m, states) && Gives(x.f, y.f, e)
    requires |x.events| > m ==> !LeavesOff(x.events[|x.events| - 1], x.filter)
    requires y == Watch(y.f, Apply(x.filter, e), x.events + [e], x.trail + [y.filter])
    ensures Giving(y, m, states + [y.f])
  {
    var more, n := states + [y.f], |states| - 1;
    forall k | 0 <= k < |more| - 1
      ensures Gives(more[k], more[k + 1], y.events[m + k])
    {
      if k < n {
        assert more[k] == states[k] && more[k + 1] == states[k + 1] && y.events[m + k] == x.events[m + k];
      } else {
        assert more[k] == x.f && more[k + 1] == y.f && y.events[m + k] == e;
      }
    }
    forall k | m <= k < |y.events| - 1
      ensures !LeavesOff(y.events[k], y.trail[k + 1])
    {
      assert y.events[k] == x.events[k] && y.trail[k + 1] == x.trail[k + 1];
    }
  }

  /** In the filter loop: the deframer f has given what was shown so far. */
  ghost predicate Inspecting(x: Watch, x0: Watch, f: Fuzzy, states: seq<Fuzzy>) {
    && states != [] && states[0] == f && |x0.events| <= |x.events| && x.events[..|x0.events|] == x0.events
    && Giving(x, |x0.events|, states)
  }

  /** Where the loop stands behind one turn. */
  ghost predicate Turned(x: Watch, x0: Watch, f: Fuzzy, states: seq<Fuzzy>, done: bool) {
    if done then |x0.events| <= |x.events| && x.events[..|x0.events|] == x0.events && Given(x, |x0.events|, f, states)
    else Inspecting(x, x0, f, states) && (|x.events| > |x0.events| ==> !LeavesOff(x.events[|x.events| - 1], x.filter))
  }

  lemma NeedsEndTheTurn(x: Watch, x0: Watch, f: Fuzzy, states: seq<Fuzzy>, y: Watch)
    requires Turned(x, x0, f, states, false) && Needs(x.f, y.f) && y == x.(f := y.f)
    ensures Turned(y, x0, f, states, true)
  {
    assert y.(f := states[|states| - 1]) == x;
  }

  lemma GivesTurn(x: Watch, x0: Watch, f: Fuzzy, states: seq<Fuzzy>, y: Watch, e: Event)
    requires Turned(x, x0, f, states, false) && Gives(x.f, y.f, e)
    requires y == Watch(y.f, Apply(x.filter, e), x.events + [e], x.trail + [y.filter])
    ensures Turned(y, x0, f, states + [y.f], LeavesOff(e, y.filter))
  {
    GivesOneMore(x, |x0.events|, states, y, e);
  }

  /** One call of the inner deframer. */
  method CallDeframer(f: Fuzzy) returns (next: Fuzzy, answer: Answer)
    ensures if answer.NeedData? then Needs(f, next) else Gives(f, next, ShownAs(answer))
    ensures answer.TlsRecord? || answer.UnknownPrefix? ==> |next.buf| < |f.buf|
  {
    next, answer := FuzzyNext(f).0, FuzzyNext(f).1;
    NextSplitsTheBuffer(f);
    GivesOrNeeds(f, next, answer);
  }

  /** One turn of the loop. */
  method ShowNext(rd0: Reader, ghost x0: Watch, ghost f: Fuzzy, ghost states0: seq<Fuzzy>, ghost f0: Filter)
    returns (rd: Reader, done: bool, ghost states: seq<Fuzzy>)
    requires FilterTraced(rd0, f0) && Turned(WatchOf(rd0), x0, f, states0, false)
    ensures SameDelivery(rd, rd0) && rd.setbacks == rd0.setbacks && FilterTraced(rd, f0)
    ensures (!done ==> |rd.innerRead.buf| < |rd0.innerRead.buf|) && Turned(WatchOf(rd), x0, f, states, done)
  {
    var next, answer := CallDeframer(rd0.innerRead);
    rd, states := rd0.(innerRead := next), states0;
    if answer.NeedData? {
      NeedsEndTheTurn(WatchOf(rd0), x0, f, states, WatchOf(rd));
      done := true;
      return;
    }
    var e := ShownAs(answer);
    WatchedTraced(rd, e, f0);
    rd := Watched(rd, e);
    GivesTurn(WatchOf(rd0), x0, f, states, WatchOf(rd), e);
    states := states + [next];
    done := LeavesOff(e, rd.filter);
  }

  /** The filter loop of `handle_padded_bytes`; it cannot fail and touches nothing but the filter's state. */
  method InspectContent(rd0: Reader, content: Bytes, ghost f0: Filter) returns (rd: Reader)
    requires FilterTraced(rd0, f0)
    ensures SameDelivery(rd, rd0) && rd.setbacks == rd0.setbacks && FilterTraced(rd, f0)
    ensures Inspected(WatchOf(rd), WatchOf(rd0), content)
  {
    rd := rd0;
    if content == [] || !IsFiltering(rd.filter) {
      return;
    }
    rd := rd.(innerRead := FuzzyFeed(rd.innerRead, content));
    ghost var x0, f, states := WatchOf(rd0), rd.innerRead, [rd.innerRead];
    var done := false;
    while !done
      invariant SameDelivery(rd, rd0) && rd.setbacks == rd0.setbacks && FilterTraced(rd, f0)
      invariant Turned(WatchOf(rd), x0, f, states, done)
      decreases !done, |rd.innerRead.buf|
    {
      rd, done, states := ShowNext(rd, x0, f, states, f0);
    }
  }

  // ---- Unpadding one piece ----

  /** After an End block: opened records stream into the buffer. */
  ghost predicate Streaming(open: Opener, o: Origin, rd: Reader) {
    && (forall t: Bytes :: Total(open, o, rd.tcpIn + t)
                        == rd.delivered + rd.pendingRead + Plain(open, rd.recordsIn, rd.outer + t))
    && (forall t: Bytes :: Faulty(open, o, rd.tcpIn + t) <==> PlainFaulty(open, rd.recordsIn, rd.outer + t))
  }

  lemma StreamStep(open: Opener, o: Origin, rd: Reader, k: nat, p: Bytes)
    requires Streaming(open, o, rd) && k <= |rd.outer|
    requires TlsDeframing.IsRecord(rd.outer[..k]) && open(rd.recordsIn, rd.outer[..k]) == Some(p)
    ensures Streaming(open, o, Taken(rd, k).(pendingRead := rd.pendingRead + p))
  {
    TlsDeframing.FrameIsThePrefixRecord(rd.outer, k);
    var next := Taken(rd, k).(pendingRead := rd.pendingRead + p);
    forall t: Bytes
      ensures Total(open, o, next.tcpIn + t) == next.delivered + next.pendingRead + Plain(open, next.recordsIn, next.outer + t)
      ensures Faulty(open, o, next.tcpIn + t) <==> PlainFaulty(open, next.recordsIn, next.outer + t)
    {
      RecordInFront(rd.outer, t, k);
      var rest := Plain(open, next.recordsIn, next.outer + t);
      assert Plain(open, rd.recordsIn, rd.outer + t) == p + rest;
      Assoc(rd.delivered + rd.pendingRead, p, rest);
      Assoc(rd.delivered, rd.pendingRead, p);
    }
  }

  /** What concerns the filter, and TCP's behaviour, is the same. */
  predicate SameWatch(a: Reader, b: Reader) {
    && WatchOf(a) == WatchOf(b)
    && a.isReadEof == b.isReadEof && a.setbacks == b.setbacks
  }

  /** The switch to Tls mode: decrypt what the outer deframer still holds, hand the rest to the session. */
  method SwitchReadToTls(open: Opener, ghost o: Origin, rd0: Reader) returns (rd: Reader, ok: bool)
    requires Streaming(open, o, rd0)
    ensures ok ==> ReadOk(open, o, rd) && rd.readMode.TlsMode? && Quiet(rd)
    ensures !ok ==> Faulty(open, o, rd0.tcpIn)
    ensures rd.tcpIn == rd0.tcpIn && rd.delivered == rd0.delivered && rd.incoming == rd0.incoming
    ensures SameWatch(rd, rd0)
  {
    rd := rd0;
    while TlsDeframing.NextFrame(rd.outer).Record?
      invariant Streaming(open, o, rd)
      invariant rd.tcpIn == rd0.tcpIn && rd.delivered == rd0.delivered && rd.incoming == rd0.incoming
      invariant SameWatch(rd, rd0)
      decreases |rd.outer|
    {
      var k := FrontLen(rd.outer);
      TlsDeframing.FrameIsThePrefixRecord(rd.outer, k);
      var decrypted := open(rd.recordsIn, rd.outer[..k]);
      match decrypted {
        case None =>
          StreamFault(open, o, rd);
          return rd, false;
        case Some(p) =>
          StreamStep(open, o, rd, k, p);
          rd := Taken(rd, k).(pendingRead := rd.pendingRead + p);
      }
    }
    if TlsDeframing.NextFrame(rd.outer).Bad? {
      StreamFault(open, o, rd);
      return rd, false;
    }
    assert Plain(open, rd.recordsIn, rd.outer) == [];
    ghost var before := rd;
    rd := rd.(readMode := TlsMode, plainIn := [], cipherIn := rd.outer, outer := []);
    assert forall t: Bytes :: Rest(open, rd, t) == Plain(open, before.recordsIn, before.outer + t);
    assert forall t: Bytes :: RestFaulty(open, rd, t) == PlainFaulty(open, before.recordsIn, before.outer + t);
    ok := true;
  }

  lemma StreamFault(open: Opener, o: Origin, rd: Reader)
    requires Streaming(open, o, rd) && PlainFaulty(open, rd.recordsIn, rd.outer)
    ensures Faulty(open, o, rd.tcpIn)
  {
    assert rd.tcpIn + [] == rd.tcpIn && rd.outer + [] == rd.outer;
  }

  /** How the state with the answer of the unpadder continues. */
  lemma ContentIsBuffered(open: Opener, o: Origin, rd: Reader, p: Bytes, v: Unpadder, content: Bytes, c: Option<Command>)
    requires Holding(open, o, rd, p) && UnpadCall(rd.unpadder, p) == (v, Unpadded(content, c))
    ensures var next := rd.(unpadder := v, pendingRead := rd.pendingRead + content);
            && (c == Some(End) ==> Streaming(open, o, next))
            && (c == Some(Direct) ==> ReadOk(open, o, rd.(unpadder := v, readMode := DirectMode, outer := [],
                                                          pendingRead := rd.pendingRead + (content + rd.outer))))
            && (c != Some(End) && c != Some(Direct) ==> ReadOk(open, o, next))
  {
    var base := rd.delivered + rd.pendingRead;
    StaysUnfinished(rd.unpadder, p);
    Assoc(rd.delivered, rd.pendingRead, content);
    forall t: Bytes
      ensures c == Some(End) ==>
                Total(open, o, rd.tcpIn + t) == base + content + Plain(open, rd.recordsIn, rd.outer + t)
      ensures c == Some(Direct) ==> Total(open, o, rd.tcpIn + t) == base + content + (rd.outer + t)
      ensures c != Some(End) && c != Some(Direct) ==>
                Total(open, o, rd.tcpIn + t) == base + content + Padded(open, v, rd.recordsIn, rd.outer + t)
      ensures c == Some(End) ==> (Faulty(open, o, rd.tcpIn + t) <==> PlainFaulty(open, rd.recordsIn, rd.outer + t))
      ensures c == Some(Direct) ==> !Faulty(open, o, rd.tcpIn + t)
      ensures c != Some(End) && c != Some(Direct) ==>
                (Faulty(open, o, rd.tcpIn + t) <==> PaddedFaulty(open, v, rd.recordsIn, rd.outer + t))
    {
      var after := After(open, rd.unpadder, rd.recordsIn, p, rd.outer + t);
      assert Total(open, o, rd.tcpIn + t) == base + after;
      if c == Some(End) {
        Assoc(base, content, Plain(open, rd.recordsIn, rd.outer + t));
      } else if c == Some(Direct) {
        Assoc(base, content, rd.outer + t);
      } else {
        Assoc(base, content, Padded(open, v, rd.recordsIn, rd.outer + t));
      }
    }
    if c == Some(Direct) {
      DirectTail(open, o, rd, v, content);
    }
  }

  lemma DirectTail(open: Opener, o: Origin, rd: Reader, v: Unpadder, content: Bytes)
    requires forall t: Bytes :: Total(open, o, rd.tcpIn + t)
                             == rd.delivered + rd.pendingRead + content + (rd.outer + t)
    requires forall t: Bytes :: !Faulty(open, o, rd.tcpIn + t)
    ensures ReadOk(open, o, rd.(unpadder := v, readMode := DirectMode, outer := [],
                                pendingRead := rd.pendingRead + (content + rd.outer)))
  {
    var next := rd.(unpadder := v, readMode := DirectMode, outer := [],
                    pendingRead := rd.pendingRead + (content + rd.outer));
    var base := rd.delivered + rd.pendingRead;
    Assoc(rd.delivered, rd.pendingRead, content + rd.outer);
    Assoc(base, content, rd.outer);
    forall t: Bytes
      ensures Total(open, o, next.tcpIn + t) == next.delivered + next.pendingRead + Rest(open, next, t)
    {
      Assoc(base + content, rd.outer, t);
    }
  }

  /** After unpadding without a final command the unpadder can be called again. */
  lemma StaysUnfinished(u: Unpadder, p: Bytes)
    requires Unfinished(u)
    ensures var (v, r) := UnpadCall(u, p);
            r.Unpadded? && r.command != Some(End) && r.command != Some(Direct) ==> Unfinished(v)
  {
    var (v, r) := UnpadCall(u, p);
    if v.Parsing? && v.core.phase.Finished? {
      assert r.Unpadded? ==> r.command == Some(v.core.phase.command);
      FinalIsNotContinue(if u.Fresh? then Core(AtCommand, true) else u.core, if u.Fresh? then p[16..] else p);
    }
  }

  /** Only End and Direct finish. */
  lemma {:induction false} FinalIsNotContinue(k: Core, s: Bytes)
    requires !k.phase.Finished? || !k.phase.command.Continue?
    ensures var c := VisionUnpadding.Feed(k, s).core;
            !c.phase.Finished? || !c.phase.command.Continue?
    decreases |s|
  {
    if s != [] {
      FinalIsNotContinue(Step(k, s[0]).core, s[1..]);
    }
  }

  /** Only the filter's state differs, so delivery is the same. */
  lemma SameDeliveryKeepsOk(open: Opener, o: Origin, a: Reader, b: Reader)
    requires SameDelivery(a, b)
    ensures ReadOk(open, o, b) ==> ReadOk(open, o, a)
    ensures Streaming(open, o, b) ==> Streaming(open, o, a)
    ensures forall p: Bytes :: Holding(open, o, b, p) ==> Holding(open, o, a, p)
  {
    assert forall t: Bytes :: Rest(open, a, t) == Rest(open, b, t);
    assert forall t: Bytes :: RestFaulty(open, a, t) == RestFaulty(open, b, t);
  }

  /** What a step of the read side leaves alone. */
  ghost predicate Kept(a: Reader, b: Reader, f0: Filter) {
    && a.tcpIn == b.tcpIn && a.delivered == b.delivered && a.incoming == b.incoming && FilterTraced(a, f0)
    && a.isReadEof == b.isReadEof && a.setbacks == b.setbacks
  }

  /**
    `handle_padded_bytes` on one piece of decrypted data. It fails only on a bad command byte, a record
    that cannot be opened, or a malformed record.
  */
  method HandlePadded(open: Opener, ghost o: Origin, rd0: Reader, p: Bytes, ghost f0: Filter)
    returns (rd: Reader, ok: bool)
    requires Holding(open, o, rd0, p) && FilterTraced(rd0, f0)
    ensures ok ==> ReadOk(open, o, rd) && (!rd.readMode.PaddingMode? ==> Quiet(rd))
    ensures !ok ==> Faulty(open, o, rd.tcpIn)
    ensures ok && rd.readMode.PaddingMode? ==> rd.outer == rd0.outer
    ensures Kept(rd, rd0, f0)
    ensures var answer := UnpadCall(rd0.unpadder, p).1; answer.Unpadded? ==> Inspected(WatchOf(rd), WatchOf(rd0), answer.content)
  {
    var (v, answer) := UnpadCall(rd0.unpadder, p);
    if answer.Invalid? {
      assert rd0.tcpIn + [] == rd0.tcpIn && rd0.outer + [] == rd0.outer;
      return rd0, false;
    }
    var content := answer.content;
    rd := InspectContent(rd0, content, f0);
    SameDeliveryKeepsOk(open, o, rd, rd0);
    ContentIsBuffered(open, o, rd, p, v, content, answer.command);
    if answer.command == Some(Direct) {
      rd := rd.(unpadder := v, readMode := DirectMode, outer := [],
                pendingRead := rd.pendingRead + (content + rd.outer));
      ok := true;
    } else {
      rd := rd.(unpadder := v, pendingRead := rd.pendingRead + content);
      ok := true;
      if answer.command == Some(End) {
        rd, ok := SwitchReadToTls(open, o, rd);
      }
    }
  }

  datatype Progress = Waiting | Switched | Failing

  /** The inner loop: open and unpad every complete record until more bytes are needed or the mode changes. */
  method ProcessRecords(open: Opener, ghost o: Origin, rd0: Reader, ghost f0: Filter)
    returns (rd: Reader, r: Progress)
    requires ReadOk(open, o, rd0) && rd0.readMode.PaddingMode? && FilterTraced(rd0, f0)
    ensures !r.Failing? ==> ReadOk(open, o, rd) && Quiet(rd)
    ensures !r.Failing? ==> (r.Waiting? <==> rd.readMode.PaddingMode?)
    ensures r.Failing? ==> Faulty(open, o, rd.tcpIn)
    ensures Kept(rd, rd0, f0)
  {
    rd := rd0;
    while TlsDeframing.NextFrame(rd.outer).Record?
      invariant ReadOk(open, o, rd) && rd.readMode.PaddingMode? && Kept(rd, rd0, f0)
      decreases |rd.outer|
    {
      var k := FrontLen(rd.outer);
      TlsDeframing.FrameIsThePrefixRecord(rd.outer, k);
      var decrypted := open(rd.recordsIn, rd.outer[..k]);
      if decrypted.None? {
        assert rd.outer + [] == rd.outer;
        FaultSeen(open, o, rd);
        return rd, Failing;
      }
      TakenKeepsOk(open, o, rd, k, decrypted.value);
      rd := Taken(rd, k);
      if decrypted.value != [] {
        var ok;
        rd, ok := HandlePadded(open, o, rd, decrypted.value, f0);
        if !ok {
          return rd, Failing;
        }
        if !rd.readMode.PaddingMode? {
          return rd, Switched;
        }
      }
    }
    if TlsDeframing.NextFrame(rd.outer).Bad? {
      assert rd.outer + [] == rd.outer;
      FaultSeen(open, o, rd);
      return rd, Failing;
    }
    r := Waiting;
  }

  // ---- poll_read ----

  datatype ReadCause = Connection | BadStream

  datatype ReadResult = Got(data: Bytes) | NotReady | ReadError(cause: ReadCause)

  datatype TcpRead = Arrived(chunk: Bytes) | NothingYet | ConnectionError

  /** TCP delivers any non-empty piece of what is still to come, nothing yet, an error, or the end. */
  method ReadTcp(rd0: Reader, limit: nat) returns (rd: Reader, r: TcpRead)
    requires limit > 0
    ensures r.Arrived? ==> r.chunk <= rd0.incoming && |r.chunk| <= limit && (r.chunk == [] ==> rd0.incoming == [])
    ensures rd == if r.Arrived? then rd0 else rd0.(setbacks := rd0.setbacks + 1)
  {
    rd := rd0;
    var blocked: bool, broken: bool := *, *;
    if broken || blocked {
      return rd.(setbacks := rd.setbacks + 1), if broken then ConnectionError else NothingYet;
    }
    var n: nat :| n <= |rd.incoming| && n <= limit && (n == 0 ==> rd.incoming == []);
    return rd, Arrived(rd.incoming[..n]);
  }

  /** The bytes of the stream that have not been read yet. */
  function Shrunk(rd: Reader, c: Bytes): Reader
    requires c <= rd.incoming
  {
    rd.(incoming := rd.incoming[|c|..])
  }

  lemma ShrunkKeepsOk(open: Opener, o: Origin, rd: Reader, c: Bytes)
    requires ReadOk(open, o, rd) && c <= rd.incoming
    ensures ReadOk(open, o, Shrunk(rd, c))
  {
    assert forall t: Bytes :: Rest(open, Shrunk(rd, c), t) == Rest(open, rd, t);
    assert forall t: Bytes :: RestFaulty(open, Shrunk(rd, c), t) == RestFaulty(open, rd, t);
  }

  /** The end of the TCP stream was only seen where it is. */
  predicate EofOk(rd: Reader) {
    rd.isReadEof ==> rd.incoming == []
  }

  /**
    What the caller gets: buffered bytes, as many as it has room for; otherwise plaintext the session
    holds; and nothing at all only if it has no room, or nothing is left in any buffer or on TCP.
  */
  predicate HandsOut(rd: Reader, rd0: Reader, r: ReadResult, capacity: nat) {
    && (rd0.pendingRead != [] ==>
          r == Got(rd0.pendingRead[..if capacity < |rd0.pendingRead| then capacity else |rd0.pendingRead|]))
    && (rd0.pendingRead == [] && SessionHolds(rd0) != [] && capacity > 0 ==>
          r.Got? && r.data != [] && r.data <= SessionHolds(rd0))
    && (r == Got([]) && capacity > 0 ==> rd.incoming == [] && rd.pendingRead == [] && SessionHolds(rd) == [])
    && (r.Got? ==> |r.data| <= capacity)
  }

  /**
    What `poll_read` promises: the invariant is kept and exactly the returned bytes are newly delivered;
    it fails only because the connection does, or because the bytes read so far are faulty; and it only
    makes the caller wait when TCP does.
  */
  ghost predicate ReadPolled(open: Opener, o: Origin, rd: Reader, rd0: Reader, r: ReadResult, f0: Filter, capacity: nat) {
    && (!r.ReadError? ==> ReadOk(open, o, rd) && Quiet(rd) && EofOk(rd))
    && (r == ReadError(BadStream) ==> Faulty(open, o, rd.tcpIn))
    && (!r.ReadError? ==> rd.delivered == rd0.delivered + (if r.Got? then r.data else []))
    && rd.tcpIn + rd.incoming == rd0.tcpIn + rd0.incoming
    && FilterTraced(rd, f0)
    && HandsOut(rd, rd0, r, capacity)
    && rd.setbacks == rd0.setbacks + if r.NotReady? || r == ReadError(Connection) then 1 else 0
  }

  /** Hand out what is buffered, up to the caller's capacity. */
  method HandOut(open: Opener, ghost o: Origin, rd0: Reader, capacity: nat, ghost f0: Filter)
    returns (rd: Reader, r: ReadResult)
    requires ReadOk(open, o, rd0) && Quiet(rd0) && FilterTraced(rd0, f0) && EofOk(rd0) && rd0.pendingRead != []
    ensures ReadPolled(open, o, rd, rd0, r, f0, capacity)
  {
    var n := if capacity < |rd0.pendingRead| then capacity else |rd0.pendingRead|;
    HandedKeepsOk(open, o, rd0, n);
    rd := Handed(rd0, n);
    r := Got(rd0.pendingRead[..n]);
  }

  /** TCP had nothing, or failed. */
  lemma WaitingKeepsOk(open: Opener, o: Origin, rd: Reader, rd0: Reader)
    requires ReadOk(open, o, rd0) && rd == rd0.(setbacks := rd.setbacks)
    ensures ReadOk(open, o, rd)
  {
    SameDeliveryKeepsOk(open, o, rd, rd0);
  }

  // ---- Tls and Direct mode ----

  /** A TCP read by the session. */
  function TlsReceived(rd: Reader, c: Bytes): Reader {
    rd.(cipherIn := rd.cipherIn + c, tcpIn := rd.tcpIn + c)
  }

  lemma TlsReceivedKeepsOk(open: Opener, o: Origin, rd: Reader, c: Bytes)
    requires ReadOk(open, o, rd) && rd.readMode.TlsMode?
    ensures ReadOk(open, o, TlsReceived(rd, c))
  {
    forall t: Bytes
      ensures Total(open, o, TlsReceived(rd, c).tcpIn + t) == rd.delivered + rd.pendingRead + Rest(open, TlsReceived(rd, c), t)
      ensures Faulty(open, o, TlsReceived(rd, c).tcpIn + t) <==> RestFaulty(open, TlsReceived(rd, c), t)
    {
      Assoc(rd.tcpIn, c, t);
      Assoc(rd.cipherIn, c, t);
      assert Total(open, o, rd.tcpIn + (c + t)) == rd.delivered + rd.pendingRead + Rest(open, rd, c + t);
      assert Faulty(open, o, rd.tcpIn + (c + t)) <==> RestFaulty(open, rd, c + t);
    }
  }

  /** The session opens one complete record. */
  function TlsOpened(rd: Reader, k: nat, p: Bytes): Reader
    requires k <= |rd.cipherIn|
  {
    rd.(cipherIn := rd.cipherIn[k..], recordsIn := rd.recordsIn + 1, plainIn := rd.plainIn + p)
  }

  lemma TlsOpenedKeepsOk(open: Opener, o: Origin, rd: Reader, k: nat, p: Bytes)
    requires ReadOk(open, o, rd) && rd.readMode.TlsMode? && k <= |rd.cipherIn|
    requires TlsDeframing.IsRecord(rd.cipherIn[..k]) && open(rd.recordsIn, rd.cipherIn[..k]) == Some(p)
    ensures ReadOk(open, o, TlsOpened(rd, k, p))
  {
    TlsDeframing.FrameIsThePrefixRecord(rd.cipherIn, k);
    var next := TlsOpened(rd, k, p);
    forall t: Bytes
      ensures Rest(open, next, t) == Rest(open, rd, t)
      ensures RestFaulty(open, next, t) == RestFaulty(open, rd, t)
    {
      RecordInFront(rd.cipherIn, t, k);
      Assoc(rd.plainIn, p, Plain(open, next.recordsIn, next.cipherIn + t));
    }
  }

  /** Delivery of n bytes of session plaintext. */
  function TlsHanded(rd: Reader, n: nat): Reader
    requires n <= |rd.plainIn|
  {
    rd.(plainIn := rd.plainIn[n..], delivered := rd.delivered + rd.plainIn[..n])
  }

  lemma TlsHandedKeepsOk(open: Opener, o: Origin, rd: Reader, n: nat)
    requires ReadOk(open, o, rd) && rd.readMode.TlsMode? && rd.pendingRead == [] && n <= |rd.plainIn|
    ensures ReadOk(open, o, TlsHanded(rd, n))
  {
    var next := TlsHanded(rd, n);
    var a, b := rd.plainIn[..n], rd.plainIn[n..];
    assert rd.plainIn == a + b;
    assert rd.delivered + [] == rd.delivered && rd.delivered + a + [] == rd.delivered + a;
    forall t: Bytes
      ensures Total(open, o, next.tcpIn + t) == next.delivered + next.pendingRead + Rest(open, next, t)
    {
      var rest := Plain(open, rd.recordsIn, rd.cipherIn + t);
      Assoc(a, b, rest);
      Assoc(rd.delivered, a, b + rest);
    }
    assert forall t: Bytes :: RestFaulty(open, next, t) == RestFaulty(open, rd, t);
  }

  /** A TCP read in Direct mode goes straight to the caller. */
  function DirectReceived(rd: Reader, c: Bytes): Reader {
    rd.(tcpIn := rd.tcpIn + c, delivered := rd.delivered + c)
  }

  lemma DirectReceivedKeepsOk(open: Opener, o: Origin, rd: Reader, c: Bytes)
    requires ReadOk(open, o, rd) && rd.readMode.DirectMode? && rd.pendingRead == []
    ensures ReadOk(open, o, DirectReceived(rd, c))
  {
    var next := DirectReceived(rd, c);
    assert rd.delivered + [] == rd.delivered && rd.delivered + c + [] == rd.delivered + c;
    forall t: Bytes
      ensures Total(open, o, next.tcpIn + t) == next.delivered + next.pendingRead + Rest(open, next, t)
    {
      Assoc(rd.tcpIn, c, t);
      assert Total(open, o, rd.tcpIn + (c + t)) == rd.delivered + rd.pendingRead + Rest(open, rd, c + t);
      Assoc(rd.delivered, c, t);
    }
    forall t: Bytes
      ensures !Faulty(open, o, next.tcpIn + t)
    {
      Assoc(rd.tcpIn, c, t);
      assert Faulty(open, o, rd.tcpIn + (c + t)) <==> RestFaulty(open, rd, c + t);
    }
  }

  /** The session's own record processing. */
  method OpenRecords(open: Opener, ghost o: Origin, rd0: Reader) returns (rd: Reader, ok: bool)
    requires ReadOk(open, o, rd0) && rd0.readMode.TlsMode?
    ensures ok ==> ReadOk(open, o, rd) && Quiet(rd)
    ensures !ok ==> Faulty(open, o, rd.tcpIn)
    ensures rd == rd0.(cipherIn := rd.cipherIn, recordsIn := rd.recordsIn, plainIn := rd.plainIn)
  {
    rd := rd0;
    while TlsDeframing.NextFrame(rd.cipherIn).Record?
      invariant ReadOk(open, o, rd) && rd.readMode.TlsMode?
      invariant rd == rd0.(cipherIn := rd.cipherIn, recordsIn := rd.recordsIn, plainIn := rd.plainIn)
      decreases |rd.cipherIn|
    {
      var k := FrontLen(rd.cipherIn);
      TlsDeframing.FrameIsThePrefixRecord(rd.cipherIn, k);
      var decrypted := open(rd.recordsIn, rd.cipherIn[..k]);
      if decrypted.None? {
        assert rd.cipherIn + [] == rd.cipherIn;
        FaultSeen(open, o, rd);
        return rd, false;
      }
      TlsOpenedKeepsOk(open, o, rd, k, decrypted.value);
      rd := TlsOpened(rd, k, decrypted.value);
    }
    ok := !TlsDeframing.NextFrame(rd.cipherIn).Bad?;
    if !ok {
      assert rd.cipherIn + [] == rd.cipherIn;
      FaultSeen(open, o, rd);
    }
  }

  /** Hand out a piece of the session's plaintext; the session may show only a part of it at a time. */
  method HandOutPlain(open: Opener, ghost o: Origin, rd0: Reader, capacity: nat, ghost f0: Filter)
    returns (rd: Reader, r: ReadResult)
    requires ReadOk(open, o, rd0) && Quiet(rd0) && FilterTraced(rd0, f0) && EofOk(rd0)
    requires rd0.readMode.TlsMode? && rd0.pendingRead == [] && rd0.plainIn != []
    ensures ReadPolled(open, o, rd, rd0, r, f0, capacity) && rd.readMode == rd0.readMode
  {
    var available: nat :| 0 < available <= |rd0.plainIn|;
    var n := if capacity < available then capacity else available;
    TlsHandedKeepsOk(open, o, rd0, n);
    rd := TlsHanded(rd0, n);
    r := Got(rd0.plainIn[..n]);
  }

  method PollReadTls(open: Opener, ghost o: Origin, rd0: Reader, capacity: nat, ghost f0: Filter)
    returns (rd: Reader, r: ReadResult)
    requires ReadOk(open, o, rd0) && Quiet(rd0) && FilterTraced(rd0, f0) && EofOk(rd0)
    requires rd0.readMode.TlsMode? && rd0.pendingRead == []
    ensures ReadPolled(open, o, rd, rd0, r, f0, capacity)
  {
    rd := rd0;
    if rd.plainIn != [] {
      rd, r := HandOutPlain(open, o, rd, capacity, f0);
      return;
    }
    if rd.isReadEof {
      return rd, Got([]);
    }
    while true
      invariant ReadOk(open, o, rd) && Quiet(rd) && FilterTraced(rd, f0)
      invariant rd.readMode.TlsMode? && rd.pendingRead == [] && rd.plainIn == [] && rd.delivered == rd0.delivered
      invariant EofOk(rd) && rd.setbacks == rd0.setbacks
      invariant rd.tcpIn + rd.incoming == rd0.tcpIn + rd0.incoming
      decreases |rd.incoming|
    {
      var read;
      ghost var waiting := rd;
      rd, read := ReadTcp(rd, 4096);
      WaitingKeepsOk(open, o, rd, waiting);
      match read {
        case ConnectionError => return rd, ReadError(Connection);
        case NothingYet => return rd, NotReady;
        case Arrived(c) =>
          if c == [] {
            rd := MarkEof(open, o, rd, f0);
            return rd, Got([]);
          }
          TlsReceivedKeepsOk(open, o, rd, c);
          Assoc(rd.tcpIn, c, rd.incoming[|c|..]);
          assert c + rd.incoming[|c|..] == rd.incoming;
          ShrunkKeepsOk(open, o, TlsReceived(rd, c), c);
          rd := Shrunk(TlsReceived(rd, c), c);
          var ok;
          rd, ok := OpenRecords(open, o, rd);
          if !ok {
            return rd, ReadError(BadStream);
          }
          if rd.plainIn != [] {
            rd, r := HandOutPlain(open, o, rd, capacity, f0);
            return;
          }
      }
    }
  }

  method MarkEof(open: Opener, ghost o: Origin, rd0: Reader, ghost f0: Filter) returns (rd: Reader)
    requires ReadOk(open, o, rd0) && Quiet(rd0) && FilterTraced(rd0, f0)
    ensures rd == rd0.(isReadEof := true) && ReadOk(open, o, rd) && Quiet(rd) && FilterTraced(rd, f0)
  {
    rd := rd0.(isReadEof := true);
    assert forall t: Bytes :: Rest(open, rd, t) == Rest(open, rd0, t);
    assert forall t: Bytes :: RestFaulty(open, rd, t) == RestFaulty(open, rd0, t);
  }

  method PollReadDirect(open: Opener, ghost o: Origin, rd0: Reader, capacity: nat, ghost f0: Filter)
    returns (rd: Reader, r: ReadResult)
    requires ReadOk(open, o, rd0) && rd0.readMode.DirectMode? && rd0.pendingRead == [] && FilterTraced(rd0, f0) && EofOk(rd0)
    ensures ReadPolled(open, o, rd, rd0, r, f0, capacity)
  {
    rd := rd0;
    if capacity == 0 {
      return rd, Got([]);
    }
    var read;
    rd, read := ReadTcp(rd, capacity);
    WaitingKeepsOk(open, o, rd, rd0);
    match read {
      case ConnectionError => return rd, ReadError(Connection);
      case NothingYet => return rd, NotReady;
      case Arrived(c) =>
        DirectReceivedKeepsOk(open, o, rd, c);
        Assoc(rd.tcpIn, c, rd.incoming[|c|..]);
        assert c + rd.incoming[|c|..] == rd.incoming;
        ShrunkKeepsOk(open, o, DirectReceived(rd, c), c);
        rd := Shrunk(DirectReceived(rd, c), c);
        return rd, Got(c);
    }
  }

  /** After a switch with nothing buffered, the new mode answers; otherwise the buffer does. */
  method ReadAfterSwitch(open: Opener, ghost o: Origin, rd0: Reader, capacity: nat, ghost f0: Filter)
    returns (rd: Reader, r: ReadResult)
    requires ReadOk(open, o, rd0) && Quiet(rd0) && FilterTraced(rd0, f0) && EofOk(rd0) && !rd0.readMode.PaddingMode?
    ensures ReadPolled(open, o, rd, rd0, r, f0, capacity)
  {
    if rd0.pendingRead != [] {
      rd, r := HandOut(open, o, rd0, capacity, f0);
    } else if rd0.readMode.TlsMode? {
      rd, r := PollReadTls(open, o, rd0, capacity, f0);
    } else {
      rd, r := PollReadDirect(open, o, rd0, capacity, f0);
    }
  }

  method PollReadPadding(open: Opener, ghost o: Origin, rd0: Reader, capacity: nat, ghost f0: Filter)
    returns (rd: Reader, r: ReadResult)
    requires ReadOk(open, o, rd0) && Quiet(rd0) && FilterTraced(rd0, f0) && EofOk(rd0)
    requires rd0.readMode.PaddingMode? && rd0.pendingRead == []
    ensures ReadPolled(open, o, rd, rd0, r, f0, capacity)
  {
    rd := rd0;
    if rd.isReadEof {
      return rd, Got([]);
    }
    while true
      invariant ReadOk(open, o, rd) && Quiet(rd) && FilterTraced(rd, f0) && rd.readMode.PaddingMode?
      invariant rd.delivered == rd0.delivered && rd.tcpIn + rd.incoming == rd0.tcpIn + rd0.incoming
      invariant rd.pendingRead == [] && EofOk(rd) && rd.setbacks == rd0.setbacks
      decreases |rd.incoming|
    {
      var read;
      ghost var waiting := rd;
      rd, read := ReadTcp(rd, 8192);
      WaitingKeepsOk(open, o, rd, waiting);
      match read {
        case ConnectionError => return rd, ReadError(Connection);
        case NothingYet => return rd, NotReady;
        case Arrived(c) =>
          if c == [] {
            rd := MarkEof(open, o, rd, f0);
            return rd, Got([]);
          }
          ReceivedKeepsOk(open, o, rd, c);
          Assoc(rd.tcpIn, c, rd.incoming[|c|..]);
          assert c + rd.incoming[|c|..] == rd.incoming;
          ShrunkKeepsOk(open, o, Received(rd, c), c);
          rd := Shrunk(Received(rd, c), c);
          var progress;
          rd, progress := ProcessRecords(open, o, rd, f0);
          match progress {
            case Failing => return rd, ReadError(BadStream);
            case Switched =>
              rd, r := ReadAfterSwitch(open, o, rd, capacity, f0);
              return;
            case Waiting =>
              if rd.pendingRead != [] {
                rd, r := HandOut(open, o, rd, capacity, f0);
                return;
              }
          }
      }
    }
  }

  /** `poll_read`, from the moment the VLESS response has been consumed. */
  method PollRead(open: Opener, ghost o: Origin, rd0: Reader, capacity: nat, ghost f0: Filter)
    returns (rd: Reader, r: ReadResult)
    requires ReadOk(open, o, rd0) && Quiet(rd0) && FilterTraced(rd0, f0) && EofOk(rd0)
    ensures ReadPolled(open, o, rd, rd0, r, f0, capacity)
  {
    if rd0.pendingRead != [] {
      rd, r := HandOut(open, o, rd0, capacity, f0);
    } else if rd0.readMode.PaddingMode? {
      rd, r := PollReadPadding(open, o, rd0, capacity, f0);
    } else {
      rd, r := ReadAfterSwitch(open, o, rd0, capacity, f0);
    }
  }
}
