/**
  The Vision stream (prototype/vless/src/vision_stream.rs), write side: padding, deframing,
  back-pressure, acknowledgement arithmetic and the switch out of padding.

  The outer session is abstract: it may accept fewer plaintext bytes than offered, TCP may take
  fewer ciphertext units than offered, and either may fail or block at any call. The inner
  deframer and the filter are carried as the values that their own classes refine. The state of
  the write side is one record that the operations replace; the stream object holds it.
*/
module VisionWriting {
  import opened ByteStrings
  import opened FuzzyDeframing
  import opened VisionFiltering
  import opened VisionPadding
  import opened VisionUnpadding
  import HandshakeSearch
  import TlsDeframing

  // ---- The wire ----

  /** What travels on the TCP connection: encrypted payload, record framing, or bytes copied raw. */
  datatype Unit = Sealed(b: Byte) | Framing | Raw(b: Byte)

  /** The plaintext inside a run of units. */
  function Payload(us: seq<Unit>): Bytes {
    if us == [] then []
    else (if us[0].Sealed? then [us[0].b] else []) + Payload(us[1..])
  }

  predicate NoRaw(us: seq<Unit>) {
    forall i :: 0 <= i < |us| ==> !us[i].Raw?
  }

  function Seal(s: Bytes): (us: seq<Unit>)
    ensures |us| == |s| && forall i :: 0 <= i < |s| ==> us[i] == Sealed(s[i])
  {
    seq(|s|, i requires 0 <= i < |s| => Sealed(s[i]))
  }

  function RawCopy(s: Bytes): (us: seq<Unit>)
    ensures |us| == |s| && forall i :: 0 <= i < |s| ==> us[i] == Raw(s[i])
  {
    seq(|s|, i requires 0 <= i < |s| => Raw(s[i]))
  }

  lemma {:induction false} PayloadAppend(a: seq<Unit>, b: seq<Unit>)
    ensures Payload(a + b) == Payload(a) + Payload(b)
  {
    if a == [] {
      assert a + b == b;
    } else {
      PayloadAppend(a[1..], b);
      assert (a + b)[1..] == a[1..] + b;
      Assoc(if a[0].Sealed? then [a[0].b] else [], Payload(a[1..]), Payload(b));
    }
  }

  lemma {:induction false} PayloadOfSeal(s: Bytes)
    ensures Payload(Seal(s)) == s
  {
    if s != [] {
      PayloadOfSeal(s[1..]);
      assert Seal(s)[1..] == Seal(s[1..]);
    }
  }

  lemma {:induction false} PayloadOfOther(us: seq<Unit>)
    requires forall i :: 0 <= i < |us| ==> !us[i].Sealed?
    ensures Payload(us) == []
  {
    if us != [] {
      PayloadOfOther(us[1..]);
    }
  }

  // ---- Packet lists ----

  predicate AllContinue(ps: seq<Packet>) {
    forall i :: 0 <= i < |ps| ==> ps[i].command.Continue?
  }

  predicate AllShort(ps: seq<Packet>) {
    forall i :: 0 <= i < |ps| ==> |ps[i].content| <= MAX_CONTENT
  }

  predicate AllPaddingShort(ps: seq<Packet>) {
    forall i :: 0 <= i < |ps| ==> |ps[i].padding| <= MAX_PADDING_SIZE
  }

  /** The i-th padded byte string: the UUID goes before the first packet only. */
  ghost predicate Framed(uuid: Bytes, ps: seq<Packet>, chunks: seq<Bytes>) {
    && |chunks| == |ps|
    && forall i {:trigger chunks[i]} :: 0 <= i < |chunks| ==> chunks[i] == (if i == 0 then uuid else []) + Encode(ps[i])
  }

  lemma FramedSnoc(uuid: Bytes, ps: seq<Packet>, chunks: seq<Bytes>, p: Packet, bytes: Bytes)
    requires Framed(uuid, ps, chunks) && bytes == (if ps == [] then uuid else []) + Encode(p)
    ensures Framed(uuid, ps + [p], chunks + [bytes])
  {
  }

  /** Framed byte strings concatenate to the UUID followed by the encoded packets. */
  lemma {:induction false} FramedIsEncoded(uuid: Bytes, ps: seq<Packet>, chunks: seq<Bytes>)
    requires Framed(uuid, ps, chunks) && ps != []
    ensures Flatten(chunks) == uuid + EncodeAll(ps)
    decreases |ps|
  {
    var n := |ps| - 1;
    var front, last := ps[..n], Encode(ps[n]);
    FlattenLast(chunks);
    EncodeAllSnoc(front, ps[n]);
    assert front + [ps[n]] == ps;
    if n > 0 {
      FramedIsEncoded(uuid, front, chunks[..n]);
      assert chunks[n] == last;
    } else {
      assert Flatten(chunks[..n]) == [] && EncodeAll(front) == [];
    }
    JoinLast(uuid, EncodeAll(front), last, chunks[n], Flatten(chunks[..n]), n);
  }

  lemma JoinLast(uuid: Bytes, front: Bytes, last: Bytes, chunk: Bytes, flat: Bytes, n: nat)
    requires if n == 0 then chunk == uuid + last && front == [] && flat == []
             else chunk == [] + last || chunk == last
    requires n > 0 ==> flat == uuid + front
    ensures flat + chunk == uuid + (front + last)
  {
  }

  lemma SubmitSnoc(a: Bytes, b: Bytes, bytes: Bytes, tail: Bytes)
    requires tail == []
    ensures a + b + tail + bytes == a + (b + bytes) + tail
  {
  }

  /** A filter value together with how it came about, state by state. */
  ghost predicate Traced(filter: Filter, trail: seq<Filter>, events: seq<Event>) {
    && |trail| == |events| + 1
    && trail[0] == NewFilter
    && trail[|events|] == filter
    && forall i {:trigger events[i]} :: 0 <= i < |events| ==> trail[i + 1] == Apply(trail[i], events[i])
  }

  /** A traced filter is the outcome of its events. */
  lemma {:induction false} TracedIsApplied(filter: Filter, trail: seq<Filter>, events: seq<Event>)
    requires Traced(filter, trail, events)
    ensures filter == ApplyAll(events)
    decreases |events|
  {
    var n := |events|;
    if n > 0 {
      TracedIsApplied(trail[n - 1], trail[..n], events[..n - 1]);
      assert trail[n] == Apply(trail[n - 1], events[n - 1]);
    }
  }

  /** A record that counts as application data for the switch decision. */
  predicate IsAppData(r: Bytes) {
    |r| >= 3 && r[0] == 0x17 && r[1] == 3
  }

  // ---- The first answer after a feed ----

  /** The deframer waits for more bytes. */
  predicate Idle(f: Fuzzy) {
    match f
    case Searching(b) => |b| < HandshakeSearch.PATTERN_LEN && HandshakeSearch.IsHandshakePrefix(b)
    case Deframing(b) => TlsDeframing.NextFrame(b).NeedMore?
  }

  /** Idle is exactly the state in which a read answers NeedData and changes nothing. */
  lemma IdleIff(f: Fuzzy)
    ensures Idle(f) <==> FuzzyNext(f) == (f, NeedData)
  {
    if f.Searching? && Idle(f) {
      HandshakeSearch.ShortPrefixIsKept(f.buf);
      HandshakeSearch.HandshakeStartIsUnique(f.buf, None);
    }
    if FuzzyNext(f) == (f, NeedData) {
      NextSplitsTheBuffer(f);
    }
  }

  lemma NeedDataIsIdle(f: Fuzzy)
    requires FuzzyNext(f).1.NeedData?
    ensures Idle(FuzzyNext(f).0)
  {
    NextSplitsTheBuffer(f);
  }

  /** A search that released a prefix has found the handshake or waits with the suffix it kept. */
  lemma PrefixLeavesIdle(f: Fuzzy)
    requires FuzzyNext(f).1.UnknownPrefix?
    ensures FuzzyNext(f).0.Deframing? || Idle(FuzzyNext(f).0)
  {
    NextSplitsTheBuffer(f);
    if HandshakeSearch.HandshakeStart(f.buf).None? {
      FruitlessSearchSplits(f.buf);
    } else {
      FruitfulSearchSplits(f.buf);
    }
  }

  /**
    The first record after a feed covers everything held before the feed: the acknowledgement
    `processed - existing` cannot underflow on it. It is strict except for a zero-length handshake
    record whose five header bytes were all held.
  */
  lemma FirstRecordCovers(f: Fuzzy, buf: Bytes)
    requires Idle(f)
    requires FuzzyNext(FuzzyFeed(f, buf)).1.TlsRecord?
    ensures var r := FuzzyNext(FuzzyFeed(f, buf)).1.record;
            && |r| >= |f.buf|
            && (|r| == |f.buf| ==> f.Searching? && |r| == 5)
            && (f.Searching? ==> r[0] == 0x16)
  {
    NextSplitsTheBuffer(FuzzyFeed(f, buf));
    var h := f.buf + buf;
    if f.Deframing? {
      if |f.buf| >= 5 {
        assert forall i :: 0 <= i < 5 ==> h[i] == f.buf[i];
      }
    } else {
      assert HandshakeSearch.HandshakeStart(h) == Some(0);
    }
  }

  /** A malformed header right after a feed leaves at most four bytes of the old buffer in front. */
  lemma FirstErrorIsShort(f: Fuzzy, buf: Bytes)
    requires Idle(f)
    requires FuzzyNext(FuzzyFeed(f, buf)).1.Failed?
    ensures |f.buf| <= 5
  {
  }

  // ---- The write side ----

  datatype Mode = PaddingMode | TlsMode | DirectMode

  /** Answer of the session to offered plaintext. */
  datatype Accepted = Took(n: nat) | Refused

  /** Answer of TCP to offered bytes. */
  datatype Pushed = Pushed(n: nat) | Blocked | Broken

  datatype Drain = Empty | Stuck | Failure

  /** Outcome of `poll_write`; `Panicked` is an arithmetic underflow or a failed assertion. */
  datatype WriteResult = Wrote(n: nat) | WouldBlock | IoError | Panicked

  /** The longest buffer whose packets always fit their length field. */
  const SAFE_WRITE: nat := 65530

  /** Plaintext waiting for the session, ciphertext waiting for TCP, and what TCP has taken. */
  datatype Pipe = Pipe(
    pendingPlain: Bytes,
    outgoing: seq<Unit>,
    wire: seq<Unit>,
    /** How often the session may still refuse plaintext although it has nothing to send. */
    stalls: nat,
    /** History: how often the session or TCP failed or took nothing. */
    setbacks: nat)

  /** What has happened so far; nothing in the code depends on it. */
  datatype History = History(
    /** The VLESS response, once submitted. */
    prelude: Bytes,
    /** Every padded packet submitted, and its bytes. */
    packets: seq<Packet>,
    chunks: seq<Bytes>,
    /** How many events the filter had seen when each packet was made, the packet's own event included. */
    marks: seq<nat>,
    /** Bytes submitted to the session without padding, and bytes written to TCP without the session. */
    plainTail: Bytes,
    rawTail: Bytes,
    /** Every byte acknowledged to the caller of `poll_write`. */
    acked: Bytes,
    /** Everything that ever happened to the filter, and its value before and after each event. */
    events: seq<Event>,
    trail: seq<Filter>)

  datatype Writer = Writer(
    uuid: Bytes,
    /** Whether this side has a VLESS response to send, which it has done once `responseToSend` is false. */
    responds: bool,
    writeMode: Mode,
    innerWrite: Fuzzy,
    writeFirstPacket: bool,
    filter: Filter,
    responseToSend: bool,
    pendingDirectSwitch: bool,
    pendingTlsSwitch: bool,
    pipe: Pipe,
    past: History)

  /** All plaintext on its way out, oldest first. */
  function Line(p: Pipe): Bytes {
    Payload(p.wire) + Payload(p.outgoing) + p.pendingPlain
  }

  /** All plaintext the stream has decided to send through the session, in order. */
  function Submitted(h: History): Bytes {
    h.prelude + Flatten(h.chunks) + h.plainTail
  }

  const VLESS_RESPONSE: Bytes := [0, 0]

  /** Nothing submitted is lost, duplicated or reordered on its way through the session. */
  ghost predicate LineOk(w: Writer) {
    Line(w.pipe) == Submitted(w.past) && NoRaw(w.pipe.outgoing)
  }

  /** Raw bytes come after every sealed one and are exactly the raw tail. */
  ghost predicate WireOk(wire: seq<Unit>, rawTail: Bytes) {
    && |rawTail| <= |wire|
    && NoRaw(wire[..|wire| - |rawTail|])
    && wire[|wire| - |rawTail|..] == RawCopy(rawTail)
  }

  /** The recorded packets are the ones that were encoded, behind the response if this side has one. */
  ghost predicate PacketsOk(w: Writer) {
    && Framed(w.uuid, w.past.packets, w.past.chunks) && AllPaddingShort(w.past.packets)
    && w.past.prelude == if w.responds && !w.responseToSend then VLESS_RESPONSE else []
  }

  /** The command of a packet for an output of the deframer whose event left the filter at g. */
  function Decision(e: Event, g: Filter): Command {
    match e
    case Saw(record) => if StopsAt(g, record) then (if g.supportsXtls then Direct else End) else Continue
    case SkippedPrefix => if IsFiltering(g) then Continue else End
    case GaveUp => End
  }

  /** Whether that packet is padded like inner TLS. */
  predicate PadsLikeTls(e: Event, g: Filter) {
    g.isTls || (e.Saw? && StopsAt(g, e.record))
  }

  /** The length that the packet's header states for its content. */
  predicate StatesLength(p: Packet, n: nat) {
    n == |p.content| % 0x1_0000
  }

  /** The padding is one that the generator may choose for the packet. */
  ghost predicate PaddingFits(p: Packet, isTls: bool) {
    forall n: nat {:trigger StatesLength(p, n)} :: StatesLength(p, n) ==> PaddingAllowed(n, isTls, |p.padding|)
  }

  lemma PaddingFitsIff(p: Packet, isTls: bool)
    ensures PaddingFits(p, isTls) <==> PaddingAllowed(|p.content| % 0x1_0000, isTls, |p.padding|)
  {
    assert StatesLength(p, |p.content| % 0x1_0000);
  }

  /** The k-th event is the packet's own, and its command and padding are the ones decided then. */
  ghost predicate DecidedAt(p: Packet, k: nat, events: seq<Event>, trail: seq<Filter>) {
    && 0 < k <= |events| < |trail|
    && (events[k - 1].Saw? ==> events[k - 1].record == p.content)
    && p.command == Decision(events[k - 1], trail[k])
    && PaddingFits(p, PadsLikeTls(events[k - 1], trail[k]))
  }

  predicate IsCount(ps: seq<Packet>, n: nat) {
    n == |ps|
  }

  /** Every packet has an event of its own, in order. */
  ghost predicate Decided(ps: seq<Packet>, marks: seq<nat>, events: seq<Event>, trail: seq<Filter>) {
    forall n: nat {:trigger IsCount(ps, n)} :: IsCount(ps, n) ==>
      && |marks| == n
      && (forall i :: 0 <= i < n ==> DecidedAt(ps[i], marks[i], events, trail))
      && (forall i, j :: 0 <= i < j < n ==> marks[i] < marks[j])
  }

  lemma DecidedGrows(ps: seq<Packet>, marks: seq<nat>, events: seq<Event>, trail: seq<Filter>,
                     events2: seq<Event>, trail2: seq<Filter>)
    requires Decided(ps, marks, events, trail) && events <= events2 && trail <= trail2 && |events2| < |trail2|
    ensures Decided(ps, marks, events2, trail2)
  {
    assert IsCount(ps, |ps|);
    forall i | 0 <= i < |ps|
      ensures DecidedAt(ps[i], marks[i], events2, trail2)
    {
      assert DecidedAt(ps[i], marks[i], events, trail);
    }
  }

  /** The filter is what its recorded events made it, and every packet followed from it. */
  ghost predicate FilterOk(w: Writer) {
    && Traced(w.filter, w.past.trail, w.past.events)
    && Decided(w.past.packets, w.past.marks, w.past.events, w.past.trail)
  }

  /** The last event has no packet yet, and calls for this one. */
  ghost predicate Due(w: Writer, content: Bytes, command: Command, isTls: bool) {
    && FilterOk(w) && w.past.events != []
    && var e := w.past.events[|w.past.events| - 1];
    && (e.Saw? ==> e.record == content)
    && command == Decision(e, w.filter) && isTls == PadsLikeTls(e, w.filter)
    && forall i :: 0 <= i < |w.past.marks| ==> w.past.marks[i] < |w.past.events|
  }

  lemma DecidedSnoc(ps: seq<Packet>, marks: seq<nat>, events: seq<Event>, trail: seq<Filter>, p: Packet, k: nat)
    requires Decided(ps, marks, events, trail) && DecidedAt(p, k, events, trail)
    requires forall i :: 0 <= i < |marks| ==> marks[i] < k
    ensures Decided(ps + [p], marks + [k], events, trail)
  {
    assert IsCount(ps, |ps|);
  }

  /** All packets continue except the last, whose command is c; Direct is only sent when allowed. */
  ghost predicate EndedWith(ps: seq<Packet>, c: Command, filter: Filter) {
    && ps != []
    && ContinuesUntilLast(ps)
    && ps[|ps| - 1].command == c
    && (c.Direct? ==> filter.supportsXtls && IsAppData(ps[|ps| - 1].content))
  }

  ghost predicate BaseOk(w: Writer) {
    && LineOk(w) && WireOk(w.pipe.wire, w.past.rawTail) && PacketsOk(w)
    && w.writeFirstPacket == (w.past.packets == [])
    && FlagsNested(w.filter)
  }

  /** Padding with no switch decided: acknowledged bytes are in packets or held by the deframer. */
  ghost predicate Filling(w: Writer) {
    AllContinue(w.past.packets) && Idle(w.innerWrite) && w.past.acked == Contents(w.past.packets) + w.innerWrite.buf
  }

  /** Padding is over for the caller, but the final packet may still be on its way. */
  ghost predicate Switching(w: Writer, c: Command) {
    && EndedWith(w.past.packets, c, w.filter)
    && w.innerWrite == Searching([])
    && w.past.acked == Contents(w.past.packets)
  }

  ghost predicate PaddingOk(w: Writer) {
    && w.past.plainTail == [] && w.past.rawTail == []
    && !(w.pendingDirectSwitch && w.pendingTlsSwitch)
    && (if w.pendingDirectSwitch || w.pendingTlsSwitch then Switching(w, if w.pendingDirectSwitch then Direct else End)
        else Filling(w))
    && (w.responseToSend ==> w.responds && w.past.packets == [])
  }

  /** Padding is over: nothing is held back and every acknowledged byte is in packets or in the tail. */
  ghost predicate SwitchedOk(w: Writer, c: Command, tail: Bytes) {
    && EndedWith(w.past.packets, c, w.filter)
    && w.pipe.pendingPlain == [] && w.innerWrite.buf == []
    && !w.pendingDirectSwitch && !w.pendingTlsSwitch && !w.responseToSend
    && w.past.acked == Contents(w.past.packets) + tail
  }

  /** What holds between calls in each write mode; in particular where every acknowledged byte is. */
  ghost predicate WriteOk(w: Writer) {
    && BaseOk(w)
    && match w.writeMode
       case PaddingMode => PaddingOk(w)
       case TlsMode => SwitchedOk(w, End, w.past.plainTail) && w.past.rawTail == []
       case DirectMode => SwitchedOk(w, Direct, w.past.rawTail) && w.past.plainTail == [] && w.pipe.outgoing == []
  }

  function NewWriter(uuid: Bytes, responseToSend: bool, stalls: nat): (w: Writer)
    ensures WriteOk(w) && FilterOk(w) && w.past.acked == []
  {
    Writer(uuid, responseToSend, PaddingMode, Searching([]), true, NewFilter, responseToSend, false, false,
           Pipe([], [], [], stalls, 0), History([], [], [], [], [], [], [], [], [NewFilter]))
  }

  // ---- Environment ----

  lemma SealedRecord(before: seq<Unit>, data: Bytes)
    requires NoRaw(before)
    ensures NoRaw(before + ([Framing] + Seal(data)))
    ensures Payload(before + ([Framing] + Seal(data))) == Payload(before) + data
  {
    var record := [Framing] + Seal(data);
    PayloadOfRecord(data, record);
    PayloadAppend(before, record);
  }

  lemma PayloadOfRecord(data: Bytes, record: seq<Unit>)
    requires record == [Framing] + Seal(data)
    ensures NoRaw(record) && Payload(record) == data
  {
    PayloadAppend([Framing], Seal(data));
    PayloadOfOther([Framing]);
    PayloadOfSeal(data);
  }

  /** One more setback. */
  function Hindered(p: Pipe): Pipe {
    p.(setbacks := p.setbacks + 1)
  }

  /** `session.writer().write`: any prefix of the data may be accepted, or the call may fail. */
  method SessionWrite(p0: Pipe, data: Bytes) returns (p: Pipe, r: Accepted)
    requires NoRaw(p0.outgoing)
    ensures p.wire == p0.wire && p.pendingPlain == p0.pendingPlain && NoRaw(p.outgoing) && p.stalls <= p0.stalls
    ensures r.Took? ==> r.n <= |data| && Payload(p.outgoing) == Payload(p0.outgoing) + data[..r.n]
    ensures r == Took(0) ==> p.outgoing == p0.outgoing
    ensures r == Took(0) && data != [] && p.outgoing == [] ==> p.stalls < p0.stalls
    ensures p.setbacks == p0.setbacks + if r.Took? && (r.n > 0 || data == []) then 0 else 1
  {
    p := p0;
    var fails: bool := *;
    if fails {
      return Hindered(p), Refused;
    }
    var n: nat :| n <= |data| && (n == 0 && data != [] && p.outgoing == [] ==> p.stalls > 0);
    if n == 0 {
      if data != [] && p.outgoing == [] {
        p := p.(stalls := p.stalls - 1);
      }
      return if data == [] then p else Hindered(p), Took(0);
    }
    var record := [Framing] + Seal(data[..n]);
    SealedRecord(p.outgoing, data[..n]);
    p := p.(outgoing := p.outgoing + record);
    return p, Took(n);
  }

  /** `write_tls`: TCP takes any number of ciphertext units, blocks or fails. */
  method WriteTlsDirect(p0: Pipe) returns (p: Pipe, r: Pushed)
    requires NoRaw(p0.outgoing)
    ensures NoRaw(p.outgoing) && Line(p) == Line(p0) && p.pendingPlain == p0.pendingPlain && p.stalls == p0.stalls
    ensures if r.Pushed? then |p.outgoing| == |p0.outgoing| - r.n else p == Hindered(p0)
    ensures p.setbacks == p0.setbacks + if r.Pushed? && r.n > 0 then 0 else 1
    ensures NoRaw(p0.wire) ==> NoRaw(p.wire)
  {
    p := p0;
    var blocked: bool, broken: bool := *, *;
    if broken {
      return Hindered(p), Broken;
    }
    if blocked {
      return Hindered(p), Blocked;
    }
    var n: nat :| n <= |p.outgoing|;
    var out, rest := p.outgoing[..n], p.outgoing[n..];
    PayloadAppend(p.wire, out);
    PayloadAppend(out, rest);
    assert p.outgoing == out + rest;
    Assoc(Payload(p.wire), Payload(out), Payload(rest));
    p := p.(wire := p.wire + out, outgoing := rest);
    return if n == 0 then Hindered(p) else p, Pushed(n);
  }

  /** `tcp.poll_write`: any prefix of the bytes goes out raw. */
  method TcpWrite(p0: Pipe, ghost rawTail: Bytes, buf: Bytes) returns (p: Pipe, r: WriteResult)
    requires WireOk(p0.wire, rawTail)
    ensures p == p0.(wire := p.wire, setbacks := p.setbacks) && Payload(p.wire) == Payload(p0.wire) && !r.Panicked?
    ensures r.Wrote? ==> r.n <= |buf| && WireOk(p.wire, rawTail + buf[..r.n])
    ensures !r.Wrote? ==> p == Hindered(p0)
    ensures p.setbacks == p0.setbacks + if r.Wrote? && (r.n > 0 || buf == []) then 0 else 1
  {
    var wire := p0.wire;
    var blocked: bool, broken: bool := *, *;
    if broken {
      return Hindered(p0), IoError;
    }
    if blocked {
      return Hindered(p0), WouldBlock;
    }
    var n: nat :| n <= |buf|;
    ghost var sealed := wire[..|wire| - |rawTail|];
    var raw := RawCopy(buf[..n]);
    PayloadAppend(wire, raw);
    PayloadOfOther(raw);
    assert wire == sealed + RawCopy(rawTail);
    Assoc(sealed, RawCopy(rawTail), raw);
    assert RawCopy(rawTail + buf[..n]) == RawCopy(rawTail) + raw;
    wire := wire + raw;
    assert wire[..|wire| - |rawTail + buf[..n]|] == sealed;
    p := p0.(wire := wire);
    return if n == 0 && buf != [] then Hindered(p) else p, Wrote(n);
  }

  // ---- Plaintext to session to TCP ----

  /** Take the first n bytes off the plaintext in front of the session. */
  lemma LineMoves(a: Bytes, b: Bytes, data: Bytes, n: nat)
    requires n <= |data|
    ensures a + (b + data[..n]) + data[n..] == a + b + data
  {
    assert data == data[..n] + data[n..];
    Assoc(a, b, data[..n]);
    Assoc(a + b, data[..n], data[n..]);
  }

  method WriteToSession(p0: Pipe, data: Bytes) returns (p: Pipe, ok: bool)
    requires NoRaw(p0.outgoing)
    ensures NoRaw(p.outgoing) && p.wire == p0.wire
    ensures ok ==> Line(p) == Line(p0) + data
    ensures p.setbacks >= p0.setbacks && (!ok ==> p.setbacks > p0.setbacks)
  {
    p := p0;
    var a, b := Payload(p0.wire), Payload(p0.outgoing);
    if p.pendingPlain != [] {
      Assoc(a + b, p.pendingPlain, data);
      p := p.(pendingPlain := p.pendingPlain + data);
      return p, true;
    }
    var written := 0;
    while written < |data|
      invariant written <= |data| && p.pendingPlain == [] && NoRaw(p.outgoing) && p.wire == p0.wire
      invariant Payload(p.outgoing) == b + data[..written]
      invariant p.setbacks == p0.setbacks
    {
      var r;
      p, r := SessionWrite(p, data[written..]);
      match r {
        case Refused => return p, false;
        case Took(n) =>
          if n == 0 {
            p := p.(pendingPlain := data[written..]);
            LineMoves(a, b, data, written);
            return p, true;
          }
          Assoc(b, data[..written], data[written..][..n]);
          assert data[..written] + data[written..][..n] == data[..written + n];
          written := written + n;
      }
    }
    LineMoves(a, b, data, written);
    return p, true;
  }

  /** Returns how much was moved, or None if the session failed. */
  method DrainPendingPlain(p0: Pipe) returns (p: Pipe, r: Option<nat>)
    requires NoRaw(p0.outgoing)
    ensures NoRaw(p.outgoing) && p.wire == p0.wire
    ensures r.Some? ==> Line(p) == Line(p0) && |p.pendingPlain| == |p0.pendingPlain| - r.value
    ensures p.setbacks >= p0.setbacks
    ensures r.None? || p.pendingPlain != [] ==> p.setbacks > p0.setbacks
  {
    p := p0;
    var initialLen := |p.pendingPlain|;
    while p.pendingPlain != []
      invariant NoRaw(p.outgoing) && p.wire == p0.wire && |p.pendingPlain| <= initialLen
      invariant Line(p) == Line(p0) && p.setbacks == p0.setbacks
      decreases |p.pendingPlain|
    {
      var pending, r := p.pendingPlain, Refused;
      LineMoves(Payload(p.wire), Payload(p.outgoing), pending, 0);
      ghost var sealed := Payload(p.outgoing);
      p, r := SessionWrite(p, pending);
      match r {
        case Refused => return p, None;
        case Took(n) =>
          if n == 0 {
            break;
          }
          LineMoves(Payload(p.wire), sealed, pending, n);
          p := p.(pendingPlain := pending[n..]);
      }
    }
    return p, Some(initialLen - |p.pendingPlain|);
  }

  /** Drain plaintext buffer and session until both are empty, TCP blocks, or something fails. */
  method DrainPadding(p0: Pipe) returns (p: Pipe, r: Drain)
    requires NoRaw(p0.outgoing) && NoRaw(p0.wire)
    ensures NoRaw(p.outgoing) && NoRaw(p.wire)
    ensures !r.Failure? ==> Line(p) == Line(p0)
    ensures r.Empty? ==> p.pendingPlain == [] && p.outgoing == []
    ensures p.setbacks >= p0.setbacks && (!r.Empty? ==> p.setbacks > p0.setbacks)
  {
    p := p0;
    while true
      invariant NoRaw(p.outgoing) && NoRaw(p.wire) && Line(p) == Line(p0) && p.setbacks >= p0.setbacks
      decreases |p.pendingPlain|, |p.outgoing|
    {
      if p.outgoing != [] {
        var w;
        p, w := WriteTlsDirect(p);
        match w {
          case Pushed(n) =>
            if n == 0 {
              return p, Failure;
            }
          case Broken => return p, Failure;
          case Blocked => return p, Stuck;
        }
      } else if p.pendingPlain != [] {
        var moved;
        p, moved := DrainPendingPlain(p);
        if moved.None? || moved.value == 0 {
          return p, Failure;
        }
      } else {
        return p, Empty;
      }
    }
  }

  /** Drain the session in Tls mode. */
  method DrainTls(p0: Pipe) returns (p: Pipe, r: Drain)
    requires NoRaw(p0.outgoing) && NoRaw(p0.wire)
    ensures NoRaw(p.outgoing) && NoRaw(p.wire) && Line(p) == Line(p0) && p.pendingPlain == p0.pendingPlain
    ensures r.Empty? ==> p.outgoing == []
    ensures p.setbacks >= p0.setbacks && (!r.Empty? ==> p.setbacks > p0.setbacks)
  {
    p := p0;
    while p.outgoing != []
      invariant NoRaw(p.outgoing) && NoRaw(p.wire) && Line(p) == Line(p0) && p.pendingPlain == p0.pendingPlain
      invariant p.setbacks == p0.setbacks
      decreases |p.outgoing|
    {
      var w;
      p, w := WriteTlsDirect(p);
      match w {
        case Pushed(n) =>
          if n == 0 {
            return p, Failure;
          }
        case Broken => return p, Failure;
        case Blocked => return p, Stuck;
      }
    }
    return p, Empty;
  }

  // ---- One buffer in padding mode ----

  /** Everything about the write side that does not concern acknowledgement, while padding lasts. */
  ghost predicate Sound(w: Writer) {
    && LineOk(w) && NoRaw(w.pipe.wire) && PacketsOk(w)
    && w.writeFirstPacket == (w.past.packets == [])
    && w.past.plainTail == [] && w.past.rawTail == []
    && w.writeMode.PaddingMode? && !w.responseToSend
    && FlagsNested(w.filter)
  }

  /** It is still the same stream; setbacks only add up, and without one the step succeeds. */
  predicate Proceeds(w0: Writer, w: Writer, ok: bool) {
    && w.uuid == w0.uuid && w.responds == w0.responds
    && w.pipe.setbacks >= w0.pipe.setbacks && (!ok ==> w.pipe.setbacks > w0.pipe.setbacks)
  }

  lemma DueThenMade(w: Writer, p: Packet, isTls: bool)
    requires Due(w, p.content, p.command, isTls) && PaddingFits(p, isTls)
    ensures Decided(w.past.packets + [p], w.past.marks + [|w.past.events|], w.past.events, w.past.trail)
  {
    DecidedSnoc(w.past.packets, w.past.marks, w.past.events, w.past.trail, p, |w.past.events|);
  }

  /** Pad one piece of content and hand it to the session. */
  method Emit(w0: Writer, content: Bytes, command: Command, isTls: bool) returns (w: Writer, ok: bool, p: Packet)
    requires Sound(w0)
    ensures w == w0.(writeFirstPacket := false, pipe := w.pipe, past := w.past)
    ensures w.past == w0.past.(packets := w0.past.packets + [p], chunks := w.past.chunks, marks := w.past.marks)
    ensures p.command == command && p.content == content
    ensures ok ==> Sound(w)
    ensures Due(w0, content, command, isTls) ==> FilterOk(w)
    ensures Proceeds(w0, w, ok)
  {
    var past := w0.past;
    var opening := if w0.writeFirstPacket then Some(w0.uuid) else None;
    var bytes, padding := Pad(content, opening, command, isTls);
    p := Packet(command, content, padding);
    PaddingFitsIff(p, isTls);
    var pipe;
    pipe, ok := WriteToSession(w0.pipe, bytes);
    FlattenSnoc(past.chunks, bytes);
    SubmitSnoc(past.prelude, Flatten(past.chunks), bytes, past.plainTail);
    FramedSnoc(w0.uuid, past.packets, past.chunks, p, bytes);
    past := past.(packets := past.packets + [p], chunks := past.chunks + [bytes], marks := past.marks + [|past.events|]);
    w := w0.(writeFirstPacket := false, pipe := pipe, past := past);
    if Due(w0, content, command, isTls) {
      DueThenMade(w0, p, isTls);
    }
  }

  /** A packet after which padding goes on. */
  method SendContinue(w0: Writer, content: Bytes) returns (w: Writer, ok: bool)
    requires Sound(w0) && AllContinue(w0.past.packets)
    ensures w == w0.(writeFirstPacket := false, pipe := w.pipe, past := w.past)
    ensures w.past == w0.past.(packets := w.past.packets, chunks := w.past.chunks, marks := w.past.marks)
    ensures ok ==> Sound(w)
    ensures Due(w0, content, Continue, w0.filter.isTls) ==> FilterOk(w)
    ensures Proceeds(w0, w, ok)
    ensures AllContinue(w.past.packets) && Contents(w.past.packets) == Contents(w0.past.packets) + content
    ensures |content| <= MAX_CONTENT && AllShort(w0.past.packets) ==> AllShort(w.past.packets)
  {
    var p;
    w, ok, p := Emit(w0, content, Continue, w0.filter.isTls);
    ContentsSnoc(w0.past.packets, p);
  }

  /** The packet that ends the padding. */
  method SendFinal(w0: Writer, content: Bytes, command: Command, isTls: bool) returns (w: Writer, ok: bool)
    requires Sound(w0) && AllContinue(w0.past.packets)
    requires command.Direct? ==> w0.filter.supportsXtls && IsAppData(content)
    ensures w == w0.(writeFirstPacket := false, pipe := w.pipe, past := w.past)
    ensures w.past == w0.past.(packets := w.past.packets, chunks := w.past.chunks, marks := w.past.marks)
    ensures ok ==> Sound(w)
    ensures Due(w0, content, command, isTls) ==> FilterOk(w)
    ensures Proceeds(w0, w, ok)
    ensures EndedWith(w.past.packets, command, w.filter)
    ensures Contents(w.past.packets) == Contents(w0.past.packets) + content
    ensures |content| <= MAX_CONTENT && AllShort(w0.past.packets) ==> AllShort(w.past.packets)
  {
    var p;
    w, ok, p := Emit(w0, content, command, isTls);
    ContentsSnoc(w0.past.packets, p);
  }

  /** Drain after a packet; a blocked drain is not an error. */
  method Flush(w0: Writer) returns (w: Writer, r: Drain)
    requires Sound(w0)
    ensures w == w0.(pipe := w.pipe)
    ensures !r.Failure? ==> Sound(w)
    ensures Proceeds(w0, w, r.Empty?)
  {
    var pipe;
    pipe, r := DrainPadding(w0.pipe);
    w := w0.(pipe := pipe);
  }

  lemma SoundIsBase(w: Writer, f: Fuzzy, acked: Bytes)
    requires Sound(w)
    ensures BaseOk(w.(innerWrite := f, past := w.past.(acked := acked)))
  {
    NoRawIsWireOk(w.pipe.wire);
  }

  lemma NoRawIsWireOk(wire: seq<Unit>)
    requires NoRaw(wire)
    ensures WireOk(wire, [])
  {
    assert wire[..|wire| - 0] == wire;
  }

  /** Acknowledge the n bytes that are in packets now; the caller sends the rest again. */
  function Acknowledged(w: Writer, buf: Bytes, n: nat): (v: Writer)
    requires n <= |buf| && Sound(w) && Contents(w.past.packets) == w.past.acked + buf[..n]
    requires !(w.pendingDirectSwitch && w.pendingTlsSwitch)
    requires if w.pendingDirectSwitch || w.pendingTlsSwitch then
               EndedWith(w.past.packets, if w.pendingDirectSwitch then Direct else End, w.filter)
             else AllContinue(w.past.packets)
    ensures WriteOk(v) && v.past == w.past.(acked := w.past.acked + buf[..n]) && v.filter == w.filter && v.pipe == w.pipe
    ensures v.pendingDirectSwitch == w.pendingDirectSwitch && v.pendingTlsSwitch == w.pendingTlsSwitch
  {
    EmptyParts(Contents(w.past.packets), []);
    SoundIsBase(w, Searching([]), w.past.acked + buf[..n]);
    w.(innerWrite := Searching([]), past := w.past.(acked := w.past.acked + buf[..n]))
  }

  lemma NoticedIsTraced(w: Writer, e: Event)
    ensures var v := w.(filter := Apply(w.filter, e),
                        past := w.past.(events := w.past.events + [e], trail := w.past.trail + [Apply(w.filter, e)]));
            FilterOk(w) ==> FilterOk(v)
  {
    if FilterOk(w) {
      var h := w.past;
      DecidedGrows(h.packets, h.marks, h.events, h.trail, h.events + [e], h.trail + [Apply(w.filter, e)]);
    }
  }

  /** Show one event to the filter and record it. */
  function Noticed(w: Writer, e: Event): (v: Writer)
    ensures FilterOk(w) ==> FilterOk(v)
    ensures v.filter == Apply(w.filter, e)
    ensures v == w.(filter := v.filter, past := w.past.(events := w.past.events + [e], trail := w.past.trail + [v.filter]))
  {
    NoticedIsTraced(w, e);
    w.(filter := Apply(w.filter, e),
       past := w.past.(events := w.past.events + [e], trail := w.past.trail + [Apply(w.filter, e)]))
  }

  /** Right after an event, the packet it calls for is due. */
  lemma NoticedIsDue(w: Writer, e: Event, content: Bytes)
    requires e.Saw? ==> e.record == content
    ensures FilterOk(w) ==> Due(Noticed(w, e), content, Decision(e, Noticed(w, e).filter), PadsLikeTls(e, Noticed(w, e).filter))
  {
    if FilterOk(w) {
      assert IsCount(w.past.packets, |w.past.packets|);
      forall i | 0 <= i < |w.past.marks|
        ensures w.past.marks[i] < |Noticed(w, e).past.events|
      {
        assert DecidedAt(w.past.packets[i], w.past.marks[i], w.past.events, w.past.trail);
      }
    }
  }

  /** The first `processed` bytes of h are in packets, the rest is in the deframer; nothing is acknowledged yet. */
  ghost predicate Mid(w: Writer, before: Bytes, acked: Bytes, h: Bytes, processed: nat) {
    && Sound(w) && AllContinue(w.past.packets) && !w.pendingDirectSwitch && !w.pendingTlsSwitch
    && w.past.acked == acked
    && processed <= |h| && w.innerWrite.buf == h[processed..]
    && Contents(w.past.packets) == before + h[..processed]
  }

  /** The filter, having seen this record, ends the padding. */
  predicate StopsAt(g: Filter, record: Bytes) {
    (g.isTls && IsAppData(record)) || (!IsFiltering(g) && !g.isTls12OrAbove)
  }

  /** The record ends the padding: send it with the final command and acknowledge up to it. */
  method EndAtRecord(w0: Writer, buf: Bytes, existing: nat, processed: nat, record: Bytes)
    returns (w: Writer, r: WriteResult)
    requires existing <= processed <= existing + |buf| && |record| <= MAX_CONTENT
    requires Sound(w0) && AllContinue(w0.past.packets) && !w0.pendingDirectSwitch && !w0.pendingTlsSwitch
    requires Contents(w0.past.packets) + record == w0.past.acked + buf[..processed - existing]
    requires w0.filter.supportsXtls ==> IsAppData(record)
    ensures !r.WouldBlock? && (r.Panicked? ==> processed == existing)
    ensures processed == existing ==> r.Panicked? || r.IoError?
    ensures r.Wrote? ==>
              WriteOk(w) && r.n == processed - existing && w.past.acked == w0.past.acked + buf[..r.n]
    ensures r.Wrote? ==> w.pendingDirectSwitch == w0.filter.supportsXtls && w.pendingTlsSwitch == !w0.filter.supportsXtls
    ensures AllShort(w0.past.packets) ==> AllShort(w.past.packets)
    ensures Due(w0, record, if w0.filter.supportsXtls then Direct else End, true) ==> FilterOk(w)
    ensures w.filter == w0.filter
    ensures Proceeds(w0, w, !r.IoError?)
  {
    var direct := w0.filter.supportsXtls;
    w := w0.(pendingDirectSwitch := direct, pendingTlsSwitch := !direct);
    var sent;
    w, sent := SendFinal(w, record, if direct then Direct else End, true);
    if !sent {
      return w, IoError;
    }
    if processed <= existing {
      return w, Panicked;
    }
    var drained;
    w, drained := Flush(w);
    if drained.Failure? {
      return w, IoError;
    }
    w := Acknowledged(w, buf, processed - existing);
    return w, Wrote(processed - existing);
  }

  /** The record does not end the padding; if TCP blocks, the rest of the buffer is left to the caller. */
  method ContinueAfterRecord(w0: Writer, buf: Bytes, existing: nat, processed: nat, record: Bytes)
    returns (w: Writer, r: Option<WriteResult>)
    requires existing <= processed <= existing + |buf| && |record| <= MAX_CONTENT
    requires Sound(w0) && AllContinue(w0.past.packets) && !w0.pendingDirectSwitch && !w0.pendingTlsSwitch
    requires Contents(w0.past.packets) + record == w0.past.acked + buf[..processed - existing]
    requires |w0.innerWrite.buf| == existing + |buf| - processed
    ensures r.None? ==> Sound(w) && AllContinue(w.past.packets)
                        && w == w0.(writeFirstPacket := false, pipe := w.pipe, past := w.past)
                        && w.past == w0.past.(packets := w.past.packets, chunks := w.past.chunks, marks := w.past.marks)
                        && Contents(w.past.packets) == Contents(w0.past.packets) + record
    ensures r.Some? ==> r.value.Wrote? || r.value.IoError?
    ensures r.Some? && r.value.Wrote? ==>
              WriteOk(w) && r.value.n == processed - existing && w.past.acked == w0.past.acked + buf[..r.value.n]
              && !w.pendingDirectSwitch && !w.pendingTlsSwitch
    ensures AllShort(w0.past.packets) ==> AllShort(w.past.packets)
    ensures Due(w0, record, Continue, w0.filter.isTls) ==> FilterOk(w)
    ensures w.filter == w0.filter
    ensures Proceeds(w0, w, r.None?)
  {
    var sent, drained;
    w, sent := SendContinue(w0, record);
    if !sent {
      return w, Some(IoError);
    }
    w, drained := Flush(w);
    match drained {
      case Stuck =>
        var unprocessed := |buf| - (processed - existing);
        assert |w.innerWrite.buf| == unprocessed;
        w := Acknowledged(w, buf, processed - existing);
        return w, Some(Wrote(processed - existing));
      case Failure => return w, Some(IoError);
      case Empty => return w, None;
    }
  }

  /** The acknowledged part of a fed buffer. */
  lemma AckedPart(before: Bytes, held: Bytes, buf: Bytes, processed: nat)
    requires |held| <= processed <= |held + buf|
    ensures before + (held + buf)[..processed] == before + held + buf[..processed - |held|]
  {
    var n := processed - |held|;
    assert (held + buf)[..processed] == held + buf[..n];
    Assoc(before, held, buf[..n]);
  }

  /** Taking the next piece off h. */
  lemma NextPiece(before: Bytes, h: Bytes, from: nat, piece: Bytes, rest: Bytes)
    requires from <= |h| && piece + rest == h[from..]
    ensures from + |piece| <= |h| && rest == h[from + |piece|..]
    ensures before + h[..from] + piece == before + h[..from + |piece|]
  {
    assert |piece| + |rest| == |h| - from;
    assert h[from..][..|piece|] == piece;
    assert h[from..][|piece|..] == rest;
    assert h[..from + |piece|] == h[..from] + piece;
    Assoc(before, h[..from], piece);
  }

  /** A record with no payload past its header can only end the padding by using up the filter's count. */
  lemma BareHandshakeStops(f: Filter, record: Bytes)
    requires |record| == 5 && record[0] == 0x16
    ensures StopsAt(FilterRecord(f, record), record) <==> f.count <= 1 && !f.isTls12OrAbove
  {
  }

  /** One record off the deframer; `processed` counts it already. `None` means: go on with the buffer. */
  method HandleRecord(w0: Writer, buf: Bytes, existing: nat, processed: nat, record: Bytes)
    returns (w: Writer, r: Option<WriteResult>)
    requires existing <= processed <= existing + |buf| && |record| <= MAX_CONTENT
    requires Sound(w0) && AllContinue(w0.past.packets) && !w0.pendingDirectSwitch && !w0.pendingTlsSwitch
    requires Contents(w0.past.packets) + record == w0.past.acked + buf[..processed - existing]
    requires |w0.innerWrite.buf| == existing + |buf| - processed
    ensures r.None? ==> Sound(w) && AllContinue(w.past.packets) && !w.pendingDirectSwitch && !w.pendingTlsSwitch
                        && w.past.acked == w0.past.acked && w.innerWrite == w0.innerWrite
                        && Contents(w.past.packets) == Contents(w0.past.packets) + record
    ensures r.Some? ==> !r.value.WouldBlock?
    ensures r.Some? && r.value.Wrote? ==>
              WriteOk(w) && r.value.n == processed - existing && w.past.acked == w0.past.acked + buf[..r.value.n]
    ensures r == Some(Panicked) ==> processed == existing && StopsAt(FilterRecord(w0.filter, record), record)
    ensures processed == existing && StopsAt(FilterRecord(w0.filter, record), record)
            ==> r == Some(Panicked) || r == Some(IoError)
    ensures r.None? ==> !StopsAt(FilterRecord(w0.filter, record), record)
    ensures r.Some? && r.value.Wrote? ==>
              && w.pendingDirectSwitch == (StopsAt(w.filter, record) && w.filter.supportsXtls)
              && w.pendingTlsSwitch == (StopsAt(w.filter, record) && !w.filter.supportsXtls)
              && w.filter == FilterRecord(w0.filter, record)
    ensures AllShort(w0.past.packets) ==> AllShort(w.past.packets)
    ensures FilterOk(w0) ==> FilterOk(w)
    ensures Proceeds(w0, w, r != Some(IoError) && (r.Some? && r.value.Wrote? ==> StopsAt(w.filter, record)))
  {
    ApplyAdvances(w0.filter, Saw(record));
    NoticedIsDue(w0, Saw(record), record);
    w := Noticed(w0, Saw(record));
    if StopsAt(w.filter, record) {
      var ended;
      w, ended := EndAtRecord(w, buf, existing, processed, record);
      return w, Some(ended);
    }
    w, r := ContinueAfterRecord(w, buf, existing, processed, record);
  }

  /** A released prefix while the filter still counts: one more padded packet. */
  method ContinueAfterPrefix(w0: Writer, prefix: Bytes) returns (w: Writer, ok: bool)
    requires Sound(w0) && AllContinue(w0.past.packets)
    ensures ok ==> Sound(w) && AllContinue(w.past.packets)
                   && w == w0.(writeFirstPacket := false, pipe := w.pipe, past := w.past)
                   && w.past == w0.past.(packets := w.past.packets, chunks := w.past.chunks, marks := w.past.marks)
                   && Contents(w.past.packets) == Contents(w0.past.packets) + prefix
    ensures |prefix| <= MAX_CONTENT && AllShort(w0.past.packets) ==> AllShort(w.past.packets)
    ensures Due(w0, prefix, Continue, w0.filter.isTls) ==> FilterOk(w)
    ensures Proceeds(w0, w, ok)
  {
    w, ok := SendContinue(w0, prefix);
    if ok {
      var drained;
      w, drained := Flush(w);
      ok := !drained.Failure?;
    }
  }

  /** The bytes that end the padding without a record: a prefix when the filter stops, or invalid data. */
  method EndAtBytes(w0: Writer, content: Bytes) returns (w: Writer, ok: bool)
    requires Sound(w0) && AllContinue(w0.past.packets) && !w0.pendingDirectSwitch
    ensures ok ==> Sound(w) && EndedWith(w.past.packets, End, w.filter)
                   && w.past.acked == w0.past.acked && !w.pendingDirectSwitch && w.pendingTlsSwitch
                   && Contents(w.past.packets) == Contents(w0.past.packets) + content
    ensures |content| <= MAX_CONTENT && AllShort(w0.past.packets) ==> AllShort(w.past.packets)
    ensures Due(w0, content, End, w0.filter.isTls) ==> FilterOk(w)
    ensures Proceeds(w0, w, ok)
  {
    w := w0.(pendingTlsSwitch := true);
    w, ok := SendFinal(w, content, End, w.filter.isTls);
    if ok {
      var drained;
      w, drained := Flush(w);
      ok := !drained.Failure?;
    }
  }

  /** One released prefix off the deframer, the first output of the buffer. */
  method HandlePrefix(w0: Writer, buf: Bytes, existing: nat, prefix: Bytes)
    returns (w: Writer, r: Option<WriteResult>)
    requires |prefix| <= existing + |buf|
    requires Sound(w0) && AllContinue(w0.past.packets) && !w0.pendingDirectSwitch && !w0.pendingTlsSwitch
    requires existing <= |prefix| ==> Contents(w0.past.packets) + prefix == w0.past.acked + buf[..|prefix| - existing]
    ensures r.None? ==> Sound(w) && AllContinue(w.past.packets) && !w.pendingDirectSwitch && !w.pendingTlsSwitch
                        && w.past.acked == w0.past.acked && w.innerWrite == w0.innerWrite
                        && Contents(w.past.packets) == Contents(w0.past.packets) + prefix
    ensures r.Some? && r.value.Wrote? ==>
              WriteOk(w) && r.value.n <= |buf| && w.past.acked == w0.past.acked + buf[..r.value.n]
    ensures r.Some? ==> !r.value.WouldBlock?
    ensures r == Some(Panicked) ==> w0.filter.count <= 1 && |prefix| < existing
    ensures w0.filter.count <= 1 && |prefix| < existing ==> r == Some(Panicked) || r == Some(IoError)
    ensures |prefix| <= MAX_CONTENT && AllShort(w0.past.packets) ==> AllShort(w.past.packets)
    ensures FilterOk(w0) ==> FilterOk(w)
    ensures r.Some? && r.value.Wrote? ==> w0.filter.count <= 1 && r.value.n == |prefix| - existing && w.pendingTlsSwitch
    ensures r.None? ==> w0.filter.count > 1
    ensures Proceeds(w0, w, r != Some(IoError))
  {
    ApplyAdvances(w0.filter, SkippedPrefix);
    NoticedIsDue(w0, SkippedPrefix, prefix);
    w := Noticed(w0, SkippedPrefix);
    var ok;
    if IsFiltering(w.filter) {
      w, ok := ContinueAfterPrefix(w, prefix);
      return w, if ok then None else Some(IoError);
    }
    var ended;
    w, ended := EndAtPrefix(w, buf, existing, prefix);
    return w, Some(ended);
  }

  /** The prefix ends the padding: acknowledge what of it is in the buffer. */
  method EndAtPrefix(w0: Writer, buf: Bytes, existing: nat, prefix: Bytes) returns (w: Writer, r: WriteResult)
    requires |prefix| <= existing + |buf|
    requires Sound(w0) && AllContinue(w0.past.packets) && !w0.pendingDirectSwitch
    requires existing <= |prefix| ==> Contents(w0.past.packets) + prefix == w0.past.acked + buf[..|prefix| - existing]
    ensures r.IoError? || r == if |prefix| < existing then Panicked else Wrote(|prefix| - existing)
    ensures r.Wrote? ==> WriteOk(w) && w.past.acked == w0.past.acked + buf[..r.n] && w.pendingTlsSwitch
    ensures |prefix| <= MAX_CONTENT && AllShort(w0.past.packets) ==> AllShort(w.past.packets)
    ensures Due(w0, prefix, End, w0.filter.isTls) ==> FilterOk(w)
    ensures Proceeds(w0, w, !r.IoError?)
  {
    var ok;
    w, ok := EndAtBytes(w0, prefix);
    if !ok {
      return w, IoError;
    }
    if |prefix| < existing {
      return w, Panicked;
    }
    w := Acknowledged(w, buf, |prefix| - existing);
    return w, Wrote(|prefix| - existing);
  }

  /** Malformed data behind valid records: everything left goes out in one final packet. */
  method HandleError(w0: Writer, buf: Bytes) returns (w: Writer, r: WriteResult)
    requires Sound(w0) && AllContinue(w0.past.packets) && !w0.pendingDirectSwitch && !w0.pendingTlsSwitch
    requires Contents(w0.past.packets) + w0.innerWrite.buf == w0.past.acked + buf
    ensures r == Wrote(|buf|) || r == IoError
    ensures r.Wrote? ==> WriteOk(w) && w.past.acked == w0.past.acked + buf[..r.n]
    ensures |w0.innerWrite.buf| <= MAX_CONTENT && AllShort(w0.past.packets) ==> AllShort(w.past.packets)
    ensures FilterOk(w0) ==> FilterOk(w)
    ensures Proceeds(w0, w, !r.IoError?)
  {
    ApplyAdvances(w0.filter, GaveUp);
    NoticedIsDue(w0, GaveUp, w0.innerWrite.buf);
    w := Noticed(w0, GaveUp);
    var ok;
    w, ok := EndAtBytes(w, w0.innerWrite.buf);
    if !ok {
      return w, IoError;
    }
    assert buf[..|buf|] == buf;
    w := Acknowledged(w, buf, |buf|);
    return w, Wrote(|buf|);
  }

  /** The buffer is used up; what the deframer holds is acknowledged too. */
  function HeldBack(w: Writer, buf: Bytes): (v: Writer)
    requires Sound(w) && AllContinue(w.past.packets) && !w.pendingDirectSwitch && !w.pendingTlsSwitch
    requires Idle(w.innerWrite) && Contents(w.past.packets) + w.innerWrite.buf == w.past.acked + buf
    ensures WriteOk(v) && v.past == w.past.(acked := w.past.acked + buf) && v.filter == w.filter && v.pipe == w.pipe
  {
    w.(past := w.past.(acked := w.past.acked + buf))
  }

  /**
    When processing a buffer panics, in terms the caller could check before the call: bytes are held
    from an unfinished search, the filter is about to stop, and the first thing the deframer hands
    out is either a prefix shorter than the held bytes, or a zero-length record that ends with them.
  */
  predicate PanicCondition(f: Fuzzy, filter: Filter, buf: Bytes) {
    && f.Searching?
    && filter.count <= 1
    && var a := FuzzyNext(FuzzyFeed(f, buf)).1;
       || (a.UnknownPrefix? && |a.prefix| < |f.buf|)
       || (a.TlsRecord? && |a.record| == |f.buf| && !filter.isTls12OrAbove)
  }

  /** The first output of the deframer after a feed is exactly as long as what it held before. */
  predicate FirstIsHeld(f: Fuzzy, buf: Bytes) {
    f.Searching? && f.buf != [] && |Output(FuzzyNext(FuzzyFeed(f, buf)).1)| == |f.buf|
  }

  /** When processing a non-empty buffer answers that nothing was written: such a prefix ends the padding. */
  predicate ZeroCondition(f: Fuzzy, filter: Filter, buf: Bytes) {
    FirstIsHeld(f, buf) && FuzzyNext(FuzzyFeed(f, buf)).1.UnknownPrefix? && filter.count <= 1
  }

  /** What the first output after a feed leads to. */
  datatype Fate = Fate(panics: bool, zero: bool, held: bool)

  function FateOf(f: Fuzzy, filter: Filter, buf: Bytes): Fate {
    Fate(PanicCondition(f, filter, buf), ZeroCondition(f, filter, buf), FirstIsHeld(f, buf))
  }

  /** What is known about the outputs of one buffer before the next read of the deframer. */
  ghost predicate Reading(w: Writer, w0: Writer, buf: Bytes, processed: nat, fate: Fate) {
    var existing := |w0.innerWrite.buf|;
    && Mid(w, Contents(w0.past.packets), w0.past.acked, w0.innerWrite.buf + buf, processed)
    && (if processed == 0 then w.innerWrite == FuzzyFeed(w0.innerWrite, buf) && w.filter == w0.filter
        else
          && (existing <= processed || existing <= 5)
          && (w.innerWrite.Searching? ==> Idle(w.innerWrite))
          && !fate.panics && !fate.zero)
    && Proceeds(w0, w, true)
    && (|buf| <= SAFE_WRITE && AllShort(w0.past.packets) ==> AllShort(w.past.packets))
    && (FilterOk(w0) ==> FilterOk(w))
  }

  /**
    The outcome of one buffer. It panics, or answers zero, exactly if its fate says so, unless the session
    fails first; it falls short of the buffer only if the padding is over or TCP blocks.
  */
  ghost predicate Processed(w: Writer, w0: Writer, buf: Bytes, r: WriteResult, fate: Fate) {
    && !r.WouldBlock?
    && (r.Wrote? ==> WriteOk(w) && r.n <= |buf| && w.past.acked == w0.past.acked + buf[..r.n])
    && (r.Panicked? ==> fate.panics)
    && (fate.panics ==> r.Panicked? || r.IoError?)
    && (fate.zero ==> r == Wrote(0) || r.IoError?)
    && (r == Wrote(0) && buf != [] ==> fate.zero || (fate.held && w.pipe.setbacks > w0.pipe.setbacks))
    && Proceeds(w0, w, !r.IoError? && (r.Wrote? ==> r.n == |buf| || w.pendingDirectSwitch || w.pendingTlsSwitch))
    && (|buf| <= SAFE_WRITE && AllShort(w0.past.packets) ==> AllShort(w.past.packets))
    && (FilterOk(w0) ==> FilterOk(w))
  }

  /** A writer that may process a buffer. */
  ghost predicate Ready(w: Writer) {
    WriteOk(w) && w.writeMode.PaddingMode? && !w.responseToSend && !w.pendingDirectSwitch && !w.pendingTlsSwitch
  }

  /** The first record decides: it panics exactly if it ends with the held bytes and stops the padding. */
  lemma FirstRecordPanics(f: Fuzzy, filter: Filter, buf: Bytes, record: Bytes)
    requires Idle(f) && FuzzyNext(FuzzyFeed(f, buf)).1 == TlsRecord(record)
    ensures |record| >= |f.buf|
    ensures PanicCondition(f, filter, buf)
       <==> |record| == |f.buf| && StopsAt(FilterRecord(filter, record), record)
  {
    FirstRecordCovers(f, buf);
    if |record| == |f.buf| {
      BareHandshakeStops(filter, record);
    }
  }

  /** Bytes taken off h so far and the next piece, in terms of the acknowledgement. */
  lemma PieceFacts(w: Writer, w0: Writer, buf: Bytes, processed: nat, piece: Bytes, rest: Bytes)
    requires Ready(w0) && piece + rest == w.innerWrite.buf
    requires Mid(w, Contents(w0.past.packets), w0.past.acked, w0.innerWrite.buf + buf, processed)
    ensures var existing, done := |w0.innerWrite.buf|, processed + |piece|;
            && done + |rest| == existing + |buf|
            && rest == (w0.innerWrite.buf + buf)[done..]
            && Contents(w.past.packets) + piece == Contents(w0.past.packets) + (w0.innerWrite.buf + buf)[..done]
            && (existing <= done ==> Contents(w.past.packets) + piece == w0.past.acked + buf[..done - existing])
  {
    var held, before := w0.innerWrite.buf, Contents(w0.past.packets);
    NextPiece(before, held + buf, processed, piece, rest);
    if |held| <= processed + |piece| {
      AckedPart(before, held, buf, processed + |piece|);
    }
  }

  method TakeRecord(w: Writer, ghost w0: Writer, buf: Bytes, existing: nat, processed: nat, next: Fuzzy, record: Bytes,
                    ghost fate: Fate)
    returns (v: Writer, r: Option<WriteResult>)
    requires Ready(w0) && existing == |w0.innerWrite.buf| && Reading(w, w0, buf, processed, fate)
    requires record + next.buf == w.innerWrite.buf && next.Deframing? && 5 <= |record| <= MAX_CONTENT
    requires processed == 0 ==> |record| >= existing
    requires processed == 0 ==> (fate.panics <==> |record| == existing && StopsAt(FilterRecord(w.filter, record), record))
    requires processed == 0 ==> !fate.zero && (|record| == existing ==> fate.held)
    ensures r.None? ==> Reading(v, w0, buf, processed + |record|, fate) && |v.innerWrite.buf| < |w.innerWrite.buf|
    ensures r.Some? ==> Processed(v, w0, buf, r.value, fate)
  {
    var done := processed + |record|;
    PieceFacts(w, w0, buf, processed, record, next.buf);
    v, r := HandleRecord(w.(innerWrite := next), buf, existing, done, record);
  }

  method TakePrefix(w: Writer, ghost w0: Writer, buf: Bytes, existing: nat, next: Fuzzy, prefix: Bytes, ghost fate: Fate)
    returns (v: Writer, r: Option<WriteResult>)
    requires Ready(w0) && existing == |w0.innerWrite.buf| <= 5 && Reading(w, w0, buf, 0, fate)
    requires prefix + next.buf == w.innerWrite.buf && prefix != [] && (next.Searching? ==> Idle(next))
    requires fate.panics <==> w.filter.count <= 1 && |prefix| < existing
    requires (fate.zero <==> w.filter.count <= 1 && |prefix| == existing) && (|prefix| == existing ==> fate.held)
    ensures r.None? ==> Reading(v, w0, buf, |prefix|, fate) && |v.innerWrite.buf| < |w.innerWrite.buf|
    ensures r.Some? ==> Processed(v, w0, buf, r.value, fate)
  {
    PieceFacts(w, w0, buf, 0, prefix, next.buf);
    v, r := HandlePrefix(w.(innerWrite := next), buf, existing, prefix);
  }

  /** Everything so far is in packets or in the deframer, and the loop will not read it again. */
  ghost predicate Leftover(w: Writer, w0: Writer, buf: Bytes, fate: Fate) {
    && Sound(w) && AllContinue(w.past.packets) && !w.pendingDirectSwitch && !w.pendingTlsSwitch
    && Contents(w.past.packets) + w.innerWrite.buf == w.past.acked + buf && w.past.acked == w0.past.acked
    && (|buf| <= SAFE_WRITE && AllShort(w0.past.packets) ==> AllShort(w.past.packets))
    && (FilterOk(w0) ==> FilterOk(w)) && Proceeds(w0, w, true) && !fate.panics && !fate.zero
  }

  lemma RestIsLeftover(w: Writer, w0: Writer, buf: Bytes, processed: nat, next: Fuzzy, fate: Fate)
    requires Ready(w0) && Reading(w, w0, buf, processed, fate) && next.buf == w.innerWrite.buf && !fate.panics && !fate.zero
    ensures Leftover(w.(innerWrite := next), w0, buf, fate)
    ensures |next.buf| + processed == |w0.innerWrite.buf| + |buf|
  {
    PieceFacts(w, w0, buf, processed, next.buf, []);
    assert buf[..|buf|] == buf;
  }

  method TakeRest(w: Writer, ghost w0: Writer, buf: Bytes, ghost processed: nat, next: Fuzzy, failed: bool, ghost fate: Fate)
    returns (v: Writer, r: WriteResult)
    requires Ready(w0) && Reading(w, w0, buf, processed, fate) && next.buf == w.innerWrite.buf && !fate.panics && !fate.zero
    requires if failed then processed == 0 ==> |w0.innerWrite.buf| <= 5 else Idle(next)
    ensures Processed(v, w0, buf, r, fate)
  {
    RestIsLeftover(w, w0, buf, processed, next, fate);
    if failed {
      v, r := TakeError(w.(innerWrite := next), w0, buf, fate);
    } else {
      v, r := TakeHeld(w.(innerWrite := next), w0, buf, fate);
    }
  }

  method TakeError(w: Writer, ghost w0: Writer, buf: Bytes, ghost fate: Fate) returns (v: Writer, r: WriteResult)
    requires Leftover(w, w0, buf, fate) && (|buf| <= SAFE_WRITE ==> |w.innerWrite.buf| <= MAX_CONTENT)
    ensures Processed(v, w0, buf, r, fate)
  {
    v, r := HandleError(w, buf);
  }

  method TakeHeld(w: Writer, ghost w0: Writer, buf: Bytes, ghost fate: Fate) returns (v: Writer, r: WriteResult)
    requires Leftover(w, w0, buf, fate) && Idle(w.innerWrite)
    ensures Processed(v, w0, buf, r, fate)
  {
    assert buf[..|buf|] == buf;
    v := HeldBack(w, buf);
    r := Wrote(|buf|);
  }

  /** What the first read after a feed can be, other than a record, and what it means for the panic. */
  lemma FirstOtherAnswer(f: Fuzzy, filter: Filter, buf: Bytes)
    requires Idle(f) && !FuzzyNext(FuzzyFeed(f, buf)).1.TlsRecord?
    ensures var a := FuzzyNext(FuzzyFeed(f, buf)).1;
            && (a.UnknownPrefix? ==> |f.buf| <= 5)
            && (a.UnknownPrefix? ==> (PanicCondition(f, filter, buf) <==> filter.count <= 1 && |a.prefix| < |f.buf|))
            && (a.Failed? ==> |f.buf| <= 5)
            && (!a.UnknownPrefix? ==> !PanicCondition(f, filter, buf) && !FateOf(f, filter, buf).zero)
            && (a.UnknownPrefix? ==> (FateOf(f, filter, buf).zero <==> filter.count <= 1 && |a.prefix| == |f.buf|))
            && (a.UnknownPrefix? && |a.prefix| == |f.buf| ==> FirstIsHeld(f, buf))
  {
    NextSplitsTheBuffer(FuzzyFeed(f, buf));
    if FuzzyNext(FuzzyFeed(f, buf)).1.Failed? {
      FirstErrorIsShort(f, buf);
    }
  }

  /** The first turn of the loop, which alone can panic. */
  method ReadFirst(w: Writer, ghost w0: Writer, buf: Bytes, existing: nat, ghost fate: Fate)
    returns (v: Writer, processed: nat, stop: Option<WriteResult>)
    requires Ready(w0) && existing == |w0.innerWrite.buf| && Reading(w, w0, buf, 0, fate)
    requires fate == FateOf(w0.innerWrite, w0.filter, buf)
    ensures stop.None? ==> processed > 0 && Reading(v, w0, buf, processed, fate)
    ensures stop.Some? ==> Processed(v, w0, buf, stop.value, fate)
  {
    var (next, answer) := FuzzyNext(w.innerWrite);
    NextSplitsTheBuffer(w.innerWrite);
    processed := |Output(answer)|;
    if answer.TlsRecord? {
      FirstRecordPanics(w0.innerWrite, w0.filter, buf, answer.record);
      assert !fate.zero && (|answer.record| == existing ==> fate.held);
      v, stop := TakeRecord(w, w0, buf, existing, 0, next, answer.record, fate);
      return;
    }
    v, stop := ReadFirstOther(w, w0, buf, existing, next, answer, fate);
  }

  method ReadFirstOther(w: Writer, ghost w0: Writer, buf: Bytes, existing: nat, next: Fuzzy, answer: Answer, ghost fate: Fate)
    returns (v: Writer, stop: Option<WriteResult>)
    requires Ready(w0) && existing == |w0.innerWrite.buf| && Reading(w, w0, buf, 0, fate)
    requires fate == FateOf(w0.innerWrite, w0.filter, buf)
    requires (next, answer) == FuzzyNext(w.innerWrite) && !answer.TlsRecord?
    ensures stop.None? ==> Output(answer) != [] && Reading(v, w0, buf, |Output(answer)|, fate)
    ensures stop.Some? ==> Processed(v, w0, buf, stop.value, fate)
  {
    NextSplitsTheBuffer(w.innerWrite);
    FirstOtherAnswer(w0.innerWrite, w0.filter, buf);
    if answer.UnknownPrefix? {
      PrefixLeavesIdle(w.innerWrite);
      v, stop := TakePrefix(w, w0, buf, existing, next, answer.prefix, fate);
      return;
    }
    if answer.NeedData? {
      NeedDataIsIdle(w.innerWrite);
    }
    var r;
    v, r := TakeRest(w, w0, buf, 0, next, answer.Failed?, fate);
    stop := Some(r);
  }

  /** What a read of the deframer can answer once the search is over or waits. */
  predicate LaterAnswer(f: Fuzzy, next: Fuzzy, answer: Answer) {
    && Output(answer) + next.buf == f.buf && !answer.UnknownPrefix?
    && (answer.TlsRecord? ==> next.Deframing? && 5 <= |answer.record| <= MAX_CONTENT)
    && (!answer.TlsRecord? ==> next.buf == f.buf && (answer.NeedData? ==> Idle(next)))
  }

  lemma LaterAnswers(f: Fuzzy, next: Fuzzy, answer: Answer)
    requires (f.Searching? ==> Idle(f)) && FuzzyNext(f) == (next, answer)
    ensures LaterAnswer(f, next, answer)
  {
    NextSplitsTheBuffer(f);
    if f.Searching? {
      IdleIff(f);
    }
    if answer.NeedData? {
      NeedDataIsIdle(f);
    }
  }

  /** A later turn of the loop: the search is over or waits. */
  method ReadNext(w: Writer, ghost w0: Writer, buf: Bytes, existing: nat, processed: nat, ghost fate: Fate)
    returns (v: Writer, done: nat, stop: Option<WriteResult>)
    requires Ready(w0) && existing == |w0.innerWrite.buf| && processed > 0 && Reading(w, w0, buf, processed, fate)
    ensures stop.None? ==> done > 0 && Reading(v, w0, buf, done, fate) && |v.innerWrite.buf| < |w.innerWrite.buf|
    ensures stop.Some? ==> Processed(v, w0, buf, stop.value, fate)
  {
    var (next, answer) := FuzzyNext(w.innerWrite);
    LaterAnswers(w.innerWrite, next, answer);
    done := processed + |Output(answer)|;
    if answer.TlsRecord? {
      v, stop := TakeLater(w, w0, buf, existing, processed, next, answer, fate);
    } else {
      v, stop := TakeLast(w, w0, buf, processed, next, answer, fate);
    }
  }

  method TakeLater(w: Writer, ghost w0: Writer, buf: Bytes, existing: nat, processed: nat, next: Fuzzy, answer: Answer,
                   ghost fate: Fate)
    returns (v: Writer, stop: Option<WriteResult>)
    requires Ready(w0) && existing == |w0.innerWrite.buf| && processed > 0 && Reading(w, w0, buf, processed, fate)
    requires LaterAnswer(w.innerWrite, next, answer) && answer.TlsRecord?
    ensures stop.None? ==> Reading(v, w0, buf, processed + |answer.record|, fate) && |v.innerWrite.buf| < |w.innerWrite.buf|
    ensures stop.Some? ==> Processed(v, w0, buf, stop.value, fate)
  {
    v, stop := TakeRecord(w, w0, buf, existing, processed, next, answer.record, fate);
  }

  method TakeLast(w: Writer, ghost w0: Writer, buf: Bytes, ghost processed: nat, next: Fuzzy, answer: Answer, ghost fate: Fate)
    returns (v: Writer, stop: Option<WriteResult>)
    requires Ready(w0) && processed > 0 && Reading(w, w0, buf, processed, fate)
    requires LaterAnswer(w.innerWrite, next, answer) && !answer.TlsRecord?
    ensures stop.Some? && Processed(v, w0, buf, stop.value, fate)
  {
    var r;
    v, r := TakeRest(w, w0, buf, processed, next, answer.Failed?, fate);
    stop := Some(r);
  }

  /**
    The loop of `poll_write_padding_tls` over one buffer. What it acknowledges is in packets or held;
    it panics only in the stated case, and in that case it does so unless the session fails first.
  */
  method ProcessBuffer(w0: Writer, buf: Bytes) returns (w: Writer, r: WriteResult)
    requires Ready(w0)
    ensures Processed(w, w0, buf, r, FateOf(w0.innerWrite, w0.filter, buf))
  {
    ghost var fate := FateOf(w0.innerWrite, w0.filter, buf);
    var existing := |w0.innerWrite.buf|;
    var processed: nat, stop;
    StartsReading(w0, buf, fate);
    w, processed, stop := ReadFirst(w0.(innerWrite := FuzzyFeed(w0.innerWrite, buf)), w0, buf, existing, fate);
    while stop.None?
      invariant stop.None? ==> processed > 0 && Reading(w, w0, buf, processed, fate)
      invariant stop.Some? ==> Processed(w, w0, buf, stop.value, fate)
      decreases stop.None?, |w.innerWrite.buf|
    {
      w, processed, stop := ReadNext(w, w0, buf, existing, processed, fate);
    }
    r := stop.value;
  }

  lemma StartsReading(w0: Writer, buf: Bytes, fate: Fate)
    requires Ready(w0)
    ensures Reading(w0.(innerWrite := FuzzyFeed(w0.innerWrite, buf)), w0, buf, 0, fate)
  {
    var h := w0.innerWrite.buf + buf;
    assert h[0..] == h && h[..0] == [];
    assert Contents(w0.past.packets) + [] == Contents(w0.past.packets);
    assert w0.pipe.wire[..|w0.pipe.wire| - 0] == w0.pipe.wire;
  }

  // ---- Switching and the other modes ----

  /** Write in Tls mode: plaintext straight into the session. */
  method PollWriteTls(w0: Writer, buf: Bytes) returns (w: Writer, r: WriteResult)
    requires WriteOk(w0) && w0.writeMode.TlsMode?
    ensures !r.Panicked? && (!r.IoError? ==> WriteOk(w) && w.writeMode.TlsMode?)
    ensures w.filter == w0.filter && w.past == w0.past.(plainTail := w.past.plainTail, acked := w.past.acked)
    ensures r.Wrote? ==> r.n <= |buf| && w.past.acked == w0.past.acked + buf[..r.n]
    ensures r.WouldBlock? ==> w.past == w0.past
    ensures Proceeds(w0, w, r.Wrote? && r.n == |buf|) && (r == Wrote(0) ==> buf == [])
  {
    var p := w0.pipe;
    var pos := 0;
    TlsPosition(w0, buf, 0);
    while pos < |buf|
      invariant pos <= |buf| && NoRaw(p.outgoing) && NoRaw(p.wire) && p.pendingPlain == []
      invariant Line(p) == Line(w0.pipe) + buf[..pos] && p.setbacks >= w0.pipe.setbacks
      decreases |buf| - pos, p.stalls, |p.outgoing|
    {
      var answer;
      ghost var before := p;
      p, answer := SessionWrite(p, buf[pos..]);
      if answer.Refused? {
        return w0.(pipe := p), IoError;
      }
      TlsAccepts(before, p, Line(w0.pipe), buf, pos, answer.n);
      pos := pos + answer.n;
      var wouldBlock := false;
      while p.outgoing != [] && !wouldBlock
        invariant NoRaw(p.outgoing) && NoRaw(p.wire) && p.pendingPlain == []
        invariant Line(p) == Line(w0.pipe) + buf[..pos]
        invariant p.setbacks >= w0.pipe.setbacks && (wouldBlock ==> p.setbacks > w0.pipe.setbacks)
        invariant answer.n == 0 ==> |p.outgoing| <= |before.outgoing|
        invariant answer.n == 0 ==> p.stalls <= before.stalls && (before.outgoing == [] ==> p.stalls < before.stalls)
        decreases !wouldBlock, |p.outgoing|
      {
        var pushed;
        p, pushed := WriteTlsDirect(p);
        match pushed {
          case Pushed(n) => wouldBlock := n == 0;
          case Blocked => wouldBlock := true;
          case Broken => return w0.(pipe := p), IoError;
        }
      }
      if wouldBlock {
        w := TlsWrote(w0, p, buf, pos);
        return w, if pos == 0 then WouldBlock else Wrote(pos);
      }
    }
    w := TlsWrote(w0, p, buf, pos);
    return w, Wrote(pos);
  }

  lemma TlsPosition(w: Writer, buf: Bytes, n: nat)
    requires WriteOk(w) && w.writeMode.TlsMode? && n == 0
    ensures NoRaw(w.pipe.wire) && Line(w.pipe) == Line(w.pipe) + buf[..n]
  {
    assert w.pipe.wire[..|w.pipe.wire| - 0] == w.pipe.wire;
  }

  lemma TlsAccepts(p0: Pipe, p: Pipe, line: Bytes, buf: Bytes, pos: nat, n: nat)
    requires p0.pendingPlain == [] && p.pendingPlain == [] && p.wire == p0.wire && pos + n <= |buf|
    requires Payload(p.outgoing) == Payload(p0.outgoing) + buf[pos..][..n]
    requires Line(p0) == line + buf[..pos]
    ensures Line(p) == line + buf[..pos + n]
  {
    var a, b, c := Payload(p0.wire), Payload(p0.outgoing), buf[pos..][..n];
    assert Line(p0) == a + b && Line(p) == a + (b + c);
    Assoc(a, b, c);
    Assoc(line, buf[..pos], c);
    assert buf[..pos] + c == buf[..pos + n];
  }

  /** n bytes of the buffer are in the session and acknowledged. */
  function TlsWrote(w: Writer, p: Pipe, buf: Bytes, n: nat): (v: Writer)
    requires WriteOk(w) && w.writeMode.TlsMode? && n <= |buf|
    requires NoRaw(p.outgoing) && NoRaw(p.wire) && p.pendingPlain == [] && Line(p) == Line(w.pipe) + buf[..n]
    ensures WriteOk(v) && v.writeMode.TlsMode? && v.filter == w.filter
    ensures v.past == w.past.(plainTail := v.past.plainTail, acked := w.past.acked + buf[..n])
    ensures n == 0 ==> v.past == w.past
    ensures v.pipe == p && v.uuid == w.uuid && v.responds == w.responds
  {
    var h := w.past;
    Assoc(h.prelude + Flatten(h.chunks), h.plainTail, buf[..n]);
    Assoc(Contents(h.packets), h.plainTail, buf[..n]);
    assert p.wire[..|p.wire| - 0] == p.wire;
    w.(pipe := p, past := h.(plainTail := h.plainTail + buf[..n], acked := h.acked + buf[..n]))
  }

  /** Write in Direct mode: bytes straight to TCP. */
  method PollWriteDirect(w0: Writer, buf: Bytes) returns (w: Writer, r: WriteResult)
    requires WriteOk(w0) && w0.writeMode.DirectMode?
    ensures !r.Panicked? && WriteOk(w) && w.writeMode.DirectMode? && w.filter == w0.filter
    ensures r.Wrote? ==> r.n <= |buf| && w.past == w0.past.(rawTail := w0.past.rawTail + buf[..r.n], acked := w0.past.acked + buf[..r.n])
    ensures !r.Wrote? ==> w.past == w0.past
    ensures Proceeds(w0, w, r.Wrote? && (r.n > 0 || buf == []))
  {
    var pipe;
    pipe, r := TcpWrite(w0.pipe, w0.past.rawTail, buf);
    w := w0.(pipe := pipe);
    if r.Wrote? {
      var h := w.past;
      Assoc(Contents(h.packets), h.rawTail, buf[..r.n]);
      w := w.(past := h.(rawTail := h.rawTail + buf[..r.n], acked := h.acked + buf[..r.n]));
    }
  }

  /** `post_padding_cleanup`, as far as the write side is concerned. */
  function Cleanup(w: Writer, readMode: Mode): Writer {
    if readMode.PaddingMode? || w.writeMode.PaddingMode? then w
    else w.(innerWrite := w.innerWrite.(buf := []), pipe := w.pipe.(pendingPlain := []))
  }

  /** Cleaning up discards nothing: whichever side switches last, there is nothing left to free. */
  lemma CleanupDiscardsNothing(w: Writer, readMode: Mode)
    requires WriteOk(w)
    ensures Cleanup(w, readMode) == w
  {
  }

  /** The switch out of padding, once the final packet has left. */
  function SwitchWrite(w: Writer, mode: Mode, readMode: Mode): Writer {
    Cleanup(w.(writeMode := mode, pendingDirectSwitch := false, pendingTlsSwitch := false), readMode)
  }

  lemma SwitchKeepsOk(w: Writer, readMode: Mode)
    requires WriteOk(w) && w.writeMode.PaddingMode? && !w.responseToSend
    requires w.pendingDirectSwitch || w.pendingTlsSwitch
    requires w.pipe.pendingPlain == [] && w.pipe.outgoing == []
    ensures var v := SwitchWrite(w, if w.pendingDirectSwitch then DirectMode else TlsMode, readMode);
            WriteOk(v) && v.past == w.past && v.filter == w.filter && !v.writeMode.PaddingMode?
            && v.pipe == w.pipe && v.uuid == w.uuid && v.responds == w.responds
  {
    var v := w.(writeMode := if w.pendingDirectSwitch then DirectMode else TlsMode,
                pendingDirectSwitch := false, pendingTlsSwitch := false);
    assert Contents(w.past.packets) + [] == Contents(w.past.packets);
    assert WriteOk(v);
    CleanupDiscardsNothing(v, readMode);
  }

  /** Submit the VLESS response if it is due, then drain; `None` means both are done. */
  method Prepare(w0: Writer) returns (w: Writer, stop: Option<WriteResult>)
    requires WriteOk(w0) && w0.writeMode.PaddingMode?
    ensures stop.None? ==> w.pipe.pendingPlain == [] && w.pipe.outgoing == [] && !w.responseToSend
    ensures stop.Some? ==> stop.value.IoError? || stop.value.WouldBlock?
    ensures stop != Some(IoError) ==> WriteOk(w)
    ensures Proceeds(w0, w, stop.None?)
    ensures w == w0.(pipe := w.pipe, responseToSend := w.responseToSend, past := w0.past.(prelude := w.past.prelude))
  {
    w := w0;
    assert w.pipe.wire[..|w.pipe.wire| - 0] == w.pipe.wire;
    if w.responseToSend {
      var response := VLESS_RESPONSE;
      var pipe, ok := WriteToSession(w.pipe, response);
      w := w.(pipe := pipe);
      if !ok {
        return w, Some(IoError);
      }
      w := w.(responseToSend := false, past := w.past.(prelude := response));
      assert Submitted(w.past) == Submitted(w0.past) + response;
    }
    assert WriteOk(w);
    var pipe, drained := DrainPadding(w.pipe);
    w := w.(pipe := pipe);
    match drained {
      case Failure => return w, Some(IoError);
      case Stuck => return w, Some(WouldBlock);
      case Empty => return w, None;
    }
  }

  /** What one `poll_write` call does, in every mode. */
  ghost predicate Polled(w: Writer, w0: Writer, buf: Bytes, r: WriteResult) {
    && (r.Wrote? ==> WriteOk(w) && r.n <= |buf| && w.past.acked == w0.past.acked + buf[..r.n])
    && (r.WouldBlock? ==> WriteOk(w) && w.past.acked == w0.past.acked)
    && (|buf| <= SAFE_WRITE && AllShort(w0.past.packets) ==> AllShort(w.past.packets))
    && (FilterOk(w0) ==> FilterOk(w))
    && Proceeds(w0, w, r.Panicked? || (r.Wrote? && Enough(w, buf, r.n)))
  }

  /** All of the buffer, or what fits before a switch, or what TCP took. */
  predicate Enough(w: Writer, buf: Bytes, n: nat) {
    n == |buf| || w.pendingDirectSwitch || w.pendingTlsSwitch || (w.writeMode.DirectMode? && n > 0)
  }

  /** A call reaches the deframer with a buffer that makes it panic. */
  predicate PollPanics(w: Writer, buf: Bytes) {
    && w.writeMode.PaddingMode? && !w.pendingDirectSwitch && !w.pendingTlsSwitch
    && PanicCondition(w.innerWrite, w.filter, buf)
  }

  /** A call reaches the deframer with a non-empty buffer of which nothing will be acknowledged. */
  predicate PollZero(w: Writer, buf: Bytes) {
    && w.writeMode.PaddingMode? && !w.pendingDirectSwitch && !w.pendingTlsSwitch
    && ZeroCondition(w.innerWrite, w.filter, buf)
  }

  /** The first write after the final packet has left: switch, then write in the new mode. */
  method SwitchAndWrite(w0: Writer, buf: Bytes, readMode: Mode) returns (w: Writer, r: WriteResult)
    requires WriteOk(w0) && w0.writeMode.PaddingMode? && !w0.responseToSend
    requires w0.pendingDirectSwitch || w0.pendingTlsSwitch
    requires w0.pipe.pendingPlain == [] && w0.pipe.outgoing == []
    ensures Polled(w, w0, buf, r) && !r.Panicked?
    ensures r == Wrote(0) && buf != [] ==> w.pipe.setbacks > w0.pipe.setbacks
  {
    SwitchKeepsOk(w0, readMode);
    if w0.pendingDirectSwitch {
      w := SwitchWrite(w0, DirectMode, readMode);
      w, r := PollWriteDirect(w, buf);
    } else {
      w := SwitchWrite(w0, TlsMode, readMode);
      w, r := PollWriteTls(w, buf);
    }
  }

  /**
    `poll_write`. Every acknowledged byte is accounted for, the count never exceeds the buffer, and
    the call panics only when PollPanics holds; when it holds, the call panics unless TCP blocks or
    something fails first. In the same way PollZero tells when nothing of a non-empty buffer is taken. As
    long as session and TCP go on taking something, the call neither fails nor blocks, and takes the whole
    buffer unless the padding ends.
  */
  method PollWrite(w0: Writer, buf: Bytes, readMode: Mode) returns (w: Writer, r: WriteResult)
    requires WriteOk(w0)
    ensures Polled(w, w0, buf, r)
    ensures r.Panicked? ==> PollPanics(w0, buf)
    ensures PollPanics(w0, buf) ==> !r.Wrote?
    ensures PollZero(w0, buf) && r.Wrote? ==> r.n == 0
    ensures r == Wrote(0) && buf != [] ==> PollZero(w0, buf) || w.pipe.setbacks > w0.pipe.setbacks
  {
    if w0.writeMode.TlsMode? {
      w, r := PollWriteTls(w0, buf);
    } else if w0.writeMode.DirectMode? {
      w, r := PollWriteDirect(w0, buf);
    } else {
      w, r := PollWritePadding(w0, buf, readMode);
    }
  }

  method PollWritePadding(w0: Writer, buf: Bytes, readMode: Mode) returns (w: Writer, r: WriteResult)
    requires WriteOk(w0) && w0.writeMode.PaddingMode?
    ensures Polled(w, w0, buf, r)
    ensures r.Panicked? ==> PollPanics(w0, buf)
    ensures PollPanics(w0, buf) ==> !r.Wrote?
    ensures PollZero(w0, buf) && r.Wrote? ==> r.n == 0
    ensures r == Wrote(0) && buf != [] ==> PollZero(w0, buf) || w.pipe.setbacks > w0.pipe.setbacks
  {
    var stop;
    w, stop := Prepare(w0);
    if stop.Some? {
      return w, stop.value;
    }
    if w.pendingDirectSwitch || w.pendingTlsSwitch {
      w, r := SwitchAndWrite(w, buf, readMode);
    } else {
      w, r := ProcessBuffer(w, buf);
    }
  }

  /** `poll_flush`: bytes move towards TCP and nothing else changes. */
  method PollFlush(w0: Writer) returns (w: Writer, r: Drain)
    requires WriteOk(w0)
    ensures !r.Failure? ==> WriteOk(w)
    ensures w == w0.(pipe := w.pipe)
    ensures r.Empty? ==> Payload(w.pipe.wire) == Submitted(w.past)
    ensures Proceeds(w0, w, r.Empty?)
  {
    w := w0;
    if w.writeMode.DirectMode? {
      AllOnTheWire(w0, w0.pipe);
      return w, Empty;
    }
    NothingRawYet(w0);
    var pipe;
    if w.writeMode.PaddingMode? {
      pipe, r := DrainPadding(w.pipe);
    } else {
      pipe, r := DrainTls(w.pipe);
    }
    if !r.Failure? {
      DrainedKeepsOk(w0, pipe);
    }
    if r.Empty? {
      AllOnTheWire(w0, pipe);
    }
    w := w.(pipe := pipe);
  }

  lemma NothingRawYet(w: Writer)
    requires WriteOk(w) && !w.writeMode.DirectMode?
    ensures NoRaw(w.pipe.wire) && NoRaw(w.pipe.outgoing) && (w.writeMode.TlsMode? ==> w.pipe.pendingPlain == [])
  {
    assert w.pipe.wire[..|w.pipe.wire| - 0] == w.pipe.wire;
  }

  /** With session and plaintext buffer empty, TCP has taken everything submitted. */
  lemma AllOnTheWire(w: Writer, pipe: Pipe)
    requires WriteOk(w) && Line(pipe) == Line(w.pipe) && pipe.outgoing == [] && pipe.pendingPlain == []
    ensures Payload(pipe.wire) == Submitted(w.past)
  {
    assert Payload(pipe.outgoing) == [];
  }

  lemma DrainedKeepsOk(w: Writer, pipe: Pipe)
    requires WriteOk(w) && !w.writeMode.DirectMode? && NoRaw(pipe.wire) && NoRaw(pipe.outgoing) && Line(pipe) == Line(w.pipe)
    requires w.writeMode.TlsMode? ==> pipe.pendingPlain == w.pipe.pendingPlain
    ensures WriteOk(w.(pipe := pipe))
  {
    NoRawIsWireOk(pipe.wire);
  }

  // ---- What the invariant means to the peer ----

  /** The read side shares the filter; what it sees never disturbs the write side. */
  lemma NoticedKeepsOk(w: Writer, e: Event)
    requires WriteOk(w)
    ensures WriteOk(Noticed(w, e)) && Noticed(w, e).past.acked == w.past.acked
  {
    ApplyAdvances(w.filter, e);
  }

  /** Acknowledged bytes that are still with the deframer. */
  function HeldBytes(w: Writer): Bytes {
    if w.writeMode.PaddingMode? && !w.pendingDirectSwitch && !w.pendingTlsSwitch then w.innerWrite.buf else []
  }

  /** What a peer that decrypts and unpads everything submitted so far has received. */
  function PeerReceives(w: Writer): Bytes {
    if w.past.packets == [] then []
    else
      var plain := Flatten(w.past.chunks) + w.past.plainTail;
      if |plain| < 16 then [] else VisionUnpadding.Feed(Core(AtCommand, true), plain[16..]).out
  }

  /** Packets followed by bytes that go through the session unpadded. */
  lemma PaddedThenPlain(uuid: Bytes, ps: seq<Packet>, chunks: seq<Bytes>, tail: Bytes)
    requires |uuid| == 16 && ps != [] && Framed(uuid, ps, chunks) && AllPaddingShort(ps) && AllShort(ps)
    requires ContinuesUntilLast(ps) && (tail != [] ==> !ps[|ps| - 1].command.Continue?)
    ensures var plain := Flatten(chunks) + tail;
            |plain| >= 16 && plain[..16] == uuid
            && VisionUnpadding.Feed(Core(AtCommand, true), plain[16..]) == Fed(AfterPackets(ps, true), Contents(ps) + tail)
  {
    var code := EncodeAll(ps);
    FramedIsEncoded(uuid, ps, chunks);
    Assoc(uuid, code, tail);
    assert (uuid + (code + tail))[16..] == code + tail;
    assert (uuid + (code + tail))[..16] == uuid;
    PacketsAreParsed(ps, true);
    FeedAppend(Core(AtCommand, true), code, tail);
    if tail != [] {
      FeedFinished(AfterPackets(ps, true), tail);
    }
  }

  /**
    Write-side conservation. In every state of every run: what the peer gets out of the padded
    stream, then what was copied raw, then what the deframer still holds, is exactly what the
    caller has been told was written: nothing lost, duplicated or reordered.
  */
  lemma WriteConserves(w: Writer)
    requires WriteOk(w) && AllShort(w.past.packets) && |w.uuid| == 16
    ensures PeerReceives(w) + w.past.rawTail + HeldBytes(w) == w.past.acked
  {
    var h := w.past;
    PeerReceivesContents(w);
    EmptyParts(Contents(h.packets), h.plainTail);
    EmptyParts(Contents(h.packets), h.rawTail);
  }

  lemma EmptyParts(a: Bytes, b: Bytes)
    ensures a + [] == a && a + b + [] == a + b
  {
  }

  lemma PeerReceivesContents(w: Writer)
    requires WriteOk(w) && AllShort(w.past.packets) && |w.uuid| == 16
    ensures PeerReceives(w) == Contents(w.past.packets) + w.past.plainTail
  {
    if w.past.packets != [] {
      PaddedThenPlain(w.uuid, w.past.packets, w.past.chunks, w.past.plainTail);
    }
  }

  /**
    Order on the wire: plaintext reaches TCP in submission order, and no byte is copied raw before
    every byte of the padded stream has left the session.
  */
  lemma WireOrder(w: Writer)
    requires WriteOk(w)
    ensures Payload(w.pipe.wire) <= Submitted(w.past)
    ensures w.past.rawTail != [] ==> Payload(w.pipe.wire) == Submitted(w.past)
    ensures forall i, j :: 0 <= i < j < |w.pipe.wire| && w.pipe.wire[i].Raw? ==> w.pipe.wire[j].Raw?
  {
    RawIsLast(w.pipe.wire, w.past.rawTail);
    Assoc(Payload(w.pipe.wire), Payload(w.pipe.outgoing), w.pipe.pendingPlain);
  }

  lemma RawIsLast(wire: seq<Unit>, rawTail: Bytes)
    requires WireOk(wire, rawTail)
    ensures forall i :: 0 <= i < |wire| ==> (wire[i].Raw? <==> |wire| - |rawTail| <= i)
  {
    var k := |wire| - |rawTail|;
    forall i | 0 <= i < |wire|
      ensures wire[i].Raw? <==> k <= i
    {
      if i < k {
        assert wire[..k][i] == wire[i];
      } else {
        assert wire[k..][i - k] == wire[i];
      }
    }
  }

  /**
    DIRECT gating over every interleaving of reads and writes: at most one packet is not Continue, it
    is the last one, and if it is Direct then it is an application-data record sent after the first
    examined 3.3 ServerHello turned out to be TLS 1.3 with a cipher suite other than 0x1305.
  */
  lemma DirectIsGated(w: Writer, i: nat)
    requires WriteOk(w) && FilterOk(w) && i < |w.past.packets| && !w.past.packets[i].command.Continue?
    ensures i == |w.past.packets| - 1
    ensures w.past.packets[i].command.Direct? ==>
              IsAppData(w.past.packets[i].content) && FirstHelloAllowsDirect(w.past.events)
  {
    TracedIsApplied(w.filter, w.past.trail, w.past.events);
    XtlsIff(w.past.events);
  }

  lemma TracedPrefix(filter: Filter, trail: seq<Filter>, events: seq<Event>, k: nat)
    requires Traced(filter, trail, events) && k <= |events|
    ensures trail[k] == ApplyAll(events[..k])
  {
    assert Traced(trail[k], trail[..k + 1], events[..k]) by {
      assert forall i :: 0 <= i < k ==> events[..k][i] == events[i];
    }
    TracedIsApplied(trail[k], trail[..k + 1], events[..k]);
  }

  /**
    The last of these events, an output of the write side's deframer, ends the padding: an application-data
    record once a ClientHello or 3.3 ServerHello was examined; any record when the filter is done and has
    seen no 3.3 ServerHello; a prefix when the filter is done; malformed data always.
  */
  ghost predicate EndsPadding(events: seq<Event>)
    requires events != []
  {
    match events[|events| - 1]
    case Saw(record) => (SomeTls(events) && IsAppData(record)) || (!StillOpen(events) && !SomeExamined(events))
    case SkippedPrefix => !StillOpen(events)
    case GaveUp => true
  }

  /** The decision of the write side, told by the events alone. */
  lemma DecisionIs(events: seq<Event>, n: nat)
    requires |events| == n + 1
    ensures var c := Decision(events[n], ApplyAll(events));
            && (c.Continue? <==> !EndsPadding(events))
            && (c.Direct? <==> events[n].Saw? && IsAppData(events[n].record) && FirstHelloAllowsDirect(events))
  {
    FilterRunAdvances(events, 0);
    CountIs(events);
    Tls12Iff(events);
    XtlsIff(events);
  }

  /**
    Which command every packet of every run carries. A packet belongs to the last of the events up to its
    mark: it is a Continue packet if and only if that event does not end the padding, and a Direct packet
    if and only if its content is an application-data record read off the deframer and the first examined
    3.3 ServerHello up to there is TLS 1.3 with a cipher suite other than 0x1305. The last packet is the
    first one whose event ends the padding.
  */
  lemma CommandIff(w: Writer, i: nat)
    requires WriteOk(w) && FilterOk(w) && i < |w.past.packets|
    ensures |w.past.marks| == |w.past.packets| && 0 < w.past.marks[i] <= |w.past.events|
    ensures var p, seen := w.past.packets[i], w.past.events[..w.past.marks[i]];
            var e := seen[|seen| - 1];
            && (e.Saw? ==> e.record == p.content)
            && (p.command.Continue? <==> !EndsPadding(seen))
            && (p.command.Direct? <==> e.Saw? && IsAppData(p.content) && FirstHelloAllowsDirect(seen))
            && (i < |w.past.packets| - 1 ==> !EndsPadding(seen))
  {
    var h := w.past;
    assert IsCount(h.packets, |h.packets|);
    var k := h.marks[i];
    assert DecidedAt(h.packets[i], k, h.events, h.trail);
    TracedPrefix(w.filter, h.trail, h.events, k);
    assert h.events[..k][k - 1] == h.events[k - 1];
    DecisionIs(h.events[..k], k - 1);
    if i < |h.packets| - 1 {
      EarlierContinue(w, i);
    }
  }

  lemma EarlierContinue(w: Writer, i: nat)
    requires WriteOk(w) && i < |w.past.packets| - 1
    ensures w.past.packets[i].command.Continue?
  {
  }

  /** The stream leaves the session, or is about to, if and only if its last packet says so. */
  lemma ModeIsLastCommand(w: Writer)
    requires WriteOk(w)
    ensures var ps := w.past.packets;
            && (w.writeMode.DirectMode? || w.pendingDirectSwitch <==> ps != [] && ps[|ps| - 1].command.Direct?)
            && (w.writeMode.TlsMode? || w.pendingTlsSwitch <==> ps != [] && ps[|ps| - 1].command.End?)
  {
  }

  // ---- The panics are real ----

  /** A writer whose filter was shown a skipped prefix n times by the read side. */
  function Skipped(w: Writer, n: nat): Writer {
    if n == 0 then w else Noticed(Skipped(w, n - 1), SkippedPrefix)
  }

  lemma {:induction false} SkippedKeepsOk(w: Writer, n: nat)
    requires WriteOk(w) && FilterOk(w) && n <= w.filter.count
    ensures WriteOk(Skipped(w, n)) && FilterOk(Skipped(w, n)) && SkippedFrom(w, Skipped(w, n), n)
  {
    if n > 0 {
      SkippedKeepsOk(w, n - 1);
      OneMoreSkipped(w, Skipped(w, n - 1), n);
    } else {
      assert SkippedFrom(w, w, 0);
    }
  }

  /** Only the filter has moved. */
  predicate SkippedFrom(w: Writer, v: Writer, n: nat) {
    && v == w.(filter := v.filter, past := w.past.(events := v.past.events, trail := v.past.trail))
    && n <= w.filter.count && v.filter == w.filter.(count := w.filter.count - n)
  }

  lemma OneMoreSkipped(w: Writer, v: Writer, n: nat)
    requires 0 < n <= w.filter.count && WriteOk(v) && FilterOk(v) && SkippedFrom(w, v, n - 1)
    ensures var u := Noticed(v, SkippedPrefix); WriteOk(u) && FilterOk(u) && SkippedFrom(w, u, n)
  {
    NoticedKeepsOk(v, SkippedPrefix);
  }

  /** Bytes that could start a handshake are held back as a whole. */
  lemma HeldIsIdle(held: Bytes)
    requires Idle(Searching(held))
    ensures FuzzyFeed(Searching([]), held) == Searching(held) && FuzzyNext(Searching(held)) == (Searching(held), NeedData)
  {
    assert [] + held == held;
    IdleIff(Searching(held));
  }

  lemma HeldStep(w: Writer, buf: Bytes)
    requires Ready(w) && w.innerWrite == Searching([]) && Idle(Searching(buf)) && w.past.acked == Contents(w.past.packets)
    ensures FuzzyNext(FuzzyFeed(w.innerWrite, buf)) == (Searching(buf), NeedData)
    ensures Sound(w.(innerWrite := Searching(buf))) && AllContinue(w.past.packets)
  {
    HeldIsIdle(buf);
    ReadyIsSound(w, Searching(buf));
  }

  lemma ReadyIsSound(w: Writer, f: Fuzzy)
    requires Ready(w)
    ensures Sound(w.(innerWrite := f)) && AllContinue(w.past.packets)
  {
    assert w.pipe.wire[..|w.pipe.wire| - 0] == w.pipe.wire;
  }

  /** A write of such bytes: one read of the deframer, which answers NeedData, and the bytes are acknowledged. */
  function WroteHeld(w: Writer, buf: Bytes): Writer
    requires Ready(w) && w.innerWrite == Searching([]) && Idle(Searching(buf)) && w.past.acked == Contents(w.past.packets)
  {
    HeldStep(w, buf);
    HeldBack(w.(innerWrite := FuzzyNext(FuzzyFeed(w.innerWrite, buf)).0), buf)
  }

  /**
    A new stream whose read side skipped seven prefixes, so that the filter has one output to go, and
    which was then given some bytes that could start a handshake.
  */
  function AlmostDone(uuid: Bytes, held: Bytes): (w: Writer)
    requires |uuid| == 16 && Idle(Searching(held))
    ensures WriteOk(w) && FilterOk(w) && w.filter == NewFilter.(count := 1) && w.innerWrite == Searching(held)
    ensures w.writeMode.PaddingMode? && !w.pendingDirectSwitch && !w.pendingTlsSwitch
  {
    SkippedKeepsOk(NewWriter(uuid, false, 0), 7);
    WroteHeld(Skipped(NewWriter(uuid, false, 0), 7), held)
  }

  /** Five held bytes, of which one more byte releases only three: the acknowledgement underflows. */
  lemma UnderflowExample(uuid: Bytes, held: Bytes, buf: Bytes)
    requires |uuid| == 16 && held == [0x16, 3, 3, 0x16, 3] && buf == [3]
    ensures Idle(Searching(held)) && PollPanics(AlmostDone(uuid, held), buf)
  {
    ThreeAreReleased(held + buf);
  }

  lemma ThreeAreReleased(h: Bytes)
    requires h == [0x16, 3, 3, 0x16, 3] + [3]
    ensures FuzzyNext(Searching(h)).1 == UnknownPrefix(h[..3])
  {
    assert h == [0x16, 3, 3, 0x16, 3, 3];
    assert HandshakeSearch.NoMatch(h);
    HandshakeSearch.HandshakeStartIsUnique(h, None);
    assert HandshakeSearch.Last(h, 3) == [0x16, 3, 3];
    assert !HandshakeSearch.IsHandshakePrefix(HandshakeSearch.Last(h, 4)) by {
      assert HandshakeSearch.Last(h, 4)[0] == 3;
    }
    assert !HandshakeSearch.IsHandshakePrefix(HandshakeSearch.Last(h, 5)) by {
      assert HandshakeSearch.Last(h, 5)[0] == 3;
    }
    HandshakeSearch.PotentialSuffixIsUnique(h, 3);
  }

  /** Five held bytes that are a whole zero-length record: the strict assertion fails on equality. */
  lemma EqualityExample(uuid: Bytes, held: Bytes, buf: Bytes)
    requires |uuid| == 16 && held == [0x16, 3, 3, 0, 0] && buf == [1]
    ensures Idle(Searching(held)) && PollPanics(AlmostDone(uuid, held), buf)
  {
    EmptyRecordIsFirst(held, held + buf);
  }

  lemma EmptyRecordIsFirst(held: Bytes, h: Bytes)
    requires held == [0x16, 3, 3, 0, 0] && h == held + [1]
    ensures Idle(Searching(held)) && FuzzyNext(Searching(h)).1 == TlsRecord(held)
  {
    assert h == [0x16, 3, 3, 0, 0, 1];
    HandshakeSearch.HandshakeStartIsUnique(h, Some(0));
    assert h[..5] == held;
  }

  /** Five held bytes that one more byte releases as a whole: the write ends the padding and answers zero. */
  lemma ZeroExample(uuid: Bytes, held: Bytes, buf: Bytes)
    requires |uuid| == 16 && held == [0x16, 3, 3, 1, 0] && buf == [0x16]
    ensures Idle(Searching(held)) && PollZero(AlmostDone(uuid, held), buf)
  {
    HeldIsReleased(held, held + buf);
  }

  lemma HeldIsReleased(held: Bytes, h: Bytes)
    requires held == [0x16, 3, 3, 1, 0] && h == held + [0x16]
    ensures Idle(Searching(held)) && FuzzyNext(Searching(h)).1 == UnknownPrefix(held)
  {
    assert h == [0x16, 3, 3, 1, 0, 0x16];
    assert HandshakeSearch.NoMatch(h);
    HandshakeSearch.HandshakeStartIsUnique(h, None);
    assert HandshakeSearch.Last(h, 1) == [0x16];
    OnlyTheLastByte(h);
    HandshakeSearch.PotentialSuffixIsUnique(h, 1);
    assert h[..5] == held;
  }

  lemma OnlyTheLastByte(h: Bytes)
    requires h == [0x16, 3, 3, 1, 0, 0x16]
    ensures forall j: nat :: 1 < j <= 5 ==> !HandshakeSearch.IsHandshakePrefix(HandshakeSearch.Last(h, j))
  {
    forall j: nat | 1 < j <= 5
      ensures !HandshakeSearch.IsHandshakePrefix(HandshakeSearch.Last(h, j))
    {
      assert HandshakeSearch.Last(h, j)[0] == h[6 - j] != 0x16;
    }
  }

  // ---- Writes that are too long ----

  /** Nothing in the bytes can start a handshake, so the search releases all of them at once. */
  lemma AllReleased(buf: Bytes)
    requires buf != [] && forall i :: 0 <= i < |buf| ==> buf[i] != 0x16
    ensures FuzzyNext(Searching(buf)) == (Searching([]), UnknownPrefix(buf))
  {
    HandshakeSearch.HandshakeStartIsUnique(buf, None);
    NoSuffixStarts(buf);
    HandshakeSearch.PotentialSuffixIsUnique(buf, 0);
    assert buf[..|buf| - 0] == buf && HandshakeSearch.Last(buf, 0) == [];
  }

  lemma NoSuffixStarts(buf: Bytes)
    requires forall i :: 0 <= i < |buf| ==> buf[i] != 0x16
    ensures forall j: nat :: 0 < j <= |buf| ==> !HandshakeSearch.IsHandshakePrefix(HandshakeSearch.Last(buf, j))
  {
    forall j: nat | 0 < j <= |buf|
      ensures !HandshakeSearch.IsHandshakePrefix(HandshakeSearch.Last(buf, j))
    {
      assert HandshakeSearch.Last(buf, j)[0] == buf[|buf| - j];
    }
  }

  /** A stream whose only packet is an oversized Continue packet has not delivered what it acknowledged. */
  lemma OversizedPacketIsLost(w: Writer, p: Packet)
    requires PacketsOk(w) && |w.uuid| == 16 && w.past.packets == [p] && w.past.plainTail == []
    requires p.command.Continue? && |p.content| > MAX_CONTENT && w.past.acked == p.content
    ensures |PeerReceives(w)| < |w.past.acked|
  {
    assert p == w.past.packets[0];
    FramedIsEncoded(w.uuid, [p], w.past.chunks);
    assert EncodeAll([p]) == Encode(p) by {
      assert [p][..0] == [];
      assert EncodeAll([]) == [] && [] + Encode(p) == Encode(p);
    }
    var plain := w.uuid + Encode(p);
    assert Flatten(w.past.chunks) + [] == plain;
    assert plain[16..] == Encode(p);
    OversizedContinueIsShort(p.content, p.padding, true);
  }

  /**
    The write of more than 65535 bytes without 0x16 to a new stream: one output of the search, one
    Continue packet, and the whole buffer is acknowledged, unless the session fails. The peer is short
    of what was acknowledged although nothing is held and nothing was copied raw.
  */
  method LongWriteIsLost(uuid: Bytes, buf: Bytes) returns (w: Writer, ok: bool)
    requires |uuid| == 16 && |buf| > MAX_CONTENT && forall i :: 0 <= i < |buf| ==> buf[i] != 0x16
    ensures ok ==> WriteOk(w) && FilterOk(w) && w.past.acked == buf && HeldBytes(w) == [] && w.past.rawTail == []
    ensures ok ==> PeerReceives(w) + w.past.rawTail + HeldBytes(w) != w.past.acked
  {
    w := NewWriter(uuid, false, 0);
    assert [] + buf == buf;
    AllReleased(buf);
    var (next, answer) := FuzzyNext(FuzzyFeed(w.innerWrite, buf));
    NoticedKeepsOk(w, SkippedPrefix);
    NoticedIsDue(w, SkippedPrefix, buf);
    w := Noticed(w, SkippedPrefix);
    ReadyIsSound(w, next);
    w := w.(innerWrite := next);
    var p;
    w, ok, p := Emit(w, answer.prefix, Continue, w.filter.isTls);
    if !ok {
      return;
    }
    var drained;
    w, drained := Flush(w);
    ok := !drained.Failure?;
    if ok {
      assert w.past.packets == [p];
      assert Contents([p]) == buf by {
        assert [p][..0] == [] && [] + p.content == p.content;
      }
      HeldIsIdle([]);
      w := HeldBack(w, buf);
      OversizedPacketIsLost(w, p);
      EmptyParts(PeerReceives(w), []);
    }
  }

  /**
    The state such a write leaves when the session takes the whole packet and TCP nothing yet: the filter
    has seen a skipped prefix, the deframer has released everything, one packet is on its way.
  */
  function WroteLong(uuid: Bytes, buf: Bytes, padding: Bytes): Writer {
    var w, p := Noticed(NewWriter(uuid, false, 0), SkippedPrefix), Packet(Continue, buf, padding);
    w.(innerWrite := FuzzyNext(FuzzyFeed(w.innerWrite, buf)).0, writeFirstPacket := false,
       pipe := w.pipe.(outgoing := [Framing] + Seal(uuid + Encode(p))),
       past := w.past.(packets := [p], chunks := [uuid + Encode(p)], marks := [1], acked := buf))
  }

  lemma WroteLongKeepsOk(uuid: Bytes, buf: Bytes, padding: Bytes)
    requires |uuid| == 16 && PaddingFits(Packet(Continue, buf, padding), false) && |padding| <= MAX_PADDING_SIZE && buf != []
    requires forall i :: 0 <= i < |buf| ==> buf[i] != 0x16
    ensures WriteOk(WroteLong(uuid, buf, padding)) && FilterOk(WroteLong(uuid, buf, padding))
  {
    var w := WroteLong(uuid, buf, padding);
    NoticedKeepsOk(NewWriter(uuid, false, 0), SkippedPrefix);
    AllReleased(buf);
    assert [] + buf == buf;
    OnePacketIsOk(w, w.past.packets[0], w.past.chunks[0]);
    HeldIsIdle([]);
    WroteLongFollows(uuid, buf, padding);
  }

  lemma WroteLongFollows(uuid: Bytes, buf: Bytes, padding: Bytes)
    requires PaddingFits(Packet(Continue, buf, padding), false)
    ensures FilterOk(WroteLong(uuid, buf, padding))
  {
    var w, p := Noticed(NewWriter(uuid, false, 0), SkippedPrefix), Packet(Continue, buf, padding);
    NoticedIsDue(NewWriter(uuid, false, 0), SkippedPrefix, buf);
    DueThenMade(w, p, false);
    assert [] + [p] == [p] && [] + [|w.past.events|] == [1];
  }

  lemma OnePacketIsOk(w: Writer, p: Packet, bytes: Bytes)
    requires w.past.packets == [p] && w.past.chunks == [bytes] && bytes == w.uuid + Encode(p) && |p.padding| <= MAX_PADDING_SIZE
    requires w.past.prelude == [] && w.past.plainTail == [] && !w.responds
    requires w.pipe.wire == [] && w.pipe.pendingPlain == [] && w.pipe.outgoing == [Framing] + Seal(bytes)
    ensures LineOk(w) && PacketsOk(w) && Contents([p]) + [] == p.content
  {
    PayloadOfRecord(bytes, w.pipe.outgoing);
    FlattenSnoc([], bytes);
    assert [] + [bytes] == [bytes];
    assert [p][..0] == [] && [] + p.content == p.content;
  }

  /** An input for which the write does not conserve. */
  lemma LongWriteExample(uuid: Bytes, buf: Bytes, padding: Bytes)
    requires |uuid| == 16 && PaddingFits(Packet(Continue, buf, padding), false) && |buf| > MAX_CONTENT
    requires forall i :: 0 <= i < |buf| ==> buf[i] != 0x16
    ensures var w := WroteLong(uuid, buf, padding);
            && WriteOk(w) && FilterOk(w) && w.past.acked == buf && w.past.rawTail == [] && HeldBytes(w) == []
            && |PeerReceives(w)| < |w.past.acked|
  {
    AllReleased(buf);
    assert [] + buf == buf;
    PaddingFitsIff(Packet(Continue, buf, padding), false);
    PaddingBounds(|buf| % 0x1_0000, false, |padding|);
    WroteLongKeepsOk(uuid, buf, padding);
    OversizedPacketIsLost(WroteLong(uuid, buf, padding), Packet(Continue, buf, padding));
  }

  // ---- Whole runs ----

  /**
    What happens next on a stream: the caller writes, while the read side is in some mode, or flushes;
    the read side shows the filter something, or switches its mode and cleans up.
  */
  datatype Action = Write(buf: Bytes, readMode: Mode) | FlushOut | ReadSaw(e: Event) | ReadSwitched(readMode: Mode)

  /** The outcome of one action that does not fail. */
  ghost predicate Acted(w0: Writer, action: Action, w: Writer) {
    match action
    case Write(buf, readMode) => exists r: WriteResult :: WriteAnswered(w0, buf, w, r)
    case FlushOut => w == w0.(pipe := w.pipe)
    case ReadSaw(e) => w == Noticed(w0, e)
    case ReadSwitched(readMode) => w == Cleanup(w0, readMode)
  }

  ghost predicate WriteAnswered(w0: Writer, buf: Bytes, w: Writer, r: WriteResult) {
    Polled(w, w0, buf, r) && (r.Wrote? || r.WouldBlock?) && (r.Wrote? ==> !PollPanics(w0, buf))
  }

  /** An action can only fail because the session or TCP does, or because it is the write that panics. */
  predicate MayFail(w0: Writer, action: Action, w: Writer) {
    w.pipe.setbacks > w0.pipe.setbacks || (action.Write? && PollPanics(w0, action.buf))
  }

  /** A run: each state comes from the one before by the action of its number. */
  ghost predicate Acting(states: seq<Writer>, actions: seq<Action>, w0: Writer) {
    && 0 < |states| <= |actions| + 1 && states[0] == w0
    && forall i :: 0 <= i < |states| - 1 ==> ActedAt(states, actions, i)
  }

  ghost predicate ActedAt(states: seq<Writer>, actions: seq<Action>, i: nat)
    requires i + 1 < |states| <= |actions| + 1
  {
    Acted(states[i], actions[i], states[i + 1])
  }

  lemma ActsOnce(states: seq<Writer>, actions: seq<Action>, w0: Writer, w: Writer)
    requires Acting(states, actions, w0) && |states| <= |actions|
    requires Acted(states[|states| - 1], actions[|states| - 1], w)
    ensures Acting(states + [w], actions, w0)
  {
    forall i | 0 <= i < |states|
      ensures ActedAt(states + [w], actions, i)
    {
      assert i < |states| - 1 ==> ActedAt(states, actions, i);
    }
  }

  /**
    Any sequence of writes, flushes, read-side observations and read-side switches, up to the first that
    fails: the invariant holds at its end, and what was acknowledged is what the calls together reported
    as written.
  */
  method RunActions(w0: Writer, actions: seq<Action>)
    returns (w: Writer, taken: Bytes, failed: bool, ghost states: seq<Writer>)
    requires WriteOk(w0) && FilterOk(w0)
    ensures Acting(states, actions, w0)
    ensures !failed ==> |states| == |actions| + 1 && w == states[|actions|]
    ensures failed ==> |states| <= |actions| && MayFail(states[|states| - 1], actions[|states| - 1], w)
    ensures !failed ==> WriteOk(w) && w.past.acked == w0.past.acked + taken
    ensures FilterOk(w)
    ensures AllShort(w0.past.packets)
            && (forall i :: 0 <= i < |actions| && actions[i].Write? ==> |actions[i].buf| <= SAFE_WRITE)
            ==> AllShort(w.past.packets)
  {
    w, taken, failed, states := w0, [], false, [w0];
    ghost var short := AllShort(w0.past.packets)
                       && (forall j :: 0 <= j < |actions| && actions[j].Write? ==> |actions[j].buf| <= SAFE_WRITE);
    for i := 0 to |actions|
      invariant !failed && WriteOk(w) && w.past.acked == w0.past.acked + taken && FilterOk(w)
      invariant short ==> AllShort(w.past.packets)
      invariant Acting(states, actions, w0) && |states| == i + 1 && states[i] == w
    {
      var more;
      w, more, failed := RunAction(w, actions[i]);
      if failed {
        return;
      }
      ActsOnce(states, actions, w0, w);
      states := states + [w];
      Assoc(w0.past.acked, taken, more);
      taken := taken + more;
    }
  }

  method RunWrite(w0: Writer, buf: Bytes, readMode: Mode) returns (w: Writer, taken: Bytes, failed: bool)
    requires WriteOk(w0)
    ensures if failed then w.pipe.setbacks > w0.pipe.setbacks || PollPanics(w0, buf)
            else exists r: WriteResult :: WriteAnswered(w0, buf, w, r)
    ensures !failed ==> WriteOk(w) && w.past.acked == w0.past.acked + taken
    ensures FilterOk(w0) ==> FilterOk(w)
    ensures AllShort(w0.past.packets) && |buf| <= SAFE_WRITE ==> AllShort(w.past.packets)
  {
    var r;
    w, r := PollWrite(w0, buf, readMode);
    failed := r.IoError? || r.Panicked?;
    taken := if r.Wrote? then buf[..r.n] else [];
    assert w0.past.acked + [] == w0.past.acked;
    assert !failed ==> WriteAnswered(w0, buf, w, r);
  }

  method RunAction(w0: Writer, action: Action) returns (w: Writer, taken: Bytes, failed: bool)
    requires WriteOk(w0) && FilterOk(w0)
    ensures if failed then MayFail(w0, action, w) else Acted(w0, action, w)
    ensures !failed ==> WriteOk(w) && w.past.acked == w0.past.acked + taken
    ensures FilterOk(w)
    ensures AllShort(w0.past.packets) && (action.Write? ==> |action.buf| <= SAFE_WRITE) ==> AllShort(w.past.packets)
  {
    taken, failed := [], false;
    assert w0.past.acked + [] == w0.past.acked;
    match action {
      case Write(buf, readMode) =>
        w, taken, failed := RunWrite(w0, buf, readMode);
      case FlushOut =>
        var d;
        w, d := PollFlush(w0);
        failed := d.Failure?;
      case ReadSaw(e) =>
        NoticedKeepsOk(w0, e);
        w := Noticed(w0, e);
      case ReadSwitched(readMode) =>
        CleanupDiscardsNothing(w0, readMode);
        w := Cleanup(w0, readMode);
    }
  }
}
