/**
  What the read side of a Vision stream delivers, told without looking at records one by one: the
  block contents, then the plaintext after an End block, or the raw TCP bytes right behind the record
  that completes a Direct block.
*/
module VisionDelivery {
  import opened ByteStrings
  import opened VisionUnpadding
  import opened VisionReading
  import TlsDeframing

  // ---- One record at a time ----

  /** A complete record that can be opened is in front. */
  predicate HasFront(open: Opener, i: nat, t: Bytes) {
    TlsDeframing.NextFrame(t).Record? && open(i, t[..FrontLen(t)]).Some?
  }

  function FrontPlain(open: Opener, i: nat, t: Bytes): Bytes
    requires HasFront(open, i, t)
  {
    open(i, t[..FrontLen(t)]).value
  }

  function BehindFront(t: Bytes): (rest: Bytes)
    requires TlsDeframing.NextFrame(t).Record?
    ensures |rest| < |t|
  {
    t[FrontLen(t)..]
  }

  /** What a piece of plaintext in hand and the TCP bytes behind its record deliver. */
  function Deliver(open: Opener, u: Unpadder, i: nat, p: Bytes, t: Bytes): Bytes {
    if p == [] then Padded(open, u, i, t) else After(open, u, i, p, t)
  }

  /** Whether they show a fault. */
  predicate DeliverFaulty(open: Opener, u: Unpadder, i: nat, p: Bytes, t: Bytes) {
    if p == [] then PaddedFaulty(open, u, i, t) else AfterFaulty(open, u, i, p, t)
  }

  lemma TotalIsDeliver(open: Opener, o: Origin, t: Bytes)
    ensures Total(open, o, t) == Deliver(open, o.u, o.i, o.leftover, t)
    ensures Faulty(open, o, t) == DeliverFaulty(open, o.u, o.i, o.leftover, t)
  {
  }

  lemma PlainStep(open: Opener, i: nat, t: Bytes)
    ensures Plain(open, i, t)
         == if HasFront(open, i, t) then FrontPlain(open, i, t) + Plain(open, i + 1, BehindFront(t)) else []
  {
  }

  lemma PaddedStep(open: Opener, u: Unpadder, i: nat, t: Bytes)
    ensures Padded(open, u, i, t)
         == if HasFront(open, i, t) then Deliver(open, u, i + 1, FrontPlain(open, i, t), BehindFront(t)) else []
    ensures HasFront(open, i, t) ==>
              PaddedFaulty(open, u, i, t) == DeliverFaulty(open, u, i + 1, FrontPlain(open, i, t), BehindFront(t))
  {
  }

  /** Cutting a stream behind some of its records leaves the first record in front. */
  lemma FrontOfCut(open: Opener, i: nat, t: Bytes, m: nat)
    requires HasFront(open, i, t) && m <= |BehindFront(t)|
    ensures FrontLen(t) + m <= |t|
    ensures Plain(open, i, t[..FrontLen(t) + m]) == FrontPlain(open, i, t) + Plain(open, i + 1, BehindFront(t)[..m])
    ensures BehindFront(t)[m..] == t[FrontLen(t) + m..]
  {
    var q := FrontLen(t);
    var cut := t[..q + m];
    TlsDeframing.FrameIsThePrefixRecord(t, q);
    assert cut[..q] == t[..q];
    TlsDeframing.FrameIsThePrefixRecord(cut, q);
    assert cut[q..] == BehindFront(t)[..m];
    PlainStep(open, i, cut);
  }

  // ---- Past the UUID ----

  /** One unpad call past the UUID, by what it does to the machine. */
  lemma DeliverStep(open: Opener, k: Core, i: nat, p: Bytes, t: Bytes)
    requires Live(k)
    ensures var fed := Feed(k, p);
            && (Live(fed.core) ==> Deliver(open, Parsing(k), i, p, t) == fed.out + Padded(open, Parsing(fed.core), i, t))
            && (fed.core.phase == Finished(Direct) ==> Deliver(open, Parsing(k), i, p, t) == fed.out + t)
            && (fed.core.phase == Finished(End) ==> Deliver(open, Parsing(k), i, p, t) == fed.out + Plain(open, i, t))
            && (fed.core.phase.BadCommand? ==> Deliver(open, Parsing(k), i, p, t) == [])
            && (fed.core.phase.BadCommand? ==> DeliverFaulty(open, Parsing(k), i, p, t))
            && (Live(fed.core) ==> DeliverFaulty(open, Parsing(k), i, p, t) == PaddedFaulty(open, Parsing(fed.core), i, t))
            && fed.core.phase != Finished(Continue)
  {
    FinalIsNotContinue(k, p);
    if p == [] {
      assert Feed(k, p) == Fed(k, []);
      assert [] + Padded(open, Parsing(k), i, t) == Padded(open, Parsing(k), i, t);
    }
  }

  /** The offset just behind the record whose plaintext completes a Direct block, if there is one. */
  function DirectEnd(open: Opener, k: Core, i: nat, p: Bytes, t: Bytes): (r: Option<nat>)
    ensures r.Some? ==> r.value <= |t|
    decreases |t|
  {
    var c := Feed(k, p).core;
    if c.phase == Finished(Direct) then Some(0)
    else if Live(c) && HasFront(open, i, t) then
      Shifted(FrontLen(t), DirectEnd(open, c, i + 1, FrontPlain(open, i, t), BehindFront(t)))
    else None
  }

  function Shifted(n: nat, r: Option<nat>): Option<nat> {
    if r.Some? then Some(n + r.value) else None
  }

  /** The parse of everything, in terms of the parse of the first piece. */
  lemma FeedPieces(open: Opener, k: Core, i: nat, p: Bytes, t: Bytes)
    requires Live(k)
    ensures var fed, all := Feed(k, p), Feed(k, p + Plain(open, i, t));
            && (!Live(fed.core) ==> all.core == fed.core)
            && (fed.core.phase.Finished? ==> all.out == fed.out + Plain(open, i, t))
            && (Live(fed.core) ==> all.core == Feed(fed.core, Plain(open, i, t)).core
                                   && all.out == fed.out + Feed(fed.core, Plain(open, i, t)).out)
  {
    var tail := Plain(open, i, t);
    FeedAppend(k, p, tail);
    FeedStays(k, p, tail);
    if Feed(k, p).core.phase.Finished? {
      FeedFinished(Feed(k, p).core, tail);
    }
  }

  lemma PrefixBehind(a: Bytes, x: Bytes, y: Bytes)
    requires x <= y
    ensures a + x <= a + y
  {
    Assoc(a, x, y[|x|..]);
  }

  /**
    Delivery without a Direct block: the plaintext does not complete one, and what is delivered is its
    contents, or a part of them if the plaintext shows a fault.
  */
  ghost predicate Unpads(k: Core, all: Bytes, got: Bytes, faulty: bool) {
    var fed := Feed(k, all);
    && fed.core.phase != Finished(Direct)
    && got <= fed.out && (fed.core.phase.BadCommand? ==> faulty) && (!fed.core.phase.BadCommand? ==> got == fed.out)
  }

  lemma UnpadsLater(k: Core, p: Bytes, all: Bytes, got: Bytes, faulty: bool)
    requires Unpads(Feed(k, p).core, all, got, faulty)
    ensures Unpads(k, p + all, Feed(k, p).out + got, faulty)
  {
    FeedAppend(k, p, all);
    PrefixBehind(Feed(k, p).out, got, Feed(Feed(k, p).core, all).out);
  }

  lemma UnpadsHere(open: Opener, k: Core, i: nat, p: Bytes, t: Bytes)
    requires Live(k) && !Live(Feed(k, p).core) && Feed(k, p).core.phase != Finished(Direct)
    ensures Unpads(k, p + Plain(open, i, t), Deliver(open, Parsing(k), i, p, t), DeliverFaulty(open, Parsing(k), i, p, t))
  {
    DeliverStep(open, k, i, p, t);
    FeedPieces(open, k, i, p, t);
  }

  /** Block contents, then everything after an End block. */
  lemma {:induction false} EndDelivers(open: Opener, k: Core, i: nat, p: Bytes, t: Bytes)
    requires Live(k) && DirectEnd(open, k, i, p, t).None?
    ensures Unpads(k, p + Plain(open, i, t), Deliver(open, Parsing(k), i, p, t), DeliverFaulty(open, Parsing(k), i, p, t))
    decreases |t|
  {
    var c := Feed(k, p).core;
    if Live(c) {
      if HasFront(open, i, t) {
        EndDelivers(open, c, i + 1, FrontPlain(open, i, t), BehindFront(t));
      }
      UnpadsMoves(open, c, i, t);
      EndLater(open, k, i, p, t);
    } else {
      UnpadsHere(open, k, i, p, t);
    }
  }

  lemma EndLater(open: Opener, k: Core, i: nat, p: Bytes, t: Bytes)
    requires Live(k) && Live(Feed(k, p).core)
    requires var c := Feed(k, p).core;
             Unpads(c, Plain(open, i, t), Padded(open, Parsing(c), i, t), PaddedFaulty(open, Parsing(c), i, t))
    ensures Unpads(k, p + Plain(open, i, t), Deliver(open, Parsing(k), i, p, t), DeliverFaulty(open, Parsing(k), i, p, t))
  {
    var c := Feed(k, p).core;
    DeliverStep(open, k, i, p, t);
    UnpadsLater(k, p, Plain(open, i, t), Padded(open, Parsing(c), i, t), PaddedFaulty(open, Parsing(c), i, t));
  }

  lemma UnpadsMoves(open: Opener, c: Core, i: nat, t: Bytes)
    requires Live(c)
    requires HasFront(open, i, t) ==>
               var p, rest := FrontPlain(open, i, t), BehindFront(t);
               Unpads(c, p + Plain(open, i + 1, rest), Deliver(open, Parsing(c), i + 1, p, rest),
                      DeliverFaulty(open, Parsing(c), i + 1, p, rest))
    ensures Unpads(c, Plain(open, i, t), Padded(open, Parsing(c), i, t), PaddedFaulty(open, Parsing(c), i, t))
  {
    EndGoesOn(open, c, i, t);
  }

  lemma EndGoesOn(open: Opener, k: Core, i: nat, t: Bytes)
    ensures HasFront(open, i, t) ==>
              && Plain(open, i, t) == FrontPlain(open, i, t) + Plain(open, i + 1, BehindFront(t))
              && Padded(open, Parsing(k), i, t) == Deliver(open, Parsing(k), i + 1, FrontPlain(open, i, t), BehindFront(t))
              && (PaddedFaulty(open, Parsing(k), i, t)
                  == DeliverFaulty(open, Parsing(k), i + 1, FrontPlain(open, i, t), BehindFront(t)))
    ensures !HasFront(open, i, t) ==>
              Padded(open, Parsing(k), i, t) == [] && Feed(k, Plain(open, i, t)) == Fed(k, [])
  {
    PlainStep(open, i, t);
    PaddedStep(open, Parsing(k), i, t);
  }

  /**
    Raw delivery behind the plaintext `upTo`: with it the Direct block is complete and the rest of the
    plaintext changes nothing; what is delivered is its contents, then the raw bytes.
  */
  ghost predicate RawBehind(k: Core, upTo: Bytes, all: Bytes, got: Bytes, raw: Bytes) {
    && Feed(k, upTo).core.phase == Finished(Direct)
    && Feed(k, all).core == Feed(k, upTo).core
    && got == Feed(k, upTo).out + raw
  }

  /** A piece in front that leaves the machine live adds its contents. */
  lemma RawLater(k: Core, p: Bytes, upTo: Bytes, all: Bytes, got: Bytes, raw: Bytes)
    requires RawBehind(Feed(k, p).core, upTo, all, got, raw)
    ensures RawBehind(k, p + upTo, p + all, Feed(k, p).out + got, raw)
  {
    FeedAppend(k, p, upTo);
    FeedAppend(k, p, all);
    Assoc(Feed(k, p).out, Feed(Feed(k, p).core, upTo).out, raw);
  }

  lemma RawHere(open: Opener, k: Core, i: nat, p: Bytes, t: Bytes)
    requires Live(k) && Feed(k, p).core.phase == Finished(Direct)
    ensures RawBehind(k, p + Plain(open, i, t[..0]), p + Plain(open, i, t), Deliver(open, Parsing(k), i, p, t), t[0..])
  {
    DeliverStep(open, k, i, p, t);
    FeedPieces(open, k, i, p, t);
    NothingInFront(open, i, t);
    assert p + [] == p;
  }

  /** Raw delivery behind the first n bytes of t. */
  ghost predicate RawFrom(open: Opener, k: Core, i: nat, p: Bytes, t: Bytes, n: nat) {
    && n <= |t|
    && forall cut: Bytes, all: Bytes {:trigger Plain(open, i, cut), Plain(open, i, all)} :: cut == t[..n] && all == t ==>
         RawBehind(k, p + Plain(open, i, cut), p + Plain(open, i, all), Deliver(open, Parsing(k), i, p, all), all[n..])
  }

  lemma RawFromMeans(open: Opener, k: Core, i: nat, p: Bytes, t: Bytes, n: nat)
    requires RawFrom(open, k, i, p, t, n)
    ensures n <= |t|
    ensures RawBehind(k, p + Plain(open, i, t[..n]), p + Plain(open, i, t), Deliver(open, Parsing(k), i, p, t), t[n..])
  {
  }

  /** With a Direct block: the contents up to the record that completes it, then the raw bytes behind that record. */
  lemma {:induction false} DirectDelivers(open: Opener, k: Core, i: nat, p: Bytes, t: Bytes, n: nat)
    requires Live(k) && DirectEnd(open, k, i, p, t) == Some(n)
    ensures RawFrom(open, k, i, p, t, n)
    decreases |t|
  {
    DirectEndStep(open, k, i, p, t, n);
    var c := Feed(k, p).core;
    if Live(c) {
      DirectDelivers(open, c, i + 1, FrontPlain(open, i, t), BehindFront(t), n - FrontLen(t));
      RawStep(open, k, i, p, t, n - FrontLen(t));
    } else {
      RawHere(open, k, i, p, t);
    }
  }

  lemma RawStep(open: Opener, k: Core, i: nat, p: Bytes, t: Bytes, m: nat)
    requires Live(k) && Live(Feed(k, p).core) && HasFront(open, i, t)
    requires RawFrom(open, Feed(k, p).core, i + 1, FrontPlain(open, i, t), BehindFront(t), m)
    ensures RawFrom(open, k, i, p, t, FrontLen(t) + m)
  {
    RawFromMeans(open, Feed(k, p).core, i + 1, FrontPlain(open, i, t), BehindFront(t), m);
    RawMoves(open, Feed(k, p).core, i, t, m);
    DirectLater(open, k, i, p, t, FrontLen(t) + m);
  }

  lemma DirectLater(open: Opener, k: Core, i: nat, p: Bytes, t: Bytes, n: nat)
    requires Live(k) && Live(Feed(k, p).core) && n <= |t|
    requires RawBehind(Feed(k, p).core, Plain(open, i, t[..n]), Plain(open, i, t),
                       Padded(open, Parsing(Feed(k, p).core), i, t), t[n..])
    ensures RawBehind(k, p + Plain(open, i, t[..n]), p + Plain(open, i, t), Deliver(open, Parsing(k), i, p, t), t[n..])
  {
    DeliverStep(open, k, i, p, t);
    RawLater(k, p, Plain(open, i, t[..n]), Plain(open, i, t), Padded(open, Parsing(Feed(k, p).core), i, t), t[n..]);
  }

  lemma DirectEndStep(open: Opener, k: Core, i: nat, p: Bytes, t: Bytes, n: nat)
    requires DirectEnd(open, k, i, p, t) == Some(n)
    ensures var c := Feed(k, p).core;
            if Live(c) then
              && HasFront(open, i, t) && FrontLen(t) <= n
              && DirectEnd(open, c, i + 1, FrontPlain(open, i, t), BehindFront(t)) == Some(n - FrontLen(t))
            else c.phase == Finished(Direct) && n == 0
  {
  }

  /** A record in front moves the offset. */
  lemma RawMoves(open: Opener, c: Core, i: nat, t: Bytes, m: nat)
    requires HasFront(open, i, t) && m <= |BehindFront(t)|
    requires var p, rest := FrontPlain(open, i, t), BehindFront(t);
             RawBehind(c, p + Plain(open, i + 1, rest[..m]), p + Plain(open, i + 1, rest),
                       Deliver(open, Parsing(c), i + 1, p, rest), rest[m..])
    ensures FrontLen(t) + m <= |t|
    ensures RawBehind(c, Plain(open, i, t[..FrontLen(t) + m]), Plain(open, i, t), Padded(open, Parsing(c), i, t),
                      t[FrontLen(t) + m..])
  {
    FrontOfCut(open, i, t, m);
    EndGoesOn(open, c, i, t);
  }

  lemma NothingInFront(open: Opener, i: nat, t: Bytes)
    ensures Plain(open, i, t[..0]) == [] && t[0..] == t
  {
  }

  // ---- From the start of a stream ----

  const START: Core := Core(AtCommand, true)

  /** The first plaintext that is not empty, if there is one, holds the UUID. */
  predicate OpensWithUuid(open: Opener, uuid: Bytes, i: nat, p: Bytes, t: Bytes)
    decreases |t|
  {
    if p != [] then |p| >= 16 && p[..16] == uuid
    else HasFront(open, i, t) ==> OpensWithUuid(open, uuid, i + 1, FrontPlain(open, i, t), BehindFront(t))
  }

  /** The plaintext of a padded stream, unpadded at one go. */
  function Content(plain: Bytes): Fed {
    if |plain| < 16 then Fed(START, []) else Feed(START, plain[16..])
  }

  /** The offset behind the record that completes a Direct block, counted from the start of a stream. */
  function DirectEndOf(open: Opener, i: nat, p: Bytes, t: Bytes): (r: Option<nat>)
    ensures r.Some? ==> r.value <= |t|
    decreases |t|
  {
    if p != [] then DirectEnd(open, START, i, if |p| < 16 then [] else p[16..], t)
    else if HasFront(open, i, t) then
      Shifted(FrontLen(t), DirectEndOf(open, i + 1, FrontPlain(open, i, t), BehindFront(t)))
    else None
  }

  /** A first piece that holds the UUID starts the machine behind it. */
  lemma UuidIsSkipped(open: Opener, uuid: Bytes, i: nat, p: Bytes, t: Bytes)
    requires |uuid| == 16 && |p| >= 16 && p[..16] == uuid
    ensures Deliver(open, Fresh(uuid), i, p, t) == Deliver(open, Parsing(START), i, p[16..], t)
    ensures DeliverFaulty(open, Fresh(uuid), i, p, t) == DeliverFaulty(open, Parsing(START), i, p[16..], t)
  {
    if p[16..] == [] {
      assert Feed(START, []) == Fed(START, []);
      assert [] + Padded(open, Parsing(START), i, t) == Padded(open, Parsing(START), i, t);
    }
  }

  lemma ContentOfPieces(p: Bytes, tail: Bytes)
    requires |p| >= 16
    ensures Content(p + tail) == Feed(START, p[16..] + tail)
  {
    assert (p + tail)[16..] == p[16..] + tail;
  }

  /** What a stream delivers is what its plaintext holds, from the start and whatever the records. */
  ghost predicate DeliversContent(open: Opener, uuid: Bytes, i: nat, p: Bytes, t: Bytes) {
    var got, all := Deliver(open, Fresh(uuid), i, p, t), Content(p + Plain(open, i, t));
    match DirectEndOf(open, i, p, t)
    case None =>
      && all.core.phase != Finished(Direct)
      && got <= all.out && (!DeliverFaulty(open, Fresh(uuid), i, p, t) ==> got == all.out)
    case Some(n) =>
      && n <= |t|
      && all.core.phase == Finished(Direct) && all.core == Content(p + Plain(open, i, t[..n])).core
      && got == Content(p + Plain(open, i, t[..n])).out + t[n..]
  }

  lemma FirstPieceDelivers(open: Opener, uuid: Bytes, i: nat, p: Bytes, t: Bytes)
    requires |uuid| == 16 && |p| >= 16 && p[..16] == uuid
    ensures DeliversContent(open, uuid, i, p, t)
  {
    UuidIsSkipped(open, uuid, i, p, t);
    ContentOfPieces(p, Plain(open, i, t));
    match DirectEnd(open, START, i, p[16..], t)
    case None => EndDelivers(open, START, i, p[16..], t);
    case Some(n) =>
      ContentOfPieces(p, Plain(open, i, t[..n]));
      DirectDelivers(open, START, i, p[16..], t, n);
      RawFromMeans(open, START, i, p[16..], t, n);
  }

  lemma {:induction false} StreamDelivers(open: Opener, uuid: Bytes, i: nat, p: Bytes, t: Bytes)
    requires |uuid| == 16 && OpensWithUuid(open, uuid, i, p, t)
    ensures DeliversContent(open, uuid, i, p, t)
    decreases |t|
  {
    if p != [] {
      FirstPieceDelivers(open, uuid, i, p, t);
    } else if HasFront(open, i, t) {
      StreamDelivers(open, uuid, i + 1, FrontPlain(open, i, t), BehindFront(t));
      EmptyPieceDelivers(open, uuid, i, t);
    } else {
      PlainStep(open, i, t);
      PaddedStep(open, Fresh(uuid), i, t);
    }
  }

  lemma EmptyPieceDelivers(open: Opener, uuid: Bytes, i: nat, t: Bytes)
    requires HasFront(open, i, t)
    requires DeliversContent(open, uuid, i + 1, FrontPlain(open, i, t), BehindFront(t))
    ensures DeliversContent(open, uuid, i, [], t)
  {
    var p, rest := FrontPlain(open, i, t), BehindFront(t);
    EmptyPieceIsSkipped(open, uuid, i, t);
    if DirectEndOf(open, i + 1, p, rest).Some? {
      var m := DirectEndOf(open, i + 1, p, rest).value;
      FrontOfCut(open, i, t, m);
      assert [] + Plain(open, i, t[..FrontLen(t) + m]) == Plain(open, i, t[..FrontLen(t) + m]);
    }
  }

  lemma EmptyPieceIsSkipped(open: Opener, uuid: Bytes, i: nat, t: Bytes)
    requires HasFront(open, i, t)
    ensures var p, rest := FrontPlain(open, i, t), BehindFront(t);
            && Deliver(open, Fresh(uuid), i, [], t) == Deliver(open, Fresh(uuid), i + 1, p, rest)
            && DeliverFaulty(open, Fresh(uuid), i, [], t) == DeliverFaulty(open, Fresh(uuid), i + 1, p, rest)
            && [] + Plain(open, i, t) == p + Plain(open, i + 1, rest)
            && DirectEndOf(open, i, [], t) == Shifted(FrontLen(t), DirectEndOf(open, i + 1, p, rest))
  {
    PlainStep(open, i, t);
    PaddedStep(open, Fresh(uuid), i, t);
  }

  /**
    Read-side delivery. Once the VLESS response is consumed and if the first plaintext holds the UUID:
    however TCP cut the bytes, and whatever the filter, the bytes delivered and buffered are the
    contents of the blocks, then the later plaintext after End, or the raw TCP bytes after Direct.
  */
  lemma ReaderDelivers(open: Opener, o: Origin, uuid: Bytes, rd: Reader)
    requires ReadOk(open, o, rd) && Quiet(rd) && o.u == Fresh(uuid) && |uuid| == 16
    requires OpensWithUuid(open, uuid, o.i, o.leftover, rd.tcpIn)
    ensures var got := rd.delivered + rd.pendingRead + SessionHolds(rd);
            var all := Content(o.leftover + Plain(open, o.i, rd.tcpIn));
            match DirectEndOf(open, o.i, o.leftover, rd.tcpIn)
            case None => all.core.phase != Finished(Direct) && got == all.out
            case Some(n) =>
              && n <= |rd.tcpIn| && all.core.phase == Finished(Direct)
              && got == Content(o.leftover + Plain(open, o.i, rd.tcpIn[..n])).out + rd.tcpIn[n..]
  {
    DeliveryIsWhole(open, o, rd);
    TotalIsDeliver(open, o, rd.tcpIn);
    StreamDelivers(open, uuid, o.i, o.leftover, rd.tcpIn);
  }
}
