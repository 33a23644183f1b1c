/**
  The Vision stream object (prototype/vless/src/vision_stream.rs): read and write side side by side,
  switching modes independently, with one filter between them.
*/
module VisionStreaming {
  import opened ByteStrings
  import opened FuzzyDeframing
  import opened VisionFiltering
  import opened VisionReading
  import opened VisionUnpadding
  import opened VisionWriting
  import TlsDeframing

  /** Over any recorded trace the flags stay nested, none is taken back, and the count never rises. */
  lemma {:induction false} TraceAdvances(rd: Reader, f0: Filter, n: nat)
    requires FilterTraced(rd, f0) && FlagsNested(f0) && n <= |rd.events|
    ensures FlagsNested(rd.trail[n]) && Advanced(f0, rd.trail[n])
  {
    if n > 0 {
      TraceAdvances(rd, f0, n - 1);
      ApplyAdvances(rd.trail[n - 1], rd.events[n - 1]);
      assert rd.trail[n] == Apply(rd.trail[n - 1], rd.events[n - 1]);
    }
  }

  /** The writer after the read side has shown its events to the shared filter. */
  function Absorb(w: Writer, rd: Reader): Writer
    requires |rd.trail| > 0
  {
    w.(filter := rd.filter,
       past := w.past.(events := w.past.events + rd.events, trail := w.past.trail + rd.trail[1..]))
  }

  /** A trace continued by another one. */
  lemma TracedAppend(w: Writer, rd: Reader)
    requires FilterOk(w) && FilterTraced(rd, w.filter)
    ensures FilterOk(Absorb(w, rd))
  {
    var v, n := Absorb(w, rd), |w.past.events|;
    var events, trail := v.past.events, v.past.trail;
    DecidedGrows(v.past.packets, v.past.marks, w.past.events, w.past.trail, events, trail);
    assert forall j :: 0 <= j < |rd.trail| ==> trail[n + j] == rd.trail[j] by {
      assert trail[n] == w.past.trail[n] == rd.trail[0];
    }
    forall i | 0 <= i < |events|
      ensures trail[i + 1] == Apply(trail[i], events[i])
    {
      if i < n {
        assert events[i] == w.past.events[i];
      } else {
        assert events[i] == rd.events[i - n];
        assert trail[n + (i - n)] == rd.trail[i - n] && trail[n + (i - n + 1)] == rd.trail[i - n + 1];
      }
    }
  }

  lemma AbsorbKeepsOk(w: Writer, rd: Reader)
    requires WriteOk(w) && FilterOk(w) && FilterTraced(rd, w.filter)
    ensures WriteOk(Absorb(w, rd)) && FilterOk(Absorb(w, rd))
  {
    TraceAdvances(rd, w.filter, |rd.events|);
    TracedAppend(w, rd);
  }

  class VisionStream {
    const open: Opener
    ghost const origin: Origin
    var writer: Writer
    var reader: Reader

    /** Holds between calls until a call fails. */
    ghost predicate Valid()
      reads this
    {
      && WriteOk(writer) && FilterOk(writer)
      && ReadOk(open, origin, reader) && Quiet(reader) && EofOk(reader)
    }

    /**
      The stream once the VLESS response has been read: the outer deframer may hold part of a record,
      and plaintext that came with the response may be left over for the unpadder.
    */
    constructor (open: Opener, uuid: Bytes, responseToSend: bool, stalls: nat, outer: Bytes, recordsIn: nat,
                 leftover: Bytes, incoming: Bytes)
      requires TlsDeframing.NextFrame(outer).NeedMore?
      ensures WriteOk(writer) && FilterOk(writer) && writer.past.acked == [] && reader.tcpIn == outer
      ensures this.open == open && origin == Origin(Fresh(uuid), recordsIn, leftover)
      ensures if leftover == [] then Valid() else Holding(open, origin, reader, leftover) && Quiet(reader) && EofOk(reader)
    {
      this.open := open;
      var o := Origin(Fresh(uuid), recordsIn, leftover);
      origin := o;
      var w := NewWriter(uuid, responseToSend, stalls);
      var rd := Reader(PaddingMode, outer, Fresh(uuid), Searching([]), w.filter, [], recordsIn, [], [], false, incoming,
                       outer, [], [], [w.filter], 0);
      StartsHolding(open, o, rd);
      writer, reader := w, rd;
    }

    /** The read side's view of the filter is brought up to date before, and its events recorded after, a read. */
    method Absorbed(rd: Reader)
      requires WriteOk(writer) && FilterOk(writer) && FilterTraced(rd, writer.filter)
      modifies this
      ensures reader == rd && WriteOk(writer) && FilterOk(writer)
      ensures writer.pipe == old(writer).pipe && writer.past.acked == old(writer).past.acked
      ensures writer.filter == rd.filter && writer.past.events == old(writer).past.events + rd.events
    {
      AbsorbKeepsOk(writer, rd);
      var w := Absorb(writer, rd);
      CleanupDiscardsNothing(w, rd.readMode);
      writer := Cleanup(w, rd.readMode);
      reader := rd;
    }

    /** Unpad what came with the VLESS response. */
    method HandleLeftover(leftover: Bytes) returns (ok: bool)
      requires WriteOk(writer) && FilterOk(writer) && Quiet(reader) && EofOk(reader)
      requires leftover == origin.leftover && Holding(open, origin, reader, leftover)
      modifies this
      ensures ok ==> Valid()
      ensures !ok ==> Faulty(open, origin, reader.tcpIn)
      ensures writer.past.acked == old(writer).past.acked
      ensures writer.filter == reader.filter && writer.past.events == old(writer).past.events + reader.events
      ensures var answer := UnpadCall(old(reader).unpadder, leftover).1;
              answer.Unpadded? ==> Inspected(WatchOf(reader), Watch(old(reader).innerRead, old(writer).filter, [], [old(writer).filter]),
                                             answer.content)
    {
      var rd := reader.(filter := writer.filter, events := [], trail := [writer.filter]);
      SameDeliveryKeepsOk(open, origin, rd, reader);
      rd, ok := HandlePadded(open, origin, rd, leftover, writer.filter);
      Absorbed(rd);
    }

    /** `poll_write`: what is acknowledged is accounted for; the read side is not touched. */
    method PollWrite(buf: Bytes) returns (r: WriteResult)
      requires Valid()
      modifies `writer
      ensures r.Wrote? || r.WouldBlock? ==> Valid()
      ensures r.Wrote? ==> r.n <= |buf| && writer.past.acked == old(writer).past.acked + buf[..r.n]
      ensures r.WouldBlock? ==> writer.past.acked == old(writer).past.acked
      ensures r.Panicked? ==> PollPanics(old(writer), buf)
      ensures PollPanics(old(writer), buf) ==> !r.Wrote?
      ensures PollZero(old(writer), buf) && r.Wrote? ==> r.n == 0
      ensures r == Wrote(0) && buf != [] ==> PollZero(old(writer), buf) || writer.pipe.setbacks > old(writer).pipe.setbacks
      ensures Proceeds(old(writer), writer, r.Panicked? || (r.Wrote? && Enough(writer, buf, r.n)))
      ensures |buf| <= SAFE_WRITE && AllShort(old(writer).past.packets) ==> AllShort(writer.past.packets)
    {
      writer, r := VisionWriting.PollWrite(writer, buf, reader.readMode);
    }

    /** `poll_flush`. */
    method PollFlush() returns (r: Drain)
      requires Valid()
      modifies `writer
      ensures !r.Failure? ==> Valid()
      ensures writer.past == old(writer).past
      ensures r.Empty? ==> Payload(writer.pipe.wire) == Submitted(writer.past)
      ensures Proceeds(old(writer), writer, r.Empty?)
    {
      writer, r := VisionWriting.PollFlush(writer);
    }

    /**
      `poll_read`: exactly the returned bytes are newly delivered, and the write side keeps its
      invariant, its acknowledged bytes and its pending bytes, whether or not the mode changed.
    */
    method PollRead(capacity: nat) returns (r: ReadResult)
      requires Valid()
      modifies this
      ensures !r.ReadError? ==> Valid()
      ensures r == ReadError(BadStream) ==> Faulty(open, origin, reader.tcpIn)
      ensures !r.ReadError? ==> reader.delivered == old(reader).delivered + (if r.Got? then r.data else [])
      ensures reader.tcpIn + reader.incoming == old(reader).tcpIn + old(reader).incoming
      ensures HandsOut(reader, old(reader), r, capacity)
      ensures reader.setbacks == old(reader).setbacks + if r.NotReady? || r == ReadError(Connection) then 1 else 0
      ensures WriteOk(writer) && FilterOk(writer)
      ensures writer.pipe == old(writer).pipe && writer.past.acked == old(writer).past.acked
      ensures writer.filter == reader.filter && writer.past.events == old(writer).past.events + reader.events
    {
      var rd := reader.(filter := writer.filter, events := [], trail := [writer.filter]);
      SameDeliveryKeepsOk(open, origin, rd, reader);
      rd, r := VisionReading.PollRead(open, origin, rd, capacity, writer.filter);
      Absorbed(rd);
    }
  }
}
