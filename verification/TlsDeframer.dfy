/**
  The TLS record deframer (prototype/vless/src/tls_deframer.rs).

  Record framing follows sections 5.1 and 5.2 of RFC 8446; the length limit is the one of
  section 6.2.3 of RFC 5246.
*/
module TlsDeframing {
  import opened ByteStrings

  const HEADER_SIZE: nat := 5
  const MAX_CIPHERTEXT_LEN: nat := 16384 + 2048
  const MAX_RECORD_SIZE: nat := MAX_CIPHERTEXT_LEN + HEADER_SIZE

  datatype FrameError = BadVersion | TooLong | BadContentType

  /** What the five header bytes at the front of a buffer say. */
  datatype Header = Missing | Malformed(error: FrameError) | Payload(len: nat)

  /** A length field above the limit, told byte by byte. */
  predicate OverLimit(hi: Byte, lo: Byte) {
    hi > 0x48 || (hi == 0x48 && lo > 0)
  }

  lemma OverLimitIff(hi: Byte, lo: Byte)
    ensures OverLimit(hi, lo) <==> U16(hi, lo) > MAX_CIPHERTEXT_LEN
  {
  }

  function ReadHeader(s: Bytes): Header {
    if |s| < HEADER_SIZE then Missing
    else if s[1] != 3 || !(1 <= s[2] <= 3) then Malformed(BadVersion)
    else if OverLimit(s[3], s[4]) then Malformed(TooLong)
    else if !(0x14 <= s[0] <= 0x18) then Malformed(BadContentType)
    else Payload(U16(s[3], s[4]))
  }

  /** A complete, well-formed TLS record, told without reference to any deframer. */
  predicate IsRecord(r: Bytes) {
    && HEADER_SIZE <= |r| <= MAX_RECORD_SIZE
    && 0x14 <= r[0] <= 0x18
    && r[1] == 3
    && 1 <= r[2] <= 3
    && |r| == HEADER_SIZE + U16(r[3], r[4])
  }

  predicate AllRecords(rs: seq<Bytes>) {
    forall i :: 0 <= i < |rs| ==> IsRecord(rs[i])
  }

  /** The answer of one `next_record` call on buffered bytes. */
  datatype Frame = NeedMore | Bad(error: FrameError) | Record(len: nat)

  function NextFrame(s: Bytes): Frame {
    match ReadHeader(s)
    case Missing => NeedMore
    case Malformed(e) => Bad(e)
    case Payload(n) => if |s| < HEADER_SIZE + n then NeedMore else Record(HEADER_SIZE + n)
  }

  /** The frame answer is the only reading of the buffer: a record iff some prefix is one. */
  lemma FrameIsThePrefixRecord(s: Bytes, k: nat)
    requires k <= |s|
    ensures IsRecord(s[..k]) <==> NextFrame(s) == Record(k)
  {
    if |s| >= HEADER_SIZE {
      OverLimitIff(s[3], s[4]);
    }
    if IsRecord(s[..k]) {
      assert forall i :: 0 <= i < 5 ==> s[..k][i] == s[i];
    }
    if NextFrame(s) == Record(k) {
      assert forall i :: 0 <= i < 5 ==> s[..k][i] == s[i];
    }
  }

  /** More bytes never change a record or an error that is already determined. */
  lemma FrameIsStable(s: Bytes, t: Bytes)
    ensures !NextFrame(s).NeedMore? ==> NextFrame(s + t) == NextFrame(s)
  {
    if |s| >= HEADER_SIZE {
      assert forall i :: 0 <= i < 5 ==> (s + t)[i] == s[i];
    }
  }

  /** Whole-input parse: records, unparsed rest and the error that stopped it, if any. */
  datatype Parse = Parse(records: seq<Bytes>, rest: Bytes, error: Option<FrameError>)

  function StopError(s: Bytes): Option<FrameError> {
    if NextFrame(s).Bad? then Some(NextFrame(s).error) else None
  }

  function ParseAll(s: Bytes): (p: Parse)
    ensures Flatten(p.records) + p.rest == s
    ensures AllRecords(p.records)
    ensures !NextFrame(p.rest).Record?
    ensures p.error == StopError(p.rest)
    decreases |s|
  {
    match NextFrame(s)
    case Record(k) =>
      FrameIsThePrefixRecord(s, k);
      var tail := ParseAll(s[k..]);
      assert s == s[..k] + s[k..];
      assert ([s[..k]] + tail.records)[1..] == tail.records;
      Assoc(s[..k], Flatten(tail.records), tail.rest);
      Parse([s[..k]] + tail.records, tail.rest, tail.error)
    case _ => Parse([], s, StopError(s))
  }

  /** The one-shot parse is the only split of a stream into records and a record-free rest. */
  lemma {:induction false} ParseIsUnique(s: Bytes, records: seq<Bytes>, rest: Bytes)
    requires Flatten(records) + rest == s
    requires AllRecords(records)
    requires !NextFrame(rest).Record?
    ensures ParseAll(s) == Parse(records, rest, StopError(rest))
    decreases |records|
  {
    if records == [] {
      assert s == rest;
    } else {
      var r := records[0];
      assert s == r + (Flatten(records[1..]) + rest);
      assert s[..|r|] == r;
      FrameIsThePrefixRecord(s, |r|);
      assert s[|r|..] == Flatten(records[1..]) + rest;
      ParseIsUnique(s[|r|..], records[1..], rest);
      assert [r] + records[1..] == records;
    }
  }

  /** One caller action on a deframer. */
  datatype Call = Feed(data: Bytes) | Next

  /** Buffered bytes, everything fed so far, records handed out and the last answer seen. */
  datatype Run = Run(buffer: Bytes, fed: Bytes, records: seq<Bytes>)

  function Act(run: Run, call: Call): Run {
    match call
    case Feed(d) => Run(run.buffer + d, run.fed + d, run.records)
    case Next =>
      match NextFrame(run.buffer)
      case Record(k) => Run(run.buffer[k..], run.fed, run.records + [run.buffer[..k]])
      case _ => run
  }

  function ActAll(calls: seq<Call>): Run {
    if calls == [] then Run([], [], [])
    else Act(ActAll(calls[..|calls| - 1]), calls[|calls| - 1])
  }

  /** Over every interleaving of feeds and reads, nothing fed is lost, reordered or invented. */
  lemma {:induction false} RunConserves(calls: seq<Call>)
    ensures var run := ActAll(calls);
            Flatten(run.records) + run.buffer == run.fed && AllRecords(run.records)
  {
    if calls != [] {
      var before := ActAll(calls[..|calls| - 1]);
      RunConserves(calls[..|calls| - 1]);
      match calls[|calls| - 1]
      case Feed(d) =>
        assert Flatten(before.records) + (before.buffer + d) == before.fed + d;
      case Next =>
        if NextFrame(before.buffer).Record? {
          var k := NextFrame(before.buffer).len;
          FrameIsThePrefixRecord(before.buffer, k);
          FlattenSnoc(before.records, before.buffer[..k]);
          assert before.buffer == before.buffer[..k] + before.buffer[k..];
        }
    }
  }

  /**
    Chunking independence: however the bytes were split and whenever records were taken, a deframer
    that has nothing more to hand out has produced exactly the one-shot parse of all bytes fed:
    the same records, the same rest and the same error.
  */
  lemma DrainedRunIsOneShot(calls: seq<Call>)
    requires !NextFrame(ActAll(calls).buffer).Record?
    ensures var run := ActAll(calls);
            ParseAll(run.fed) == Parse(run.records, run.buffer, StopError(run.buffer))
  {
    RunConserves(calls);
    var run := ActAll(calls);
    ParseIsUnique(run.fed, run.records, run.buffer);
  }

  /** An error is sticky: once the front of the buffer is malformed, later bytes change nothing. */
  lemma {:induction false} ErrorIsSticky(calls: seq<Call>, more: seq<Call>)
    requires NextFrame(ActAll(calls).buffer).Bad?
    ensures var run, later := ActAll(calls), ActAll(calls + more);
            && later.records == run.records
            && NextFrame(later.buffer) == NextFrame(run.buffer)
    decreases |more|
  {
    if more == [] {
      assert calls + more == calls;
    } else {
      var front := more[..|more| - 1];
      ErrorIsSticky(calls, front);
      assert (calls + more)[..|calls + more| - 1] == calls + front;
      match more[|more| - 1]
      case Feed(d) => FrameIsStable(ActAll(calls + front).buffer, d);
      case Next =>
    }
  }

  datatype DeframerState = ReadingHeader | ReadingPayload(payloadLen: nat)

  datatype RecordResult = Ready(record: Bytes) | Incomplete | Invalid(error: FrameError)

  class TlsDeframer {
    var buffer: Bytes
    var state: DeframerState

    /** A cached payload length always agrees with the buffered header. */
    ghost predicate Valid()
      reads this
    {
      state.ReadingPayload? ==> ReadHeader(buffer) == Payload(state.payloadLen)
    }

    constructor ()
      ensures Valid() && buffer == []
    {
      buffer := [];
      state := ReadingHeader;
    }

    method Feed(data: Bytes)
      requires Valid()
      modifies this
      ensures Valid() && buffer == old(buffer) + data
    {
      assert ReadHeader(buffer).Payload? ==> ReadHeader(buffer + data) == ReadHeader(buffer) by {
        assert |buffer| >= 5 ==> forall i :: 0 <= i < 5 ==> (buffer + data)[i] == buffer[i];
      }
      buffer := buffer + data;
    }

    method NextRecord() returns (r: RecordResult)
      requires Valid()
      modifies this
      ensures Valid()
      ensures match NextFrame(old(buffer))
              case Record(k) => r == Ready(old(buffer)[..k]) && buffer == old(buffer)[k..]
              case NeedMore => r == Incomplete && buffer == old(buffer)
              case Bad(e) => r == Invalid(e) && buffer == old(buffer) && state == ReadingHeader
      ensures r.Ready? ==> IsRecord(r.record)
    {
      while true
        invariant Valid() && buffer == old(buffer)
        decreases state.ReadingHeader?
      {
        match state
        case ReadingHeader =>
          if |buffer| < HEADER_SIZE {
            return Incomplete;
          }
          var payloadLen := U16(buffer[3], buffer[4]);
          if buffer[1] != 3 || !(1 <= buffer[2] <= 3) {
            return Invalid(BadVersion);
          }
          if payloadLen > MAX_CIPHERTEXT_LEN {
            return Invalid(TooLong);
          }
          if !(0x14 <= buffer[0] <= 0x18) {
            return Invalid(BadContentType);
          }
          state := ReadingPayload(payloadLen);
        case ReadingPayload(payloadLen) =>
          var totalLen := HEADER_SIZE + payloadLen;
          if |buffer| < totalLen {
            return Incomplete;
          }
          FrameIsThePrefixRecord(buffer, totalLen);
          var record := buffer[..totalLen];
          buffer := buffer[totalLen..];
          state := ReadingHeader;
          return Ready(record);
      }
    }

    /**
      Take every available record. On an error the records already taken are dropped with it, as
      the `?` in the source does; the buffer is left at the malformed header either way.
    */
    method NextRecords() returns (records: Option<seq<Bytes>>)
      requires Valid()
      modifies this
      ensures Valid()
      ensures buffer == ParseAll(old(buffer)).rest
      ensures var p := ParseAll(old(buffer));
              records == if p.error.Some? then None else Some(p.records)
    {
      var taken: seq<Bytes> := [];
      while true
        invariant Valid()
        invariant AllRecords(taken) && Flatten(taken) + buffer == old(buffer)
        decreases |buffer|
      {
        ghost var before := buffer;
        var r := NextRecord();
        match r
        case Ready(record) =>
          FlattenSnoc(taken, record);
          assert before == record + buffer;
          Assoc(Flatten(taken), record, buffer);
          taken := taken + [record];
        case Incomplete =>
          ParseIsUnique(old(buffer), taken, buffer);
          return Some(taken);
        case Invalid(_) =>
          ParseIsUnique(old(buffer), taken, buffer);
          return None;
      }
    }

    method Clear()
      modifies this
      ensures Valid() && buffer == [] && state == ReadingHeader
    {
      buffer := [];
      state := ReadingHeader;
    }
  }
}
