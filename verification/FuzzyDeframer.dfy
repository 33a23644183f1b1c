/**
  The fuzzy TLS deframer (prototype/vless/src/tls_fuzzy_deframer.rs): releases bytes that can
  never belong to an inner TLS handshake, then deframes records from the first handshake on.
*/
module FuzzyDeframing {
  import opened ByteStrings
  import opened HandshakeSearch
  import TlsDeframing

  datatype Fuzzy = Searching(buf: Bytes) | Deframing(buf: Bytes)

  datatype Answer =
    | TlsRecord(record: Bytes)
    | UnknownPrefix(prefix: Bytes)
    | NeedData
    | Failed(error: TlsDeframing.FrameError)

  function FuzzyFeed(f: Fuzzy, data: Bytes): Fuzzy {
    f.(buf := f.buf + data)
  }

  function Deframe(b: Bytes): (Fuzzy, Answer) {
    match TlsDeframing.NextFrame(b)
    case Record(k) => (Deframing(b[k..]), TlsRecord(b[..k]))
    case NeedMore => (Deframing(b), NeedData)
    case Bad(e) => (Deframing(b), Failed(e))
  }

  function Search(b: Bytes): (Fuzzy, Answer) {
    match HandshakeStart(b)
    case Some(o) => if o == 0 then Deframe(b) else (Deframing(b[o..]), UnknownPrefix(b[..o]))
    case None =>
      var k := PotentialSuffixLen(b);
      if k < |b| then (Searching(Last(b, k)), UnknownPrefix(b[..|b| - k])) else (Searching(b), NeedData)
  }

  /** One `next_record` call: the new state and the answer. */
  function FuzzyNext(f: Fuzzy): (Fuzzy, Answer) {
    if f.Searching? then Search(f.buf) else Deframe(f.buf)
  }

  /** The bytes an answer hands out. */
  function Output(a: Answer): Bytes {
    match a
    case TlsRecord(r) => r
    case UnknownPrefix(p) => p
    case _ => []
  }

  lemma DeframeSplits(b: Bytes)
    ensures var (g, a) := Deframe(b);
            && Output(a) + g.buf == b && g.Deframing? && !a.UnknownPrefix?
            && (a.TlsRecord? ==> TlsDeframing.IsRecord(a.record))
  {
    if TlsDeframing.NextFrame(b).Record? {
      TlsDeframing.FrameIsThePrefixRecord(b, TlsDeframing.NextFrame(b).len);
    }
  }

  lemma FruitlessSearchSplits(b: Bytes)
    requires HandshakeStart(b).None?
    ensures var (g, a) := Search(b);
            && Output(a) + g.buf == b && g.Searching? && (a.UnknownPrefix? ==> a.prefix != [])
            && (a.UnknownPrefix? || a.NeedData?)
            && |g.buf| == PotentialSuffixLen(b) <= 5 && IsHandshakePrefix(g.buf)
  {
    SuffixSplits(b, PotentialSuffixLen(b));
  }

  lemma SuffixSplits(b: Bytes, k: nat)
    requires IsPotentialSuffix(b, k)
    ensures |Last(b, k)| == k <= 5 && IsHandshakePrefix(Last(b, k))
    ensures b[..|b| - k] + Last(b, k) == b && (k == |b| ==> Last(b, k) == b)
  {
  }

  lemma FruitfulSearchSplits(b: Bytes)
    requires HandshakeStart(b).Some?
    ensures var (g, a) := Search(b);
            && Output(a) + g.buf == b && g.Deframing? && (a.UnknownPrefix? ==> a.prefix != [])
            && (a.TlsRecord? ==> TlsDeframing.IsRecord(a.record))
            && HandshakeStart(b).value == if a.UnknownPrefix? then |a.prefix| else 0
  {
    var o := HandshakeStart(b).value;
    if o == 0 {
      DeframeSplits(b);
    } else {
      assert b[..o] + b[o..] == b;
    }
  }

  /**
    What one call does to the bytes: they split into the output and what stays buffered, a prefix
    or record is never empty, and a search that waits holds at most five bytes of a pattern.
  */
  lemma NextSplitsTheBuffer(f: Fuzzy)
    ensures var (g, a) := FuzzyNext(f);
            && Output(a) + g.buf == f.buf
            && (a.UnknownPrefix? ==> f.Searching? && a.prefix != [])
            && (a.TlsRecord? ==> g.Deframing? && TlsDeframing.IsRecord(a.record))
            && (a.NeedData? && g.Searching? ==> |g.buf| <= 5 && IsHandshakePrefix(g.buf))
            && (f.Deframing? ==> g.Deframing?)
            && (a.Failed? ==> g.Deframing?)
  {
    if f.Deframing? {
      DeframeSplits(f.buf);
    } else if HandshakeStart(f.buf).None? {
      FruitlessSearchSplits(f.buf);
    } else {
      FruitfulSearchSplits(f.buf);
    }
  }

  /** One caller action on the deframer. */
  datatype Call = Feed(data: Bytes) | Next

  /** State after some calls: the deframer, all bytes fed, all prefix bytes and records handed out. */
  datatype Run = Run(f: Fuzzy, fed: Bytes, prefix: Bytes, records: seq<Bytes>)

  /** The run after a read that moved the deframer to g and answered a. */
  function Note(run: Run, g: Fuzzy, a: Answer): Run {
    match a
    case TlsRecord(r) => Run(g, run.fed, run.prefix, run.records + [r])
    case UnknownPrefix(p) => Run(g, run.fed, run.prefix + p, run.records)
    case _ => Run(g, run.fed, run.prefix, run.records)
  }

  function Act(run: Run, call: Call): Run {
    match call
    case Feed(d) => Run(FuzzyFeed(run.f, d), run.fed + d, run.prefix, run.records)
    case Next => Note(run, FuzzyNext(run.f).0, FuzzyNext(run.f).1)
  }

  function ActAll(calls: seq<Call>): Run {
    if calls == [] then Run(Searching([]), [], [], [])
    else Act(ActAll(calls[..|calls| - 1]), calls[|calls| - 1])
  }

  /** What every reachable run satisfies. */
  ghost predicate Explained(run: Run) {
    && Accounted(run) == run.fed
    && TlsDeframing.AllRecords(run.records)
    && match run.f
       case Searching(_) => run.records == [] && Hopeless(run.fed, |run.prefix|)
       case Deframing(_) => FirstMatch(run.fed, |run.prefix|)
  }

  lemma FirstMatchIsStable(s: Bytes, t: Bytes, o: nat)
    requires FirstMatch(s, o)
    ensures FirstMatch(s + t, o)
  {
    forall i: nat | i <= o
      ensures MatchAt(s + t, i) <==> MatchAt(s, i)
    {
      MatchExtends(s, t, i);
    }
  }

  lemma HopelessIsStable(s: Bytes, t: Bytes, n: nat)
    requires Hopeless(s, n)
    ensures Hopeless(s + t, n)
  {
    forall u: Bytes, i: nat | i < n
      ensures !MatchAt(s + t + u, i)
    {
      assert s + t + u == s + (t + u);
    }
  }

  lemma FeedExplained(run: Run, d: Bytes)
    requires Explained(run)
    ensures Explained(Act(run, Feed(d)))
  {
    var next := Act(run, Feed(d));
    assert run.prefix + Flatten(run.records) + (run.f.buf + d) == run.fed + d;
    if run.f.Searching? {
      HopelessIsStable(run.fed, d, |run.prefix|);
    } else {
      FirstMatchIsStable(run.fed, d, |run.prefix|);
    }
  }

  /** A match of the buffered bytes is a match of the whole stream, shifted by what was released. */
  lemma SearchSeesTheStream(run: Run, i: nat)
    requires Explained(run) && run.f.Searching?
    ensures run.prefix + run.f.buf == run.fed
    ensures MatchAt(run.fed, |run.prefix| + i) <==> MatchAt(run.f.buf, i)
  {
    assert run.prefix + Flatten(run.records) == run.prefix;
    MatchShift(run.prefix, run.f.buf, i);
  }

  lemma FoundIsFirst(run: Run, o: nat)
    requires Explained(run) && run.f.Searching? && FirstMatch(run.f.buf, o)
    ensures FirstMatch(run.fed, |run.prefix| + o)
  {
    SearchSeesTheStream(run, o);
    assert run.fed + [] == run.fed;
    forall i: nat | i < |run.prefix| + o
      ensures !MatchAt(run.fed, i)
    {
      if i < |run.prefix| {
        assert !MatchAt(run.fed + [], i);
      } else {
        SearchSeesTheStream(run, i - |run.prefix|);
      }
    }
  }

  lemma NoneMeansNoMatch(run: Run)
    requires Explained(run) && run.f.Searching? && NoMatch(run.f.buf)
    ensures NoMatch(run.fed)
  {
    assert run.fed + [] == run.fed;
    forall i: nat | i < |run.fed|
      ensures !MatchAt(run.fed, i)
    {
      if i < |run.prefix| {
        assert !MatchAt(run.fed + [], i);
      } else {
        SearchSeesTheStream(run, i - |run.prefix|);
      }
    }
  }

  /** Releasing the bytes before the potential suffix keeps the released bytes hopeless. */
  lemma ReleaseIsHopeless(run: Run)
    requires Explained(run) && run.f.Searching? && NoMatch(run.f.buf)
    ensures var b := run.f.buf;
            Hopeless(run.fed, |run.prefix| + |b| - PotentialSuffixLen(b))
  {
    var b := run.f.buf;
    var k := PotentialSuffixLen(b);
    SearchSeesTheStream(run, 0);
    ReleaseIsExact(b, k);
    forall t: Bytes, i: nat | i < |run.prefix| + |b| - k
      ensures !MatchAt(run.fed + t, i)
    {
      if i >= |run.prefix| {
        MatchShift(run.prefix, b + t, i - |run.prefix|);
        assert run.fed + t == run.prefix + (b + t);
      }
    }
  }

  /** The bytes of a run, in stream order. */
  function Accounted(run: Run): Bytes {
    run.prefix + Flatten(run.records) + run.f.buf
  }

  /** A read moves bytes from the buffer to the outputs and loses none. */
  lemma NoteConserves(run: Run, g: Fuzzy, a: Answer)
    requires Output(a) + g.buf == run.f.buf
    requires a.UnknownPrefix? ==> run.records == []
    ensures Accounted(Note(run, g, a)) == Accounted(run)
  {
    var before := run.prefix + Flatten(run.records);
    assert Accounted(run) == before + Output(a) + g.buf;
    match a
    case TlsRecord(r) =>
      FlattenSnoc(run.records, r);
      assert before + r == run.prefix + Flatten(run.records + [r]);
    case UnknownPrefix(p) =>
      assert before == run.prefix;
      assert before + p == run.prefix + p + Flatten([]);
    case _ => assert before + Output(a) == before;
  }

  lemma DeframeExplained(run: Run, g: Fuzzy, a: Answer)
    requires Explained(run) && run.f.Deframing? && g.Deframing? && Output(a) + g.buf == run.f.buf
    requires !a.UnknownPrefix? && (a.TlsRecord? ==> TlsDeframing.IsRecord(a.record))
    ensures Explained(Note(run, g, a))
  {
    NoteConserves(run, g, a);
  }

  lemma FoundExplained(run: Run, g: Fuzzy, a: Answer)
    requires Explained(run) && run.f.Searching? && g.Deframing? && Output(a) + g.buf == run.f.buf
    requires FirstMatch(run.f.buf, if a.UnknownPrefix? then |a.prefix| else 0)
    requires a.TlsRecord? ==> TlsDeframing.IsRecord(a.record)
    ensures Explained(Note(run, g, a))
  {
    NoteConserves(run, g, a);
    FoundIsFirst(run, if a.UnknownPrefix? then |a.prefix| else 0);
  }

  lemma ReleaseExplained(run: Run, g: Fuzzy, a: Answer)
    requires Explained(run) && run.f.Searching? && g.Searching? && Output(a) + g.buf == run.f.buf
    requires NoMatch(run.f.buf) && IsPotentialSuffix(run.f.buf, |g.buf|) && (a.UnknownPrefix? || a.NeedData?)
    ensures Explained(Note(run, g, a))
  {
    PotentialSuffixIsUnique(run.f.buf, |g.buf|);
    NoteConserves(run, g, a);
    ReleaseIsHopeless(run);
  }

  lemma NextExplained(run: Run)
    requires Explained(run)
    ensures Explained(Act(run, Next))
  {
    var (g, a) := FuzzyNext(run.f);
    if run.f.Deframing? {
      DeframeSplits(run.f.buf);
      DeframeExplained(run, g, a);
    } else if HandshakeStart(run.f.buf).Some? {
      FruitfulSearchSplits(run.f.buf);
      FoundExplained(run, g, a);
    } else {
      FruitlessSearchSplits(run.f.buf);
      ReleaseExplained(run, g, a);
    }
  }

  lemma {:induction false} RunExplained(calls: seq<Call>)
    ensures Explained(ActAll(calls))
  {
    if calls == [] {
    } else {
      RunExplained(calls[..|calls| - 1]);
      var before := ActAll(calls[..|calls| - 1]);
      match calls[|calls| - 1]
      case Feed(d) => FeedExplained(before, d);
      case Next => NextExplained(before);
    }
  }

  /** The whole stream split at once: prefix, records, what is still held, and the stopping error. */
  datatype Split = Split(prefix: Bytes, parse: TlsDeframing.Parse)

  function OneShot(s: Bytes): Split {
    match HandshakeStart(s)
    case Some(o) => Split(s[..o], TlsDeframing.ParseAll(s[o..]))
    case None =>
      var k := PotentialSuffixLen(s);
      Split(s[..|s| - k], TlsDeframing.Parse([], Last(s, k), None))
  }

  predicate Drained(f: Fuzzy) {
    var a := FuzzyNext(f).1;
    a.NeedData? || a.Failed?
  }

  /** What a drained deframer reports as its stopping error. */
  function StopError(f: Fuzzy): Option<TlsDeframing.FrameError> {
    var a := FuzzyNext(f).1;
    if a.Failed? then Some(a.error) else None
  }

  /** A drained search holds exactly the potential suffix of the whole stream. */
  lemma HeldIsWholeSuffix(run: Run)
    requires Explained(run) && run.f.Searching? && Drained(run.f) && FuzzyNext(run.f).0.Searching?
    ensures NoMatch(run.fed) && PotentialSuffixLen(run.fed) == |run.f.buf|
    ensures run.prefix + run.f.buf == run.fed
  {
    SearchSeesTheStream(run, 0);
    NoneMeansNoMatch(run);
    var b, s := run.f.buf, run.fed;
    var k := PotentialSuffixLen(s);
    assert Last(s, |b|) == b;
    assert Last(b, |b|) == b;
    assert k >= |b|;
    ReleaseIsExact(s, k);
  }

  /** A drained deframer positioned at the first match has parsed the stream from there. */
  lemma DeframingIsOneShot(run: Run)
    requires run.prefix + Flatten(run.records) + run.f.buf == run.fed
    requires TlsDeframing.AllRecords(run.records)
    requires FirstMatch(run.fed, |run.prefix|)
    requires !TlsDeframing.NextFrame(run.f.buf).Record?
    ensures OneShot(run.fed)
         == Split(run.prefix, TlsDeframing.Parse(run.records, run.f.buf, TlsDeframing.StopError(run.f.buf)))
  {
    HandshakeStartIsUnique(run.fed, Some(|run.prefix|));
    assert run.fed == run.prefix + (Flatten(run.records) + run.f.buf);
    assert run.fed[|run.prefix|..] == Flatten(run.records) + run.f.buf;
    TlsDeframing.ParseIsUnique(run.fed[|run.prefix|..], run.records, run.f.buf);
    assert run.fed[..|run.prefix|] == run.prefix;
  }

  /** A drained search has looked at the whole stream and holds its potential suffix. */
  lemma SearchIsOneShot(run: Run)
    requires Explained(run) && run.f.Searching? && Drained(run.f) && FuzzyNext(run.f).0.Searching?
    ensures OneShot(run.fed) == Split(run.prefix, TlsDeframing.Parse(run.records, run.f.buf, None))
  {
    HeldIsWholeSuffix(run);
    HandshakeStartIsUnique(run.fed, None);
    assert Last(run.fed, |run.f.buf|) == run.f.buf;
    assert run.fed[..|run.prefix|] == run.prefix;
  }

  lemma DrainedIsOneShot(run: Run)
    requires Explained(run) && Drained(run.f)
    ensures OneShot(run.fed) == Split(run.prefix, TlsDeframing.Parse(run.records, run.f.buf, StopError(run.f)))
  {
    if run.f.Deframing? {
      DeframingIsOneShot(run);
    } else if HandshakeStart(run.f.buf).Some? {
      FoundIsFirst(run, 0);
      DeframingIsOneShot(run);
    } else {
      SearchIsOneShot(run);
    }
  }

  /**
    Chunking independence of the handshake search: over every interleaving of feeds and reads, once
    the deframer has nothing more to hand out, the released prefix, the records, the held bytes and
    the error are those of one look at the whole stream. In particular deframing starts at the
    first offset of the whole stream that matches the pattern.
  */
  lemma DrainedRunIsOneShot(calls: seq<Call>)
    requires Drained(ActAll(calls).f)
    ensures var run := ActAll(calls);
            OneShot(run.fed) == Split(run.prefix, TlsDeframing.Parse(run.records, run.f.buf, StopError(run.f)))
  {
    RunExplained(calls);
    DrainedIsOneShot(ActAll(calls));
  }

  class FuzzyTlsDeframer {
    const inner: TlsDeframing.TlsDeframer
    var searchBuffer: Bytes
    var searching: bool
    var totalPrefixBytes: nat

    ghost predicate Valid()
      reads this, inner
    {
      && inner.Valid()
      && (searching ==> inner.buffer == [] && inner.state.ReadingHeader?)
      && (!searching ==> searchBuffer == [])
    }

    ghost function Value(): Fuzzy
      reads this, inner
    {
      if searching then Searching(searchBuffer) else Deframing(inner.buffer)
    }

    constructor ()
      ensures Valid() && Value() == Searching([]) && totalPrefixBytes == 0
      ensures fresh(inner)
    {
      inner := new TlsDeframing.TlsDeframer();
      searchBuffer := [];
      searching := true;
      totalPrefixBytes := 0;
      new;
      inner.Clear();
    }

    method Feed(data: Bytes)
      requires Valid()
      modifies this, inner
      ensures Valid() && Value() == FuzzyFeed(old(Value()), data)
      ensures totalPrefixBytes == old(totalPrefixBytes)
    {
      if searching {
        searchBuffer := searchBuffer + data;
      } else {
        inner.Feed(data);
      }
    }

    method NextRecord() returns (a: Answer)
      requires Valid()
      modifies this, inner
      ensures Valid() && (Value(), a) == FuzzyNext(old(Value()))
      ensures totalPrefixBytes == old(totalPrefixBytes) + if a.UnknownPrefix? then |a.prefix| else 0
    {
      if searching {
        if searchBuffer == [] {
          PotentialSuffixIsUnique(searchBuffer, 0);
          return NeedData;
        }
        if |searchBuffer| >= PATTERN_LEN {
          var start := FindHandshakeStart(searchBuffer);
          HandshakeStartIsUnique(searchBuffer, start);
          if start.Some? {
            var prefix := searchBuffer[..start.value];
            inner.Feed(searchBuffer[start.value..]);
            assert inner.buffer == searchBuffer[start.value..];
            searchBuffer := [];
            searching := false;
            if start.value > 0 {
              totalPrefixBytes := totalPrefixBytes + |prefix|;
              return UnknownPrefix(prefix);
            }
            a := NextInner();
            return;
          }
        }
        a := ReleasePrefix();
        return;
      }
      a := NextInner();
    }

    /** Release the bytes that can no longer start a handshake, if there are any. */
    method ReleasePrefix() returns (a: Answer)
      requires Valid() && searching && NoMatch(searchBuffer)
      modifies this
      ensures Valid() && (Value(), a) == Search(old(searchBuffer))
      ensures totalPrefixBytes == old(totalPrefixBytes) + if a.UnknownPrefix? then |a.prefix| else 0
    {
      HandshakeStartIsUnique(searchBuffer, None);
      var suffixLen := FindPotentialSuffixLen(searchBuffer);
      PotentialSuffixIsUnique(searchBuffer, suffixLen);
      if suffixLen < |searchBuffer| {
        var prefix := searchBuffer[..|searchBuffer| - suffixLen];
        searchBuffer := searchBuffer[|searchBuffer| - suffixLen..];
        totalPrefixBytes := totalPrefixBytes + |prefix|;
        return UnknownPrefix(prefix);
      }
      return NeedData;
    }

    method NextInner() returns (a: Answer)
      requires Valid() && !searching
      modifies this, inner
      ensures Valid() && !searching && (Value(), a) == Deframe(old(inner.buffer))
      ensures totalPrefixBytes == old(totalPrefixBytes) && !a.UnknownPrefix?
    {
      var r := inner.NextRecord();
      match r
      case Ready(record) => return TlsRecord(record);
      case Incomplete => return NeedData;
      case Invalid(e) => return Failed(e);
    }

    method PendingBytes() returns (n: nat)
      requires Valid()
      ensures n == |Value().buf|
    {
      n := if searching then |searchBuffer| else |inner.buffer|;
    }

    /** Forget everything buffered and search again. */
    method Clear()
      modifies this, inner
      ensures Valid() && Value() == Searching([]) && totalPrefixBytes == 0
    {
      searchBuffer := [];
      inner.Clear();
      searching := true;
      totalPrefixBytes := 0;
    }
  }
}
