/**
  The Vision filter (prototype/vless/src/vision_filter.rs): decides from the first few inner TLS
  records whether the connection may leave the outer TLS session.
*/
module VisionFiltering {
  import opened ByteStrings
  import opened ServerHelloParsing

  const INITIAL_RECORD_COUNT: nat := 8
  const CIPHER_AES_128_CCM_8: nat := 0x1305

  datatype Filter = Filter(count: nat, isTls: bool, isTls12OrAbove: bool, supportsXtls: bool)

  const NewFilter := Filter(INITIAL_RECORD_COUNT, false, false, false)

  predicate IsFiltering(f: Filter) {
    f.count > 0
  }

  predicate IsClientHello(d: Bytes) {
    |d| >= 6 && d[0] == 0x16 && d[1] == 3 && d[5] == 1
  }

  /** A handshake record of record version 3.3 that opens a ServerHello. */
  predicate IsServerHello33(d: Bytes) {
    |d| >= 6 && d[0] == 0x16 && d[1] == 3 && d[2] == 3 && d[5] == 2
  }

  /** The record is a TLS 1.3 ServerHello. */
  predicate IsTls13Hello(d: Bytes) {
    ParseFrame(d).Some? && Meaning(ParseFrame(d).value).isTls13
  }

  /** The record is a TLS 1.3 ServerHello whose cipher suite allows direct copy. */
  predicate AllowsDirect(d: Bytes) {
    IsTls13Hello(d) && Meaning(ParseFrame(d).value).cipherSuite != CIPHER_AES_128_CCM_8
  }

  function Decrement(f: Filter): Filter {
    f.(count := if f.count == 0 then 0 else f.count - 1)
  }

  function Stop(f: Filter): Filter {
    f.(count := 0)
  }

  /** `filter_record`. */
  function FilterRecord(f: Filter, d: Bytes): Filter {
    if f.count == 0 then f
    else if |d| < 5 then Stop(f)
    else
      var seen := f.(count := f.count - 1, isTls := f.isTls || IsClientHello(d));
      if !f.isTls12OrAbove && IsServerHello33(d) then
        Filter(if ParseFrame(d).None? || IsTls13Hello(d) then 0 else seen.count,
               true, true, seen.supportsXtls || AllowsDirect(d))
      else seen
  }

  class VisionFilter {
    var recordFilterCount: nat
    var isTls: bool
    var isTls12OrAbove: bool
    var supportsXtls: bool

    ghost function Value(): Filter
      reads this
    {
      Filter(recordFilterCount, isTls, isTls12OrAbove, supportsXtls)
    }

    constructor ()
      ensures Value() == NewFilter
    {
      recordFilterCount := INITIAL_RECORD_COUNT;
      isTls, isTls12OrAbove, supportsXtls := false, false, false;
    }

    method DecrementFilterCount()
      modifies this
      ensures Value() == Decrement(old(Value()))
    {
      recordFilterCount := if recordFilterCount == 0 then 0 else recordFilterCount - 1;
    }

    method StopFiltering()
      modifies this
      ensures Value() == Stop(old(Value()))
    {
      recordFilterCount := 0;
    }

    method Observe(data: Bytes)
      modifies this
      ensures Value() == FilterRecord(old(Value()), data)
    {
      if recordFilterCount == 0 {
        return;
      }
      recordFilterCount := recordFilterCount - 1;
      if |data| < 5 {
        StopFiltering();
        return;
      }
      if !isTls && IsClientHello(data) {
        isTls := true;
      }
      if !isTls12OrAbove && IsServerHello33(data) {
        isTls12OrAbove := true;
        isTls := true;
        var parsed := ParseServerHello(data);
        match parsed
        case Some(hello) =>
          if hello.isTls13 {
            if hello.cipherSuite != CIPHER_AES_128_CCM_8 {
              supportsXtls := true;
            }
            StopFiltering();
          }
        case None => StopFiltering();
      }
    }
  }

  // ---- Whole runs ----

  /** One thing the stream may do to its filter, from either direction. */
  datatype Event = Saw(record: Bytes) | SkippedPrefix | GaveUp

  function Apply(f: Filter, e: Event): Filter {
    match e
    case Saw(d) => FilterRecord(f, d)
    case SkippedPrefix => Decrement(f)
    case GaveUp => Stop(f)
  }

  function ApplyAll(events: seq<Event>): Filter {
    if events == [] then NewFilter else Apply(ApplyAll(events[..|events| - 1]), events[|events| - 1])
  }

  predicate FlagsNested(f: Filter) {
    && (f.supportsXtls ==> f.isTls12OrAbove)
    && (f.isTls12OrAbove ==> f.isTls)
  }

  /** g is a later state of f: the count has not risen and no flag has been taken back. */
  predicate Advanced(f: Filter, g: Filter) {
    && g.count <= f.count
    && (f.isTls ==> g.isTls)
    && (f.isTls12OrAbove ==> g.isTls12OrAbove)
    && (f.supportsXtls ==> g.supportsXtls)
    && (f.count == 0 ==> g == f)
  }

  lemma ApplyAdvances(f: Filter, e: Event)
    requires FlagsNested(f)
    ensures FlagsNested(Apply(f, e)) && Advanced(f, Apply(f, e))
  {
  }

  /** Over every run the flags stay nested, never revert, and the count never rises. */
  lemma {:induction false} FilterRunAdvances(events: seq<Event>, n: nat)
    requires n <= |events|
    ensures FlagsNested(ApplyAll(events))
    ensures Advanced(ApplyAll(events[..n]), ApplyAll(events))
    decreases |events|
  {
    if n == |events| {
      assert events[..n] == events;
      if n > 0 {
        FilterRunAdvances(events[..n - 1], n - 1);
        ApplyAdvances(ApplyAll(events[..n - 1]), events[n - 1]);
      }
    } else {
      var m := |events| - 1;
      FilterRunAdvances(events[..m], n);
      assert events[..m][..n] == events[..n];
      ApplyAdvances(ApplyAll(events[..m]), events[m]);
    }
  }

  // ---- Which events count, in terms of the events alone ----

  predicate IsHello(e: Event) {
    e.Saw? && IsServerHello33(e.record)
  }

  predicate NoHello(events: seq<Event>) {
    forall i :: 0 <= i < |events| ==> !IsHello(events[i])
  }

  /** After these events, this one ends the filtering before its time. */
  predicate Ending(before: seq<Event>, e: Event) {
    || e.GaveUp?
    || (e.Saw? && |e.record| < 5)
    || (IsHello(e) && NoHello(before) && (ParseFrame(e.record).None? || IsTls13Hello(e.record)))
  }

  predicate NoneEnds(events: seq<Event>) {
    forall i :: 0 <= i < |events| ==> !Ending(events[..i], events[i])
  }

  /** What comes behind these events is still examined: there are fewer than eight, and none ends the filtering. */
  predicate StillOpen(events: seq<Event>) {
    |events| < INITIAL_RECORD_COUNT && NoneEnds(events)
  }

  predicate Examined(events: seq<Event>, i: nat)
    requires i < |events|
  {
    StillOpen(events[..i])
  }

  lemma NoneEndsStep(events: seq<Event>, n: nat)
    requires |events| == n + 1
    ensures NoneEnds(events) <==> NoneEnds(events[..n]) && !Ending(events[..n], events[n])
    ensures NoHello(events) <==> NoHello(events[..n]) && !IsHello(events[n])
  {
    assert forall i :: 0 <= i < n ==> events[..n][..i] == events[..i] && events[..n][i] == events[i];
  }

  /** What has been counted and seen after events none of which ended the filtering. */
  ghost predicate Counted(f: Filter, events: seq<Event>) {
    f.count == INITIAL_RECORD_COUNT - |events| && (f.isTls12OrAbove <==> !NoHello(events))
  }

  lemma CountedStep(f: Filter, before: seq<Event>, e: Event, events: seq<Event>)
    requires Counted(f, before) && f.count > 0 && !Ending(before, e) && events == before + [e]
    ensures Counted(Apply(f, e), events)
  {
    assert events[..|before|] == before;
    NoneEndsStep(events, |before|);
  }

  /** While filtering lasts the version flag tells whether there was a 3.3 ServerHello. */
  lemma {:induction false} OpenRun(events: seq<Event>, n: nat)
    requires NoneEnds(events) && n <= |events| && n <= INITIAL_RECORD_COUNT
    ensures Counted(ApplyAll(events[..n]), events[..n])
    decreases n
  {
    if n > 0 {
      OpenRun(events, n - 1);
      assert !Ending(events[..n - 1], events[n - 1]);
      assert events[..n] == events[..n - 1] + [events[n - 1]];
      ApplySnoc(events[..n - 1], events[n - 1]);
      CountedStep(ApplyAll(events[..n - 1]), events[..n - 1], events[n - 1], events[..n]);
    }
  }

  lemma ApplySnoc(events: seq<Event>, e: Event)
    ensures ApplyAll(events + [e]) == Apply(ApplyAll(events), e)
  {
    assert (events + [e])[..|events|] == events;
  }

  lemma LastStep(f: Filter, before: seq<Event>, e: Event)
    requires Counted(f, before) && f.count > 0 && (Ending(before, e) || f.count == 1)
    ensures Apply(f, e).count == 0
  {
  }

  lemma DoneStaysDone(f: Filter, e: Event)
    requires f.count == 0
    ensures Apply(f, e).count == 0
  {
  }

  lemma CountStep(f: Filter, before: seq<Event>, e: Event, events: seq<Event>)
    requires events == before + [e] && !StillOpen(events)
    requires if StillOpen(before) then Counted(f, before) else f.count == 0
    ensures Apply(f, e).count == 0
  {
    if StillOpen(before) {
      assert events[..|before|] == before;
      NoneEndsStep(events, |before|);
      LastStep(f, before, e);
    } else {
      DoneStaysDone(f, e);
    }
  }

  /**
    The count, from the events alone: eight less one for each event, and nothing once an event has ended
    the filtering.
  */
  lemma {:induction false} CountIs(events: seq<Event>)
    ensures ApplyAll(events).count == if StillOpen(events) then INITIAL_RECORD_COUNT - |events| else 0
    decreases |events|
  {
    assert events[..|events|] == events;
    if StillOpen(events) {
      OpenRun(events, |events|);
    } else if events != [] {
      var front := events[..|events| - 1];
      CountIs(front);
      if StillOpen(front) {
        OpenRun(front, |front|);
        assert front[..|front|] == front;
      }
      assert events == front + [events[|front|]];
      CountStep(ApplyAll(front), front, events[|front|], events);
    } else {
      NothingEnds(events);
    }
  }

  lemma NothingEnds(events: seq<Event>)
    requires events == []
    ensures StillOpen(events)
  {
  }

  /** Event i is a 3.3 ServerHello that the filter examined. */
  predicate ExaminedHello(events: seq<Event>, i: nat)
    requires i < |events|
  {
    IsHello(events[i]) && Examined(events, i)
  }

  /** Event i is a ClientHello, or a 3.3 ServerHello, that the filter examined. */
  predicate ExaminedTls(events: seq<Event>, i: nat)
    requires i < |events|
  {
    ExaminedHello(events, i) || (events[i].Saw? && IsClientHello(events[i].record) && Examined(events, i))
  }

  /** What an event does to the flags. */
  lemma FlagStep(f: Filter, e: Event)
    requires FlagsNested(f)
    ensures Apply(f, e).isTls12OrAbove <==> f.isTls12OrAbove || (IsHello(e) && f.count > 0)
    ensures Apply(f, e).isTls
       <==> f.isTls || (IsHello(e) && f.count > 0) || (e.Saw? && IsClientHello(e.record) && f.count > 0)
    ensures Apply(f, e).supportsXtls
       <==> f.supportsXtls || (IsHello(e) && f.count > 0 && !f.isTls12OrAbove && AllowsDirect(e.record))
  {
  }

  lemma ExaminedInPrefix(events: seq<Event>, n: nat, i: nat)
    requires i < n <= |events|
    ensures ExaminedHello(events[..n], i) <==> ExaminedHello(events, i)
    ensures ExaminedTls(events[..n], i) <==> ExaminedTls(events, i)
  {
    assert events[..n][..i] == events[..i];
  }

  ghost predicate SomeExamined(events: seq<Event>) {
    exists i: nat :: i < |events| && ExaminedHello(events, i)
  }

  ghost predicate SomeTls(events: seq<Event>) {
    exists i: nat :: i < |events| && ExaminedTls(events, i)
  }

  lemma SomeExaminedStep(events: seq<Event>, n: nat)
    requires |events| == n + 1
    ensures SomeExamined(events) <==> SomeExamined(events[..n]) || ExaminedHello(events, n)
    ensures SomeTls(events) <==> SomeTls(events[..n]) || ExaminedTls(events, n)
  {
    forall i: nat | i < n
      ensures ExaminedHello(events[..n], i) <==> ExaminedHello(events, i)
      ensures ExaminedTls(events[..n], i) <==> ExaminedTls(events, i)
    {
      ExaminedInPrefix(events, n, i);
    }
  }

  /**
    The version flag records whether any 3.3 ServerHello was examined, the TLS flag whether any
    ClientHello or 3.3 ServerHello was.
  */
  lemma {:induction false} Tls12Iff(events: seq<Event>)
    ensures ApplyAll(events).isTls12OrAbove <==> SomeExamined(events)
    ensures ApplyAll(events).isTls <==> SomeTls(events)
    decreases |events|
  {
    if events != [] {
      var n := |events| - 1;
      Tls12Iff(events[..n]);
      CountIs(events[..n]);
      FilterRunAdvances(events[..n], 0);
      FlagStep(ApplyAll(events[..n]), events[n]);
      SomeExaminedStep(events, n);
    }
  }

  /** Event i is the first examined 3.3 ServerHello. */
  ghost predicate FirstExaminedHello(events: seq<Event>, i: nat)
    requires i < |events|
  {
    ExaminedHello(events, i) && forall j: nat :: j < i ==> !ExaminedHello(events, j)
  }

  /** The first examined 3.3 ServerHello exists and allows direct copy. */
  ghost predicate FirstHelloAllowsDirect(events: seq<Event>) {
    exists i: nat :: i < |events| && FirstExaminedHello(events, i) && AllowsDirect(events[i].record)
  }

  lemma FirstHelloStep(events: seq<Event>, n: nat)
    requires |events| == n + 1
    ensures FirstHelloAllowsDirect(events)
       <==> || FirstHelloAllowsDirect(events[..n])
            || (ExaminedHello(events, n) && !SomeExamined(events[..n]) && AllowsDirect(events[n].record))
  {
    var before := events[..n];
    forall i: nat | i < n
      ensures ExaminedHello(before, i) <==> ExaminedHello(events, i)
    {
      ExaminedInPrefix(events, n, i);
    }
    forall i: nat | i < n
      ensures FirstExaminedHello(before, i) <==> FirstExaminedHello(events, i)
      ensures before[i] == events[i]
    {
    }
    assert FirstExaminedHello(events, n) <==> ExaminedHello(events, n) && !SomeExamined(before);
  }

  /**
    The filter allows direct copy if and only if the first 3.3 ServerHello it examined is a TLS 1.3
    one with a cipher suite other than 0x1305: no later ServerHello can grant or revoke it.
  */
  lemma {:induction false} XtlsIff(events: seq<Event>)
    ensures ApplyAll(events).supportsXtls <==> FirstHelloAllowsDirect(events)
    decreases |events|
  {
    if events != [] {
      var n := |events| - 1;
      XtlsIff(events[..n]);
      Tls12Iff(events[..n]);
      CountIs(events[..n]);
      FilterRunAdvances(events[..n], 0);
      FlagStep(ApplyAll(events[..n]), events[n]);
      FirstHelloStep(events, n);
    }
  }
}
