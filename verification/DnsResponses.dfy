/**
  What the response sniffer (sniff_dns_response in crates/dynet-runtime/src/dns.rs) reads off a response,
  told by the layout of resource records in section 4.1.3 of RFC 1035.
*/
module DnsResponses {
  import opened ByteStrings
  import opened DnsNames
  import opened DnsMessages

  // ---- Resource records ----

  /** A resource record without its name; `kind` holds the two bytes of its class. */
  datatype Resource = Resource(code: nat, kind: Bytes, ttl: Bytes, data: Bytes)

  predicate Fits(r: Resource) {
    r.code < 0x1_0000 && |r.kind| == 2 && |r.ttl| == 4 && |r.data| < 0x1_0000
  }

  /** Type, class, time to live, data length, data. */
  function Body(r: Resource): (b: Bytes)
    requires Fits(r)
    ensures |b| == 10 + |r.data|
  {
    PutU16(r.code) + r.kind + r.ttl + PutU16(|r.data|) + r.data
  }

  /** The bytes lie at an offset. */
  predicate At(p: Bytes, at: nat, bytes: Bytes) {
    at + |bytes| <= |p| && p[at..at + |bytes|] == bytes
  }

  lemma AtParts(p: Bytes, at: nat, a: Bytes, b: Bytes)
    ensures At(p, at, a + b) <==> At(p, at, a) && At(p, at + |a|, b)
  {
    var k, n := at + |a|, at + |a| + |b|;
    if At(p, at, a + b) {
      assert p[at..k] == p[at..n][..|a|] == (a + b)[..|a|] == a;
      assert p[k..n] == p[at..n][|a|..] == (a + b)[|a|..] == b;
    }
    if At(p, at, a) && At(p, k, b) {
      assert p[at..n] == p[at..k] + p[k..n];
    }
  }

  lemma AtU16(p: Bytes, at: nat, n: nat)
    requires n < 0x1_0000
    ensures At(p, at, PutU16(n)) <==> U16At(p, at) == Some(n)
  {
    PutU16Exact(n);
    if at + 2 <= |p| {
      assert p[at..at + 2] == [p[at], p[at + 1]];
      U16Split(p[at], p[at + 1]);
    }
  }

  lemma U16Split(hi: Byte, lo: Byte)
    ensures PutU16(U16(hi, lo)) == [hi, lo] && U16(hi, lo) < 0x1_0000
  {
    BytesShift(lo, hi);
    assert lo + 256 * hi == U16(hi, lo);
  }

  lemma AtBody(p: Bytes, e: nat, r: Resource)
    requires Fits(r)
    ensures At(p, e, Body(r))
       <==> && U16At(p, e) == Some(r.code) && At(p, e + 2, r.kind) && At(p, e + 4, r.ttl)
            && U16At(p, e + 8) == Some(|r.data|) && At(p, e + 10, r.data)
  {
    var a, b := PutU16(r.code), PutU16(|r.data|);
    AtParts(p, e, a + r.kind + r.ttl + b, r.data);
    AtParts(p, e, a + r.kind + r.ttl, b);
    AtParts(p, e, a + r.kind, r.ttl);
    AtParts(p, e, a, r.kind);
    AtU16(p, e, r.code);
    AtU16(p, e + 8, |r.data|);
  }

  /** Some name lies at an offset, the rest of the record behind it. */
  predicate RecordIn(p: Bytes, at: nat, r: Resource) {
    Fits(r) && NameAt(p, at, 0).Some? && At(p, NameAt(p, at, 0).value.end, Body(r))
  }

  function EndOfRecord(p: Bytes, at: nat, r: Resource): nat
    requires RecordIn(p, at, r)
  {
    NameAt(p, at, 0).value.end + 10 + |r.data|
  }

  /** The records lie one behind the other. */
  predicate RecordsIn(p: Bytes, at: nat, rs: seq<Resource>, end: nat)
    decreases |rs|
  {
    if rs == [] then at == end
    else RecordIn(p, at, rs[0]) && RecordsIn(p, EndOfRecord(p, at, rs[0]), rs[1..], end)
  }

  // ---- Which addresses they hold ----

  /** The record is the address record of this address. */
  predicate IsRecordOf(r: Resource, a: Address) {
    match a
    case Ipv4(octets) => r.code == 1 && |octets| == 4 && r.data == octets
    case Ipv6(octets) => r.code == 28 && |octets| == 16 && r.data == octets
  }

  /** The addresses are those of the address records among these, in order. */
  ghost predicate Hold(rs: seq<Resource>, addresses: seq<Address>)
    decreases |rs|
  {
    if rs == [] then addresses == []
    else if exists a :: IsRecordOf(rs[0], a) then
      addresses != [] && IsRecordOf(rs[0], addresses[0]) && Hold(rs[1..], addresses[1..])
    else Hold(rs[1..], addresses)
  }

  lemma HoldOne(r: Resource, rest: seq<Resource>, addresses: seq<Address>)
    ensures AddressIn(r.code, r.data) <= addresses && Hold(rest, addresses[|AddressIn(r.code, r.data)|..])
       <==> Hold([r] + rest, addresses)
  {
    assert ([r] + rest)[1..] == rest && ([r] + rest)[0] == r;
    assert addresses[0..] == addresses;
    OwnAddress(r);
    if own :| IsRecordOf(r, own) {
      assert AddressIn(r.code, r.data) == [own];
      if addresses != [] && IsRecordOf(r, addresses[0]) {
        assert addresses[0] == own;
        assert [own] <= addresses;
      }
    }
  }

  lemma OwnAddress(r: Resource)
    ensures forall a :: IsRecordOf(r, a) ==> AddressIn(r.code, r.data) == [a]
    ensures (forall a :: !IsRecordOf(r, a)) ==> AddressIn(r.code, r.data) == []
  {
    if r.code == 1 && |r.data| == 4 {
      assert IsRecordOf(r, Ipv4(r.data));
    } else if r.code == 28 && |r.data| == 16 {
      assert IsRecordOf(r, Ipv6(r.data));
    }
  }

  // ---- The sniffer reads exactly the records that are there ----

  lemma RecordIsRead(p: Bytes, at: nat, r: Resource)
    requires RecordIn(p, at, r)
    ensures AnswerAt(p, at) == Some((AddressIn(r.code, r.data), EndOfRecord(p, at, r)))
  {
    AtBody(p, NameAt(p, at, 0).value.end, r);
  }

  lemma ReadIsRecord(p: Bytes, at: nat) returns (r: Resource)
    requires AnswerAt(p, at).Some?
    ensures RecordIn(p, at, r)
  {
    var e := NameAt(p, at, 0).value.end;
    var stop := e + 10 + U16At(p, e + 8).value;
    r := Resource(U16At(p, e).value, p[e + 2..e + 4], p[e + 4..e + 8], p[e + 10..stop]);
    U16Split(p[e], p[e + 1]);
    U16Split(p[e + 8], p[e + 9]);
    AtBody(p, e, r);
  }

  lemma {:induction false} RecordsAreRead(p: Bytes, at: nat, rs: seq<Resource>, end: nat, addresses: seq<Address>)
    requires RecordsIn(p, at, rs, end) && Hold(rs, addresses)
    ensures AnswersAt(p, |rs|, at) == Some(addresses)
    decreases |rs|
  {
    if rs != [] {
      var r, rest := rs[0], rs[1..];
      assert [r] + rest == rs;
      RecordIsRead(p, at, r);
      HoldOne(r, rest, addresses);
      var own := AddressIn(r.code, r.data);
      RecordsAreRead(p, EndOfRecord(p, at, r), rest, end, addresses[|own|..]);
      assert own + addresses[|own|..] == addresses;
    }
  }

  lemma {:induction false} ReadAreRecords(p: Bytes, n: nat, at: nat) returns (rs: seq<Resource>, end: nat)
    requires AnswersAt(p, n, at).Some?
    ensures |rs| == n && RecordsIn(p, at, rs, end) && Hold(rs, AnswersAt(p, n, at).value)
    decreases n
  {
    if n == 0 {
      return [], at;
    }
    var r := ReadIsRecord(p, at);
    RecordIsRead(p, at, r);
    var rest;
    rest, end := ReadAreRecords(p, n - 1, EndOfRecord(p, at, r));
    rs := [r] + rest;
    assert rs[1..] == rest;
    var own, all := AddressIn(r.code, r.data), AnswersAt(p, n, at).value;
    assert all[|own|..] == AnswersAt(p, n - 1, EndOfRecord(p, at, r)).value;
    HoldOne(r, rest, all);
  }

  /** That many records lie one behind the other, and these are their addresses. */
  ghost predicate LaidOut(p: Bytes, n: nat, at: nat, rs: seq<Resource>, end: nat, addresses: seq<Address>) {
    |rs| == n && RecordsIn(p, at, rs, end) && Hold(rs, addresses)
  }

  /**
    The answers of a response are read if and only if as many records as announced lie one behind the
    other, whatever their names look like; and what is read is the four bytes of each A record and the
    sixteen of each AAAA record, in order.
  */
  lemma AnswersIff(p: Bytes, n: nat, at: nat, addresses: seq<Address>)
    ensures AnswersAt(p, n, at) == Some(addresses)
       <==> exists rs: seq<Resource>, end: nat :: LaidOut(p, n, at, rs, end, addresses)
  {
    if AnswersAt(p, n, at) == Some(addresses) {
      var rs, end := ReadAreRecords(p, n, at);
      assert LaidOut(p, n, at, rs, end, addresses);
    }
    if rs: seq<Resource>, end: nat :| LaidOut(p, n, at, rs, end, addresses) {
      RecordsAreRead(p, at, rs, end, addresses);
    }
  }

  /** The data length of the record at an offset runs past the packet. */
  predicate Overruns(p: Bytes, at: nat) {
    && NameAt(p, at, 0).Some?
    && var length := U16At(p, NameAt(p, at, 0).value.end + 8);
       length.Some? && NameAt(p, at, 0).value.end + 10 + length.value > |p|
  }

  lemma OverrunIsNotRead(p: Bytes, at: nat)
    requires Overruns(p, at)
    ensures AnswerAt(p, at) == None
  {
  }

  lemma NothingBehind(p: Bytes, n: nat, at: nat, r: Resource)
    requires RecordIn(p, at, r) && n > 0 && AnswersAt(p, n - 1, EndOfRecord(p, at, r)) == None
    ensures AnswersAt(p, n, at) == None
  {
    RecordIsRead(p, at, r);
  }

  /** One record too long for the packet, behind any number of whole ones, and nothing is read. */
  lemma {:induction false} OverrunFails(p: Bytes, n: nat, at: nat, rs: seq<Resource>, end: nat)
    requires RecordsIn(p, at, rs, end) && |rs| < n && Overruns(p, end)
    ensures AnswersAt(p, n, at) == None
    decreases |rs|
  {
    if rs == [] {
      OverrunIsNotRead(p, at);
    } else {
      OverrunFails(p, n - 1, EndOfRecord(p, at, rs[0]), rs[1..], end);
      NothingBehind(p, n, at, rs[0]);
    }
  }

  /** Such a response is not read at all. */
  lemma OverrunIsUnreadable(p: Bytes, n: nat, questions: Questions, rs: seq<Resource>, end: nat)
    requires U16At(p, 4).Some? && QuestionsAt(p, U16At(p, 4).value, HEADER) == Some(questions) && U16At(p, 6) == Some(n)
    requires RecordsIn(p, questions.end, rs, end) && |rs| < n && Overruns(p, end)
    ensures SniffResponse(p) == None
  {
    OverrunFails(p, n, questions.end, rs, end);
  }

  // ---- Encoding a response ----

  predicate Spellable(labels: seq<Bytes>) {
    forall k :: 0 <= k < |labels| ==> Writable(labels[k]) && Utf8(labels[k])
  }

  datatype Asked = Asked(labels: seq<Bytes>, code: nat, kind: Bytes)

  /** A name spelled out, or a pointer to the name of the first question. */
  datatype Owner = Spelled(labels: seq<Bytes>) | FirstName

  datatype Answer = Answer(owner: Owner, resource: Resource)

  predicate Askable(q: Asked) {
    Spellable(q.labels) && q.code < 0x1_0000 && |q.kind| == 2
  }

  predicate Answerable(a: Answer) {
    (a.owner.Spelled? ==> Spellable(a.owner.labels)) && Fits(a.resource)
  }

  function NameBytes(labels: seq<Bytes>): Bytes
    requires Spellable(labels)
  {
    WriteLabels(labels) + [0]
  }

  function OwnerBytes(o: Owner): Bytes
    requires o.Spelled? ==> Spellable(o.labels)
  {
    match o
    case Spelled(labels) => NameBytes(labels)
    case FirstName => [0xc0, HEADER]
  }

  function AskedBytes(q: Asked): Bytes
    requires Askable(q)
  {
    NameBytes(q.labels) + (PutU16(q.code) + q.kind)
  }

  function AllAsked(qs: seq<Asked>): Bytes
    requires forall k :: 0 <= k < |qs| ==> Askable(qs[k])
  {
    if qs == [] then [] else AskedBytes(qs[0]) + AllAsked(qs[1..])
  }

  function AllAnswers(list: seq<Answer>): Bytes
    requires forall k :: 0 <= k < |list| ==> Answerable(list[k])
  {
    if list == [] then [] else AnswerBytes(list[0]) + AllAnswers(list[1..])
  }

  function AnswerBytes(a: Answer): Bytes
    requires Answerable(a)
  {
    OwnerBytes(a.owner) + Body(a.resource)
  }

  function ResourcesOf(list: seq<Answer>): (rs: seq<Resource>)
    ensures |rs| == |list| && forall k :: 0 <= k < |rs| ==> rs[k] == list[k].resource
  {
    seq(|list|, k requires 0 <= k < |list| => list[k].resource)
  }

  /** Identifier, flags, the four counts, questions, answers, and whatever follows. */
  ghost predicate IsResponse(p: Bytes, id: nat, qs: seq<Asked>, list: seq<Answer>) {
    && (forall k :: 0 <= k < |qs| ==> Askable(qs[k])) && (forall k :: 0 <= k < |list| ==> Answerable(list[k]))
    && id < 0x1_0000 && |qs| < 0x1_0000 && |list| < 0x1_0000
    && At(p, 0, PutU16(id)) && At(p, 4, PutU16(|qs|)) && At(p, 6, PutU16(|list|))
    && At(p, HEADER, AllAsked(qs) + AllAnswers(list))
  }

  lemma SpelledIsRead(p: Bytes, at: nat, labels: seq<Bytes>, jumps: nat)
    requires Spellable(labels) && At(p, at, NameBytes(labels)) && jumps <= MAX_JUMPS
    ensures NameAt(p, at, jumps) == Some(Name(LowerAll(labels), at + |NameBytes(labels)|))
  {
    var w := WriteLabels(labels);
    SpelledIsWritten(p, at, labels, w);
    ReadsWhatWasWritten(p, at, labels, jumps, at + |w|);
  }

  lemma SpelledIsWritten(p: Bytes, at: nat, labels: seq<Bytes>, w: Bytes)
    requires Spellable(labels) && w == WriteLabels(labels) && At(p, at, w + [0])
    ensures Written(p, at, labels, at + |w|)
  {
    AtParts(p, at, w, [0]);
    ZeroBehind(p, at + |w|);
    WriteLabelsWrites(p, at, labels, w);
  }

  lemma ZeroBehind(p: Bytes, at: nat)
    requires At(p, at, [0])
    ensures at < |p| && p[at] == 0
  {
    assert p[at..at + 1][0] == p[at];
  }

  /** The first question's name, when there is one, for the pointers to it. */
  ghost predicate FirstNameIn(p: Bytes) {
    NameAt(p, HEADER, 1).Some?
  }

  lemma OwnerIsRead(p: Bytes, at: nat, o: Owner)
    requires (o.Spelled? ==> Spellable(o.labels)) && At(p, at, OwnerBytes(o)) && (o.FirstName? ==> FirstNameIn(p))
    ensures NameAt(p, at, 0).Some? && NameAt(p, at, 0).value.end == at + |OwnerBytes(o)|
  {
    match o
    case Spelled(labels) => SpelledIsRead(p, at, labels, 0);
    case FirstName =>
      assert p[at] == p[at..at + 2][0] && p[at + 1] == p[at..at + 2][1];
      assert StepAt(p, at, 0) == Jump(HEADER);
  }

  /** A pointer to the first name is only used when there is one. */
  ghost predicate OwnersFine(p: Bytes, list: seq<Answer>) {
    forall a :: a in list && a.owner.FirstName? ==> FirstNameIn(p)
  }

  lemma AnswerIsRecord(p: Bytes, at: nat, a: Answer)
    requires Answerable(a) && At(p, at, AnswerBytes(a)) && (a.owner.FirstName? ==> FirstNameIn(p))
    ensures RecordIn(p, at, a.resource) && EndOfRecord(p, at, a.resource) == at + |AnswerBytes(a)|
  {
    AtParts(p, at, OwnerBytes(a.owner), Body(a.resource));
    OwnerIsRead(p, at, a.owner);
  }

  /** The answers lie one behind the other. */
  predicate AnswersIn(p: Bytes, at: nat, list: seq<Answer>, end: nat)
    decreases |list|
  {
    if list == [] then at == end
    else Answerable(list[0]) && At(p, at, AnswerBytes(list[0])) && AnswersIn(p, at + |AnswerBytes(list[0])|, list[1..], end)
  }

  lemma {:induction false} AllAnswersAreIn(p: Bytes, at: nat, list: seq<Answer>, bytes: Bytes)
    requires (forall k :: 0 <= k < |list| ==> Answerable(list[k])) && bytes == AllAnswers(list) && At(p, at, bytes)
    ensures AnswersIn(p, at, list, at + |bytes|)
    decreases |list|
  {
    if list != [] {
      var own, more := AnswerBytes(list[0]), AllAnswers(list[1..]);
      AtParts(p, at, own, more);
      AllAnswersAreIn(p, at + |own|, list[1..], more);
    }
  }

  lemma {:induction false} AnswersAreRecords(p: Bytes, at: nat, list: seq<Answer>, end: nat)
    requires AnswersIn(p, at, list, end) && OwnersFine(p, list)
    ensures RecordsIn(p, at, ResourcesOf(list), end)
    decreases |list|
  {
    if list != [] {
      var next := at + |AnswerBytes(list[0])|;
      assert forall x :: x in list[1..] ==> x in list;
      AnswersAreRecords(p, next, list[1..], end);
      AnswerIsRecord(p, at, list[0]);
      assert ResourcesOf(list)[1..] == ResourcesOf(list[1..]);
      OneMoreRecord(p, at, ResourcesOf(list), next, end);
    }
  }

  lemma OneMoreRecord(p: Bytes, at: nat, rs: seq<Resource>, next: nat, end: nat)
    requires rs != [] && RecordIn(p, at, rs[0]) && EndOfRecord(p, at, rs[0]) == next && RecordsIn(p, next, rs[1..], end)
    ensures RecordsIn(p, at, rs, end)
  {
  }

  /** The question as the sniffer reports it. */
  function AskedAs(q: Asked): Question {
    Question(Join(LowerAll(q.labels)), QueryTypeOf(q.code))
  }

  lemma QuestionByParts(p: Bytes, at: nat, labels: seq<Bytes>, end: nat, code: nat)
    requires NameAt(p, at, 0) == Some(Name(labels, end)) && U16At(p, end) == Some(code)
    ensures QuestionAt(p, at) == Some((Question(Join(labels), QueryTypeOf(code)), end + 4))
  {
  }

  lemma AskedIsRead(p: Bytes, at: nat, q: Asked, bytes: Bytes, next: nat)
    requires IsAsked(q, bytes) && At(p, at, bytes) && next == at + |bytes|
    ensures QuestionAt(p, at) == Some((AskedAs(q), next))
  {
    var w := NameBytes(q.labels);
    AskedParts(p, at, q, w);
    SpelledIsRead(p, at, q.labels, 0);
    QuestionByParts(p, at, LowerAll(q.labels), at + |w|, q.code);
  }

  lemma AskedParts(p: Bytes, at: nat, q: Asked, w: Bytes)
    requires Askable(q) && At(p, at, AskedBytes(q)) && w == NameBytes(q.labels)
    ensures At(p, at, w) && U16At(p, at + |w|) == Some(q.code) && |AskedBytes(q)| == |w| + 4
  {
    AtParts(p, at, w, PutU16(q.code) + q.kind);
    AtParts(p, at + |w|, PutU16(q.code), q.kind);
    AtU16(p, at + |w|, q.code);
  }

  function QuestionsOf(qs: seq<Asked>): (r: seq<Question>)
    ensures |r| == |qs| && forall k :: 0 <= k < |qs| ==> r[k] == AskedAs(qs[k])
  {
    seq(|qs|, k requires 0 <= k < |qs| => AskedAs(qs[k]))
  }

  ghost predicate IsAsked(q: Asked, bytes: Bytes) {
    Askable(q) && bytes == AskedBytes(q)
  }

  /** The question lies between two offsets. */
  ghost predicate AskedAt(p: Bytes, at: nat, q: Asked, next: nat) {
    Askable(q) && forall b: Bytes {:trigger IsAsked(q, b)} :: IsAsked(q, b) ==> At(p, at, b) && next == at + |b|
  }

  /** The questions lie between these offsets. */
  ghost predicate AskedIn(p: Bytes, qs: seq<Asked>, offsets: seq<nat>) {
    |offsets| == |qs| + 1 && forall i :: 0 <= i < |qs| ==> AskedAt(p, offsets[i], qs[i], offsets[i + 1])
  }

  lemma {:induction false} AllAskedIsIn(p: Bytes, at: nat, qs: seq<Asked>, bytes: Bytes) returns (offsets: seq<nat>)
    requires (forall k :: 0 <= k < |qs| ==> Askable(qs[k])) && bytes == AllAsked(qs) && At(p, at, bytes)
    ensures AskedIn(p, qs, offsets) && offsets[0] == at && offsets[|qs|] == at + |bytes|
    decreases |qs|
  {
    if qs == [] {
      return [at];
    }
    var own, more := AskedBytes(qs[0]), AllAsked(qs[1..]);
    AtParts(p, at, own, more);
    var rest := AllAskedIsIn(p, at + |own|, qs[1..], more);
    offsets := [at] + rest;
    assert AskedAt(p, at, qs[0], rest[0]);
    OneMoreIn(p, at, qs, rest);
  }

  lemma OneMoreIn(p: Bytes, at: nat, qs: seq<Asked>, rest: seq<nat>)
    requires qs != [] && AskedIn(p, qs[1..], rest) && AskedAt(p, at, qs[0], rest[0])
    ensures AskedIn(p, qs, [at] + rest)
  {
    var offsets := [at] + rest;
    forall i | 0 <= i < |qs|
      ensures AskedAt(p, offsets[i], qs[i], offsets[i + 1])
    {
      assert i > 0 ==> qs[i] == qs[1..][i - 1] && offsets[i] == rest[i - 1];
    }
  }

  lemma QuestionsAreRead(p: Bytes, at: nat, qs: seq<Asked>, bytes: Bytes)
    requires (forall k :: 0 <= k < |qs| ==> Askable(qs[k])) && bytes == AllAsked(qs) && At(p, at, bytes)
    ensures QuestionsAt(p, |qs|, at) == Some(Questions(QuestionsOf(qs), at + |bytes|))
  {
    var offsets := AllAskedIsIn(p, at, qs, bytes);
    AskedAreRead(p, qs, offsets, 0);
    assert qs[0..] == qs;
  }

  lemma {:induction false} AskedAreRead(p: Bytes, qs: seq<Asked>, offsets: seq<nat>, i: nat)
    requires AskedIn(p, qs, offsets) && i <= |qs|
    ensures QuestionsAt(p, |qs| - i, offsets[i]) == Some(Questions(QuestionsOf(qs[i..]), offsets[|qs|]))
    decreases |qs| - i
  {
    if i < |qs| {
      AskedAreRead(p, qs, offsets, i + 1);
      OneMoreAsked(p, offsets[i], |qs| - i - 1, qs[i], offsets[i + 1], Questions(QuestionsOf(qs[i + 1..]), offsets[|qs|]));
      assert qs[i..][1..] == qs[i + 1..];
      QuestionsOfParts(qs[i..]);
    } else {
      assert QuestionsOf(qs[i..]) == [];
    }
  }

  lemma OneMoreAsked(p: Bytes, at: nat, n: nat, q: Asked, next: nat, rest: Questions)
    requires AskedAt(p, at, q, next) && QuestionsAt(p, n, next) == Some(rest)
    ensures QuestionsAt(p, n + 1, at) == Some(Questions([AskedAs(q)] + rest.list, rest.end))
  {
    AskedAtIsRead(p, at, q, next);
    OneMoreQuestion(p, n, at, AskedAs(q), next, rest);
  }

  lemma AskedAtIsRead(p: Bytes, at: nat, q: Asked, next: nat)
    requires AskedAt(p, at, q, next)
    ensures QuestionAt(p, at) == Some((AskedAs(q), next))
  {
    var bytes := AskedBytes(q);
    assert IsAsked(q, bytes);
    AskedIsRead(p, at, q, bytes, next);
  }

  lemma QuestionsOfParts(qs: seq<Asked>)
    requires qs != []
    ensures QuestionsOf(qs) == [AskedAs(qs[0])] + QuestionsOf(qs[1..])
  {
  }

  lemma OneMoreQuestion(p: Bytes, n: nat, at: nat, q: Question, next: nat, rest: Questions)
    requires QuestionAt(p, at) == Some((q, next)) && QuestionsAt(p, n, next) == Some(rest)
    ensures QuestionsAt(p, n + 1, at) == Some(Questions([q] + rest.list, rest.end))
  {
  }

  lemma FirstNameIsThere(p: Bytes, qs: seq<Asked>)
    requires qs != [] && (forall k :: 0 <= k < |qs| ==> Askable(qs[k])) && At(p, HEADER, AllAsked(qs))
    ensures FirstNameIn(p)
  {
    AtParts(p, HEADER, AskedBytes(qs[0]), AllAsked(qs[1..]));
    AtParts(p, HEADER, NameBytes(qs[0].labels), PutU16(qs[0].code) + qs[0].kind);
    SpelledIsRead(p, HEADER, qs[0].labels, 1);
  }

  lemma HeaderIsRead(p: Bytes, id: nat, qs: seq<Asked>, list: seq<Answer>)
    requires IsResponse(p, id, qs, list)
    ensures U16At(p, 0) == Some(id) && U16At(p, 4) == Some(|qs|) && U16At(p, 6) == Some(|list|)
    ensures At(p, HEADER, AllAsked(qs)) && At(p, HEADER + |AllAsked(qs)|, AllAnswers(list))
  {
    AtParts(p, HEADER, AllAsked(qs), AllAnswers(list));
    AtU16(p, 0, id);
    AtU16(p, 4, |qs|);
    AtU16(p, 6, |list|);
  }

  lemma SniffByParts(p: Bytes, id: nat, n: nat, m: nat, questions: Questions, addresses: seq<Address>)
    requires U16At(p, 0) == Some(id) && U16At(p, 4) == Some(n) && U16At(p, 6) == Some(m)
    requires QuestionsAt(p, n, HEADER) == Some(questions) && AnswersAt(p, m, questions.end) == Some(addresses)
    ensures SniffResponse(p) == Some(ResponseInfo(id, if questions.list == [] then None else Some(questions.list[0]), addresses))
  {
  }

  lemma OwnersAreFine(p: Bytes, qs: seq<Asked>, list: seq<Answer>)
    requires (forall k :: 0 <= k < |qs| ==> Askable(qs[k])) && At(p, HEADER, AllAsked(qs))
    requires (exists a :: a in list && a.owner.FirstName?) ==> qs != []
    ensures OwnersFine(p, list)
  {
    if qs != [] {
      FirstNameIsThere(p, qs);
    }
  }

  lemma AnswersAreRead(p: Bytes, at: nat, list: seq<Answer>, bytes: Bytes, addresses: seq<Address>)
    requires (forall k :: 0 <= k < |list| ==> Answerable(list[k])) && OwnersFine(p, list)
    requires bytes == AllAnswers(list) && At(p, at, bytes) && Hold(ResourcesOf(list), addresses)
    ensures AnswersAt(p, |list|, at) == Some(addresses)
  {
    AllAnswersAreIn(p, at, list, bytes);
    AnswersAreRecords(p, at, list, at + |bytes|);
    RecordsAreRead(p, at, ResourcesOf(list), at + |bytes|, addresses);
  }

  /**
    The response sniffer reads an encoded response back: its identifier, its first question with the
    name lower-cased, and the addresses of its A and AAAA records in order; nothing for other records,
    and nothing that follows the answers matters.
  */
  lemma SniffEncodedResponse(p: Bytes, id: nat, qs: seq<Asked>, list: seq<Answer>, addresses: seq<Address>)
    requires IsResponse(p, id, qs, list) && Hold(ResourcesOf(list), addresses)
    requires (exists a :: a in list && a.owner.FirstName?) ==> qs != []
    ensures SniffResponse(p) == Some(ResponseInfo(id, if qs == [] then None else Some(AskedAs(qs[0])), addresses))
  {
    var end := HEADER + |AllAsked(qs)|;
    HeaderIsRead(p, id, qs, list);
    BodyIsRead(p, qs, list, addresses, end);
    SniffByParts(p, id, |qs|, |list|, Questions(QuestionsOf(qs), end), addresses);
  }

  lemma BodyIsRead(p: Bytes, qs: seq<Asked>, list: seq<Answer>, addresses: seq<Address>, end: nat)
    requires (forall k :: 0 <= k < |qs| ==> Askable(qs[k])) && (forall k :: 0 <= k < |list| ==> Answerable(list[k]))
    requires end == HEADER + |AllAsked(qs)| && At(p, HEADER, AllAsked(qs)) && At(p, end, AllAnswers(list))
    requires Hold(ResourcesOf(list), addresses) && ((exists a :: a in list && a.owner.FirstName?) ==> qs != [])
    ensures QuestionsAt(p, |qs|, HEADER) == Some(Questions(QuestionsOf(qs), end))
    ensures AnswersAt(p, |list|, end) == Some(addresses)
  {
    QuestionsAreRead(p, HEADER, qs, AllAsked(qs));
    OwnersAreFine(p, qs, list);
    AnswersAreRead(p, end, list, AllAnswers(list), addresses);
  }
}
