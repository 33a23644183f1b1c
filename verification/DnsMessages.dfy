/**
  DNS messages (crates/dynet-runtime/src/dns.rs): the A query the resolver builds, the sniffers that
  read queries and responses, and the filter that empties a denied AAAA response.
*/
module DnsMessages {
  import opened ByteStrings
  import opened DnsNames

  const HEADER := 12

  datatype QueryType = A | AAAA | CNAME | HTTPS | OtherType(code: nat)

  function QueryTypeOf(code: nat): QueryType {
    if code == 1 then A
    else if code == 28 then AAAA
    else if code == 5 then CNAME
    else if code == 65 then HTTPS
    else OtherType(code)
  }

  function U16At(p: Bytes, at: nat): Option<nat> {
    if at + 2 <= |p| then Some(U16(p[at], p[at + 1])) else None
  }

  // ---- Queries ----

  datatype QueryInfo = QueryInfo(id: nat, name: Bytes, kind: QueryType)

  function SniffQuery(p: Bytes): Option<QueryInfo> {
    if U16At(p, 0).None? || U16At(p, 4).None? || U16At(p, 4).value == 0 then None
    else match NameAt(p, HEADER, 0)
         case None => None
         case Some(n) =>
           match U16At(p, n.end)
           case None => None
           case Some(code) => Some(QueryInfo(U16At(p, 0).value, Join(n.labels), QueryTypeOf(code)))
  }

  function QueryHeader(id: nat): (h: Bytes)
    ensures |h| == HEADER
  {
    PutU16(id) + [1, 0, 0, 1, 0, 0, 0, 0, 0, 0]
  }

  predicate BuildableLabels(labels: seq<Bytes>) {
    forall k :: 0 <= k < |labels| ==> Writable(labels[k])
  }

  /** Whether a query can be built: something is left without trailing dots, and every label fits. */
  predicate Buildable(domain: Bytes) {
    TrimDots(domain) != [] && BuildableLabels(Split(TrimDots(domain)))
  }

  function QueryFor(id: nat, labels: seq<Bytes>): Bytes
    requires BuildableLabels(labels)
  {
    QueryHeader(id) + WriteLabels(labels) + [0, 0, 1, 0, 1]
  }

  lemma {:induction false} WriteLabelsSnoc(labels: seq<Bytes>, l: Bytes)
    requires BuildableLabels(labels) && Writable(l)
    ensures BuildableLabels(labels + [l]) && WriteLabels(labels + [l]) == WriteLabels(labels) + ([|l|] + l)
  {
    if labels == [] {
      assert labels + [l] == [l] && [l][1..] == [];
      assert WriteLabels([l]) == [|l|] + l;
    } else {
      assert BuildableLabels(labels[1..]);
      WriteLabelsSnoc(labels[1..], l);
      assert (labels + [l])[1..] == labels[1..] + [l];
      Assoc([|labels[0]|] + labels[0], WriteLabels(labels[1..]), [|l|] + l);
    }
  }

  /** `build_a_query`; the identifier comes from the clock. */
  method BuildAQuery(domain: Bytes, id: nat) returns (r: Option<Bytes>)
    requires id < 0x1_0000
    ensures r.Some? <==> Buildable(domain)
    ensures r.Some? ==> r.value == QueryFor(id, Split(TrimDots(domain)))
  {
    var trimmed := TrimDots(domain);
    if trimmed == [] {
      return None;
    }
    var labels := Split(trimmed);
    var query := QueryHeader(id);
    for k := 0 to |labels|
      invariant BuildableLabels(labels[..k]) && query == QueryHeader(id) + WriteLabels(labels[..k])
    {
      var l := labels[k];
      if l == [] || |l| > 63 {
        return None;
      }
      WriteLabelsSnoc(labels[..k], l);
      assert labels[..k + 1] == labels[..k] + [l];
      Assoc(QueryHeader(id), WriteLabels(labels[..k]), [|l|] + l);
      query := query + ([|l|] + l);
    }
    assert labels[..|labels|] == labels;
    return Some(query + [0, 0, 1, 0, 1]);
  }

  lemma QueryBytes(id: nat, labels: seq<Bytes>)
    requires BuildableLabels(labels) && id < 0x1_0000
    ensures var q, n := QueryFor(id, labels), |WriteLabels(labels)|;
            && |q| == HEADER + n + 5 && U16At(q, 0) == Some(id) && U16At(q, 4) == Some(1)
            && q[HEADER..HEADER + n] == WriteLabels(labels) && q[HEADER + n] == 0
            && U16At(q, HEADER + n + 1) == Some(1)
  {
    var h, w := QueryHeader(id), WriteLabels(labels);
    var q := h + w + [0, 0, 1, 0, 1];
    assert q[HEADER..HEADER + |w|] == w;
    assert q[0] == h[0] && q[1] == h[1] && q[4] == h[4] && q[5] == h[5];
    PutU16Exact(id);
  }

  lemma SniffWritten(q: Bytes, id: nat, labels: seq<Bytes>, end: nat)
    requires U16At(q, 0) == Some(id) && U16At(q, 4) == Some(1) && U16At(q, end + 1) == Some(1)
    requires Written(q, HEADER, labels, end) && forall k :: 0 <= k < |labels| ==> Utf8(labels[k])
    ensures SniffQuery(q) == Some(QueryInfo(id, Join(LowerAll(labels)), A))
  {
    ReadsWhatWasWritten(q, HEADER, labels, 0, end);
  }

  lemma DomainLabels(domain: Bytes)
    requires Utf8(domain)
    ensures var labels := Split(TrimDots(domain));
            Join(LowerAll(labels)) == Lower(TrimDots(domain)) && forall k :: 0 <= k < |labels| ==> Utf8(labels[k])
  {
    var trimmed := TrimDots(domain);
    TrimKeepsUtf8(domain);
    SplitKeepsUtf8(trimmed);
    JoinLower(Split(trimmed));
    JoinSplit(trimmed);
  }

  lemma BuiltIsWritten(labels: seq<Bytes>, id: nat, q: Bytes, end: nat)
    requires BuildableLabels(labels) && id < 0x1_0000
    requires q == QueryFor(id, labels) && end == HEADER + |WriteLabels(labels)|
    ensures Written(q, HEADER, labels, end)
    ensures U16At(q, 0) == Some(id) && U16At(q, 4) == Some(1) && U16At(q, end + 1) == Some(1)
  {
    QueryBytes(id, labels);
    WriteLabelsWrites(q, HEADER, labels, WriteLabels(labels));
  }

  lemma SniffBuiltLabels(labels: seq<Bytes>, id: nat, q: Bytes)
    requires BuildableLabels(labels) && id < 0x1_0000 && forall k :: 0 <= k < |labels| ==> Utf8(labels[k])
    requires q == QueryFor(id, labels)
    ensures SniffQuery(q) == Some(QueryInfo(id, Join(LowerAll(labels)), A))
  {
    var end := HEADER + |WriteLabels(labels)|;
    BuiltIsWritten(labels, id, q, end);
    SniffWritten(q, id, labels, end);
  }

  /** The sniffer reads a built query back: the domain without trailing dots, lower-cased, of type A. */
  lemma SniffBuiltQuery(domain: Bytes, id: nat)
    requires Utf8(domain) && Buildable(domain) && id < 0x1_0000
    ensures SniffQuery(QueryFor(id, Split(TrimDots(domain)))) == Some(QueryInfo(id, Lower(TrimDots(domain)), A))
  {
    DomainLabels(domain);
    SniffBuiltLabels(Split(TrimDots(domain)), id, QueryFor(id, Split(TrimDots(domain))));
  }

  /** `sniff_dns_query`. */
  method SniffDnsQuery(p: Bytes) returns (r: Option<QueryInfo>)
    ensures r == SniffQuery(p)
  {
    if |p| < 6 || U16(p[4], p[5]) == 0 {
      return None;
    }
    var name := ReadName(p, HEADER);
    if name.None? || U16At(p, name.value.end).None? {
      return None;
    }
    return Some(QueryInfo(U16(p[0], p[1]), Join(name.value.labels), QueryTypeOf(U16At(p, name.value.end).value)));
  }

  // ---- Responses ----

  datatype Question = Question(name: Bytes, kind: QueryType)

  datatype Questions = Questions(list: seq<Question>, end: nat)

  datatype Address = Ipv4(octets: Bytes) | Ipv6(octets: Bytes)

  datatype ResponseInfo = ResponseInfo(id: nat, question: Option<Question>, answers: seq<Address>)

  /** One question and the offset behind it, as the response sniffer reads it: the class may be cut off. */
  function QuestionAt(p: Bytes, at: nat): Option<(Question, nat)> {
    match NameAt(p, at, 0)
    case None => None
    case Some(name) =>
      match U16At(p, name.end)
      case None => None
      case Some(code) => Some((Question(Join(name.labels), QueryTypeOf(code)), name.end + 4))
  }

  function QuestionsAt(p: Bytes, n: nat, at: nat): Option<Questions>
    decreases n
  {
    if n == 0 then Some(Questions([], at))
    else match QuestionAt(p, at)
         case None => None
         case Some((question, next)) => AfterQuestions([question], QuestionsAt(p, n - 1, next))
  }

  /** Questions already read put before the rest. */
  function AfterQuestions(list: seq<Question>, rest: Option<Questions>): Option<Questions> {
    match rest
    case None => None
    case Some(qs) => Some(Questions(list + qs.list, qs.end))
  }

  /** The address in an answer's data, if its type and length say there is one. */
  function AddressIn(code: nat, data: Bytes): seq<Address> {
    if code == 1 && |data| == 4 then [Ipv4(data)]
    else if code == 28 && |data| == 16 then [Ipv6(data)]
    else []
  }

  /** One answer: its address if any, and the offset behind it. */
  function AnswerAt(p: Bytes, at: nat): Option<(seq<Address>, nat)> {
    match NameAt(p, at, 0)
    case None => None
    case Some(name) =>
      if U16At(p, name.end).None? || U16At(p, name.end + 8).None? then None
      else
        var start := name.end + 10;
        var stop := start + U16At(p, name.end + 8).value;
        if stop > |p| then None else Some((AddressIn(U16At(p, name.end).value, p[start..stop]), stop))
  }

  function AnswersAt(p: Bytes, n: nat, at: nat): Option<seq<Address>>
    decreases n
  {
    if n == 0 then Some([])
    else match AnswerAt(p, at)
         case None => None
         case Some((found, next)) => AfterAnswers(found, AnswersAt(p, n - 1, next))
  }

  function AfterAnswers(list: seq<Address>, rest: Option<seq<Address>>): Option<seq<Address>> {
    match rest
    case None => None
    case Some(addresses) => Some(list + addresses)
  }

  function SniffResponse(p: Bytes): Option<ResponseInfo> {
    if U16At(p, 0).None? || U16At(p, 4).None? || U16At(p, 6).None? then None
    else match QuestionsAt(p, U16At(p, 4).value, HEADER)
         case None => None
         case Some(qs) =>
           match AnswersAt(p, U16At(p, 6).value, qs.end)
           case None => None
           case Some(addresses) =>
             Some(ResponseInfo(U16At(p, 0).value, if qs.list == [] then None else Some(qs.list[0]), addresses))
  }

  lemma QuestionStep(list: seq<Question>, q: Question, rest: Option<Questions>)
    ensures AfterQuestions(list, AfterQuestions([q], rest)) == AfterQuestions(list + [q], rest)
  {
    if rest.Some? {
      Assoc(list, [q], rest.value.list);
    }
  }

  lemma AnswerStep(list: seq<Address>, found: seq<Address>, rest: Option<seq<Address>>)
    ensures AfterAnswers(list, AfterAnswers(found, rest)) == AfterAnswers(list + found, rest)
  {
    if rest.Some? {
      Assoc(list, found, rest.value);
    }
  }

  method SniffQuestion(p: Bytes, at: nat) returns (r: Option<(Question, nat)>)
    ensures r == QuestionAt(p, at)
  {
    var name := ReadName(p, at);
    if name.None? || U16At(p, name.value.end).None? {
      return None;
    }
    var code := U16At(p, name.value.end).value;
    return Some((Question(Join(name.value.labels), QueryTypeOf(code)), name.value.end + 4));
  }

  method SniffAnswer(p: Bytes, at: nat) returns (r: Option<(seq<Address>, nat)>)
    ensures r == AnswerAt(p, at)
  {
    var name := ReadName(p, at);
    if name.None? || U16At(p, name.value.end).None? || U16At(p, name.value.end + 8).None? {
      return None;
    }
    var start := name.value.end + 10;
    var stop := start + U16At(p, name.value.end + 8).value;
    if stop > |p| {
      return None;
    }
    return Some((AddressIn(U16At(p, name.value.end).value, p[start..stop]), stop));
  }

  /** The questions found and those still to be read make up the whole. */
  ghost predicate Asking(p: Bytes, n: nat, at: nat, found: seq<Question>, whole: Option<Questions>) {
    forall m: nat {:trigger QuestionsAt(p, m, at)} :: m == n ==> whole == AfterQuestions(found, QuestionsAt(p, m, at))
  }

  lemma AskingStarts(p: Bytes, n: nat, at: nat)
    ensures Asking(p, n, at, [], QuestionsAt(p, n, at))
  {
    var whole := QuestionsAt(p, n, at);
    assert whole.Some? ==> [] + whole.value.list == whole.value.list;
  }

  lemma AskingEnds(p: Bytes, at: nat, found: seq<Question>, whole: Option<Questions>)
    requires Asking(p, 0, at, found, whole)
    ensures whole == Some(Questions(found, at))
  {
    assert QuestionsAt(p, 0, at) == Some(Questions([], at));
    assert found + [] == found;
  }

  lemma AskingStep(p: Bytes, n: nat, at: nat, found: seq<Question>, whole: Option<Questions>, one: Option<(Question, nat)>)
    requires n > 0 && Asking(p, n, at, found, whole) && one == QuestionAt(p, at)
    ensures one.None? ==> whole == None
    ensures one.Some? ==> Asking(p, n - 1, one.value.1, found + [one.value.0], whole)
  {
    assert whole == AfterQuestions(found, QuestionsAt(p, n, at));
    if one.Some? {
      QuestionStep(found, one.value.0, QuestionsAt(p, n - 1, one.value.1));
    }
  }

  /** One turn of the question loop. */
  method NextQuestion(p: Bytes, at: nat, ghost n: nat, ghost found: seq<Question>, ghost whole: Option<Questions>)
    returns (r: Option<(Question, nat)>)
    requires n > 0 && Asking(p, n, at, found, whole)
    ensures r.None? ==> whole == None
    ensures r.Some? ==> Asking(p, n - 1, r.value.1, found + [r.value.0], whole)
  {
    r := SniffQuestion(p, at);
    AskingStep(p, n, at, found, whole, r);
  }

  /** The question loop of `sniff_dns_response`, which keeps only the first question. */
  method SniffQuestions(p: Bytes, count: nat) returns (ok: bool, first: Option<Question>, end: nat)
    ensures ok <==> QuestionsAt(p, count, HEADER).Some?
    ensures ok ==> var qs := QuestionsAt(p, count, HEADER).value;
                   end == qs.end && first == if qs.list == [] then None else Some(qs.list[0])
  {
    ghost var whole := QuestionsAt(p, count, HEADER);
    ghost var list: seq<Question> := [];
    end, first, ok := HEADER, None, true;
    AskingStarts(p, count, HEADER);
    for i := 0 to count
      invariant Asking(p, count - i, end, list, whole) && ok
      invariant |list| == i && first == if list == [] then None else Some(list[0])
    {
      var one := NextQuestion(p, end, count - i, list, whole);
      if one.None? {
        return false, None, end;
      }
      if i == 0 {
        first := Some(one.value.0);
      }
      list := list + [one.value.0];
      end := one.value.1;
    }
    AskingEnds(p, end, list, whole);
  }

  /** The answers found and those still to be read make up the whole. */
  ghost predicate Pending(p: Bytes, n: nat, at: nat, found: seq<Address>, whole: Option<seq<Address>>) {
    forall m: nat {:trigger AnswersAt(p, m, at)} :: m == n ==> whole == AfterAnswers(found, AnswersAt(p, m, at))
  }

  lemma PendingStarts(p: Bytes, n: nat, at: nat)
    ensures Pending(p, n, at, [], AnswersAt(p, n, at))
  {
    var whole := AnswersAt(p, n, at);
    assert whole.Some? ==> [] + whole.value == whole.value;
  }

  lemma PendingEnds(p: Bytes, at: nat, found: seq<Address>, whole: Option<seq<Address>>)
    requires Pending(p, 0, at, found, whole)
    ensures whole == Some(found)
  {
    assert AnswersAt(p, 0, at) == Some([]);
    assert found + [] == found;
  }

  lemma PendingStep(p: Bytes, n: nat, at: nat, found: seq<Address>, whole: Option<seq<Address>>,
                    one: Option<(seq<Address>, nat)>)
    requires n > 0 && Pending(p, n, at, found, whole) && one == AnswerAt(p, at)
    ensures one.None? ==> whole == None
    ensures one.Some? ==> Pending(p, n - 1, one.value.1, found + one.value.0, whole)
  {
    assert whole == AfterAnswers(found, AnswersAt(p, n, at));
    if one.Some? {
      AnswerStep(found, one.value.0, AnswersAt(p, n - 1, one.value.1));
    }
  }

  /** One turn of the answer loop. */
  method NextAnswer(p: Bytes, at: nat, found: seq<Address>, ghost n: nat, ghost whole: Option<seq<Address>>)
    returns (ok: bool, found': seq<Address>, next: nat)
    requires n > 0 && Pending(p, n, at, found, whole)
    ensures ok ==> Pending(p, n - 1, next, found', whole)
    ensures !ok ==> whole == None
  {
    var one := SniffAnswer(p, at);
    PendingStep(p, n, at, found, whole, one);
    if one.None? {
      return false, found, at;
    }
    return true, found + one.value.0, one.value.1;
  }

  /** The answer loop of `sniff_dns_response`. */
  method SniffAnswers(p: Bytes, count: nat, start: nat) returns (r: Option<seq<Address>>)
    ensures r == AnswersAt(p, count, start)
  {
    ghost var whole := AnswersAt(p, count, start);
    var addresses: seq<Address> := [];
    var offset: nat := start;
    PendingStarts(p, count, start);
    for i := 0 to count
      invariant Pending(p, count - i, offset, addresses, whole)
    {
      var ok;
      ok, addresses, offset := NextAnswer(p, offset, addresses, count - i, whole);
      if !ok {
        return None;
      }
    }
    PendingEnds(p, offset, addresses, whole);
    return Some(addresses);
  }

  /** `sniff_dns_response`. */
  method SniffDnsResponse(p: Bytes) returns (r: Option<ResponseInfo>)
    ensures r == SniffResponse(p)
  {
    if |p| < 8 {
      return None;
    }
    var ok, first, end := SniffQuestions(p, U16(p[4], p[5]));
    if !ok {
      return None;
    }
    var addresses := SniffAnswers(p, U16(p[6], p[7]), end);
    if addresses.None? {
      return None;
    }
    return Some(ResponseInfo(U16(p[0], p[1]), first, addresses.value));
  }

  // ---- The AAAA filter ----

  /** Where n questions end, each of them whole. */
  function EndOfQuestions(p: Bytes, n: nat, at: nat): (r: Option<nat>)
    ensures r.Some? ==> at <= r.value && (n > 0 ==> r.value <= |p|)
    decreases n
  {
    if n == 0 then Some(at)
    else match QuestionAt(p, at)
         case None => None
         case Some((_, next)) => if next > |p| then None else EndOfQuestions(p, n - 1, next)
  }

  function QuestionEnd(p: Bytes): (r: Option<nat>)
    ensures r.Some? ==> HEADER <= r.value && (r.value <= |p| || r.value == HEADER)
  {
    if U16At(p, 4).None? then None else EndOfQuestions(p, U16At(p, 4).value, HEADER)
  }

  /** One question skipped: its name must be readable and four more bytes must be there. */
  method SkipQuestion(p: Bytes, at: nat) returns (r: Option<nat>)
    ensures r.Some? <==> QuestionAt(p, at).Some? && QuestionAt(p, at).value.1 <= |p|
    ensures r.Some? ==> r.value == QuestionAt(p, at).value.1
  {
    var name := ReadName(p, at);
    if name.None? || name.value.end + 4 > |p| {
      return None;
    }
    return Some(name.value.end + 4);
  }

  /** `dns_question_end`. */
  method FindQuestionEnd(p: Bytes) returns (r: Option<nat>)
    ensures r == QuestionEnd(p)
  {
    if |p| < 6 {
      return None;
    }
    var count := U16(p[4], p[5]);
    var offset: nat := HEADER;
    for i := 0 to count
      invariant QuestionEnd(p) == EndOfQuestions(p, count - i, offset)
    {
      var next := SkipQuestion(p, offset);
      if next.None? {
        return None;
      }
      offset := next.value;
    }
    return Some(offset);
  }

  const NO_RECORDS: Bytes := [0, 0, 0, 0, 0, 0]

  /** The response with its record counts zeroed, cut behind the questions. */
  function Emptied(p: Bytes, end: nat): (r: Bytes)
    requires HEADER <= end <= |p|
    ensures |r| == end
    ensures forall i :: 0 <= i < 6 || HEADER <= i < end ==> r[i] == p[i]
    ensures forall i :: 6 <= i < HEADER ==> r[i] == 0
  {
    p[..6] + NO_RECORDS + p[HEADER..end]
  }

  datatype FilterOutcome = Filtered | Malformed | Panicked

  class Resolution {
    var response: Bytes
    var info: Option<ResponseInfo>
    var ipv6Filtered: bool
    var rule: Option<string>

    constructor (response: Bytes)
      ensures this.response == response && info == SniffResponse(response) && !ipv6Filtered && rule == None
    {
      this.response, info, ipv6Filtered, rule := response, SniffResponse(response), false, None;
    }

    /** `apply_ipv6_dns_filter`. Clearing the counts of a response without a whole header panics. */
    method ApplyIpv6Filter(ruleId: string) returns (r: FilterOutcome)
      modifies this
      ensures r.Malformed? <==> QuestionEnd(old(response)).None?
      ensures r.Panicked? <==> 6 <= |old(response)| < HEADER && U16(old(response)[4], old(response)[5]) == 0
      ensures r.Filtered? ==> |old(response)| >= HEADER && response == Emptied(old(response), QuestionEnd(old(response)).value)
                              && info == SniffResponse(response) && ipv6Filtered && rule == Some(ruleId)
      ensures !r.Filtered? ==> response == old(response) && info == old(info) && ipv6Filtered == old(ipv6Filtered)
                               && rule == old(rule)
    {
      var end := FindQuestionEnd(response);
      if end.None? {
        return Malformed;
      }
      if |response| < HEADER {
        return Panicked;
      }
      response := response[..6] + NO_RECORDS + response[HEADER..];
      response := response[..end.value];
      info := SniffDnsResponse(response);
      ipv6Filtered := true;
      rule := Some(ruleId);
      return Filtered;
    }
  }

  /** Whole questions are also questions to the response sniffer. */
  lemma {:induction false} WholeQuestionsAreSniffed(p: Bytes, n: nat, at: nat)
    requires EndOfQuestions(p, n, at).Some?
    ensures QuestionsAt(p, n, at).Some?
    ensures QuestionsAt(p, n, at).value.end == EndOfQuestions(p, n, at).value
    ensures |QuestionsAt(p, n, at).value.list| == n
  {
    if n > 0 {
      WholeQuestionsAreSniffed(p, n - 1, QuestionAt(p, at).value.1);
    }
  }

  /** The response with its record counts zeroed and nothing cut. */
  function Zeroed(p: Bytes): (z: Bytes)
    requires |p| >= HEADER
    ensures |z| == |p| && SameBehindHeader(p, z)
  {
    p[..6] + NO_RECORDS + p[HEADER..]
  }

  /** Every question name is readable, and all bytes it is read from lie before `end`. */
  predicate QuestionsInside(p: Bytes, n: nat, at: nat, end: nat)
    decreases n
  {
    n == 0 || (Inside(p, at, 0, end) && QuestionAt(p, at).Some? && QuestionsInside(p, n - 1, QuestionAt(p, at).value.1, end))
  }

  /** One question of a packet cut short, when the question itself lies before the cut. */
  lemma QuestionOfPrefix(p: Bytes, z: Bytes, q: Bytes, at: nat)
    requires SameBehindHeader(p, z) && q <= z && at >= HEADER
    requires QuestionAt(p, at).Some? && QuestionAt(p, at).value.1 <= |q|
    ensures if Inside(z, at, 0, |q|) then
              && QuestionAt(q, at) == QuestionAt(z, at) && QuestionAt(z, at).Some?
              && QuestionAt(z, at).value.1 == QuestionAt(p, at).value.1
            else QuestionAt(q, at) == None
  {
    NameOfPrefix(z, q, at, 0);
    QuestionHasName(p, at);
    if Inside(z, at, 0, |q|) {
      EndBehindHeader(p, z, at, 0);
      SameQuestion(z, q, at, NameAt(z, at, 0).value);
    }
  }

  lemma QuestionHasName(p: Bytes, at: nat)
    requires QuestionAt(p, at).Some?
    ensures NameAt(p, at, 0).Some? && QuestionAt(p, at).value.1 == NameAt(p, at, 0).value.end + 4
  {
  }

  lemma SameQuestion(z: Bytes, q: Bytes, at: nat, name: Name)
    requires q <= z && NameAt(q, at, 0) == NameAt(z, at, 0) == Some(name) && name.end + 4 <= |q|
    ensures QuestionAt(q, at) == QuestionAt(z, at) && QuestionAt(z, at).Some? && QuestionAt(z, at).value.1 == name.end + 4
  {
    assert U16At(q, name.end) == U16At(z, name.end);
  }

  /** The questions of a packet cut short, when the questions themselves lie before the cut. */
  lemma {:induction false} QuestionsOfPrefix(p: Bytes, z: Bytes, q: Bytes, n: nat, at: nat)
    requires SameBehindHeader(p, z) && q <= z && at >= HEADER
    requires EndOfQuestions(p, n, at).Some? && EndOfQuestions(p, n, at).value <= |q|
    ensures QuestionsAt(q, n, at) == if QuestionsInside(z, n, at, |q|) then QuestionsAt(z, n, at) else None
    ensures EndOfQuestions(q, n, at) == if QuestionsInside(z, n, at, |q|) then EndOfQuestions(p, n, at) else None
    ensures QuestionsInside(z, n, at, |q|) ==> QuestionsAt(z, n, at).Some?
    decreases n
  {
    if n > 0 {
      QuestionOfPrefix(p, z, q, at);
      QuestionsOfPrefix(p, z, q, n - 1, QuestionAt(p, at).value.1);
    }
  }

  /** None of the question names uses compression. */
  predicate PointerFreeQuestions(p: Bytes, n: nat, at: nat)
    decreases n
  {
    n == 0 || (PointerFree(p, at) && (QuestionAt(p, at).Some? ==> PointerFreeQuestions(p, n - 1, QuestionAt(p, at).value.1)))
  }

  lemma {:induction false} PointerFreeQuestionsAreSame(p: Bytes, z: Bytes, n: nat, at: nat, end: nat)
    requires SameBehindHeader(p, z) && PointerFreeQuestions(p, n, at) && at >= HEADER
    requires EndOfQuestions(p, n, at).Some? && EndOfQuestions(p, n, at).value <= end
    ensures QuestionsInside(z, n, at, end) && QuestionsAt(z, n, at) == QuestionsAt(p, n, at)
    decreases n
  {
    if n > 0 {
      PointerFreeQuestionIsSame(p, z, at, end);
      PointerFreeQuestionsAreSame(p, z, n - 1, QuestionAt(p, at).value.1, end);
    }
  }

  lemma PointerFreeQuestionIsSame(p: Bytes, z: Bytes, at: nat, end: nat)
    requires SameBehindHeader(p, z) && PointerFree(p, at) && at >= HEADER
    requires QuestionAt(p, at).Some? && QuestionAt(p, at).value.1 <= end
    ensures Inside(z, at, 0, end) && QuestionAt(z, at) == QuestionAt(p, at)
  {
    QuestionHasName(p, at);
    PointerFreeIsSame(p, z, at, 0);
    var name := NameAt(p, at, 0).value;
    InsideGrows(z, at, 0, name.end, end);
    QuestionByName(p, z, at, name);
  }

  lemma QuestionByName(p: Bytes, z: Bytes, at: nat, name: Name)
    requires SameBehindHeader(p, z) && NameAt(p, at, 0) == NameAt(z, at, 0) == Some(name) && name.end >= HEADER
    ensures QuestionAt(z, at) == QuestionAt(p, at)
  {
    assert U16At(z, name.end) == U16At(p, name.end);
  }

  /** What the filtered response is read as when its questions are those of the original. */
  function KeptInfo(p: Bytes, qs: Questions): ResponseInfo
    requires |p| >= HEADER
  {
    ResponseInfo(U16(p[0], p[1]), if qs.list == [] then None else Some(qs.list[0]), [])
  }

  lemma EmptiedReads(p: Bytes, end: nat, n: nat)
    requires HEADER <= end <= |p| && n == U16(p[4], p[5])
    ensures var r := Emptied(p, end);
            && r == Zeroed(p)[..end] && U16At(r, 4) == Some(n)
            && SniffResponse(r) == match QuestionsAt(r, n, HEADER)
                                   case None => None
                                   case Some(qs) => Some(KeptInfo(p, qs))
  {
  }

  /**
    What the filter leaves of any response it accepts. With the record counts zeroed, let every question
    name be read from bytes before the cut: then the identifier stays, the questions are those of the
    zeroed response, there are no answers, and a second filtering changes nothing. Otherwise the
    filtered response cannot be read, and a second filtering refuses it.
  */
  lemma FilteredReads(p: Bytes, n: nat, end: nat)
    requires |p| >= HEADER && QuestionEnd(p) == Some(end) && n == U16(p[4], p[5])
    ensures var r, z := Emptied(p, end), Zeroed(p);
            if QuestionsInside(z, n, HEADER, end) then
              && QuestionsAt(z, n, HEADER).Some? && QuestionsAt(r, n, HEADER) == QuestionsAt(z, n, HEADER)
              && SniffResponse(r) == Some(KeptInfo(p, QuestionsAt(z, n, HEADER).value))
              && QuestionEnd(r) == Some(end) && Emptied(r, end) == r
            else
              SniffResponse(r) == None && QuestionsAt(r, n, HEADER) == None && QuestionEnd(r) == None
  {
    EmptiedReads(p, end, n);
    QuestionsOfPrefix(p, Zeroed(p), Emptied(p, end), n, HEADER);
  }

  /** The filtered response can be read if and only if no question name, with the counts zeroed, looks behind the questions. */
  lemma FilteredIsReadableIff(p: Bytes, n: nat, end: nat)
    requires |p| >= HEADER && QuestionEnd(p) == Some(end) && n == U16(p[4], p[5])
    ensures SniffResponse(Emptied(p, end)).Some? <==> QuestionsInside(Zeroed(p), n, HEADER, end)
  {
    FilteredReads(p, n, end);
  }

  /** It holds the questions of the original if and only if, besides, zeroing the counts alone leaves them the same. */
  lemma FilterKeepsQuestionsIff(p: Bytes, n: nat, end: nat)
    requires |p| >= HEADER && QuestionEnd(p) == Some(end) && n == U16(p[4], p[5])
    ensures QuestionsAt(p, n, HEADER).Some? && |QuestionsAt(p, n, HEADER).value.list| == n
    ensures QuestionsAt(Emptied(p, end), n, HEADER) == QuestionsAt(p, n, HEADER)
       <==> QuestionsInside(Zeroed(p), n, HEADER, end) && QuestionsAt(Zeroed(p), n, HEADER) == QuestionsAt(p, n, HEADER)
  {
    FilteredReads(p, n, end);
    WholeQuestionsAreSniffed(p, n, HEADER);
  }

  /** In particular nothing is lost when no question name uses compression. */
  lemma FilterKeepsPointerFreeQuestions(p: Bytes, n: nat, end: nat)
    requires |p| >= HEADER && QuestionEnd(p) == Some(end) && n == U16(p[4], p[5]) && PointerFreeQuestions(p, n, HEADER)
    ensures var r, qs := Emptied(p, end), QuestionsAt(p, n, HEADER);
            && qs.Some? && SniffResponse(r) == Some(KeptInfo(p, qs.value))
            && QuestionEnd(r) == Some(end) && Emptied(r, end) == r
  {
    PointerFreeQuestionsAreSame(p, Zeroed(p), n, HEADER, end);
    FilteredReads(p, n, end);
  }

  /**
    A name that jumps into the record counts ends there once they are zero: a question whose name is
    such a pointer turns into a question for the root, with its type unchanged.
  */
  lemma CountPointerReadsRoot(p: Bytes, end: nat)
    requires |p| >= HEADER && QuestionEnd(p) == Some(end) && U16(p[4], p[5]) > 0
    requires IsPointer(p[HEADER]) && HEADER + 1 < |p| && 6 <= U16(p[HEADER] - 0xc0, p[HEADER + 1]) < HEADER
    ensures QuestionAt(p, HEADER).Some? && QuestionAt(Emptied(p, end), HEADER).Some?
    ensures QuestionAt(Emptied(p, end), HEADER).value == (Question([], QuestionAt(p, HEADER).value.0.kind), HEADER + 6)
  {
    var r, target := Emptied(p, end), U16(p[HEADER] - 0xc0, p[HEADER + 1]);
    FirstQuestionFits(p, end);
    assert StepAt(r, HEADER, 0) == StepAt(p, HEADER, 0) == Jump(target);
    assert NameAt(r, target, 1) == Some(Name([], target + 1));
    assert Continued([], Some(HEADER + 2), NameAt(r, target, 1)).value.labels == [];
    assert NameAt(r, HEADER, 0) == Some(Name([], HEADER + 2));
    assert U16At(r, HEADER + 2) == U16At(p, HEADER + 2);
  }

  lemma FirstQuestionFits(p: Bytes, end: nat)
    requires QuestionEnd(p) == Some(end) && |p| >= HEADER && U16(p[4], p[5]) > 0
    ensures QuestionAt(p, HEADER).Some? && NameAt(p, HEADER, 0).Some?
    ensures NameAt(p, HEADER, 0).value.end + 4 == QuestionAt(p, HEADER).value.1 <= end <= |p|
  {
  }
}
