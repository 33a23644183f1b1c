/**
  DNS names (crates/dynet-runtime/src/dns.rs): splitting a domain into labels and reading names off a
  packet, with compression pointers as in section 4.1.4 of RFC 1035.
*/
module DnsNames {
  import opened ByteStrings

  const DOT: Byte := 46

  // ---- UTF-8 ----

  predicate Continues(b: Byte) {
    0x80 <= b < 0xc0
  }

  /** The length of the well-formed UTF-8 character a string starts with, 0 if there is none. */
  function CharLen(s: Bytes): (w: nat)
    ensures w <= 4 && w <= |s|
  {
    if s == [] then 0
    else if s[0] < 0x80 then 1
    else if 0xc2 <= s[0] < 0xe0 then
      if |s| >= 2 && Continues(s[1]) then 2 else 0
    else if 0xe0 <= s[0] < 0xf0 then
      if |s| >= 3 && Continues(s[1]) && Continues(s[2])
         && (s[0] == 0xe0 ==> s[1] >= 0xa0) && (s[0] == 0xed ==> s[1] < 0xa0) then 3 else 0
    else if 0xf0 <= s[0] < 0xf5 then
      if |s| >= 4 && Continues(s[1]) && Continues(s[2]) && Continues(s[3])
         && (s[0] == 0xf0 ==> s[1] >= 0x90) && (s[0] == 0xf4 ==> s[1] < 0x90) then 4 else 0
    else 0
  }

  predicate Utf8(s: Bytes) {
    s == [] || (CharLen(s) > 0 && Utf8(s[CharLen(s)..]))
  }

  /** An ASCII byte in a UTF-8 string is a whole character: what stands before and after it is UTF-8 too. */
  lemma {:induction false} Utf8SplitsAtAscii(s: Bytes, i: nat)
    requires Utf8(s) && i < |s| && s[i] < 0x80
    ensures Utf8(s[..i]) && Utf8(s[i + 1..])
  {
    var w := CharLen(s);
    if i < w {
      assert i == 0 && w == 1;
    } else {
      Utf8SplitsAtAscii(s[w..], i - w);
      assert s[w..][i - w + 1..] == s[i + 1..];
      assert s[..i][w..] == s[w..][..i - w];
      assert CharLen(s[..i]) == w;
    }
  }

  // ---- Domains and labels ----

  function LowerByte(b: Byte): Byte {
    if 65 <= b <= 90 then b + 32 else b
  }

  function Lower(s: Bytes): (r: Bytes)
    ensures |r| == |s| && forall i :: 0 <= i < |s| ==> r[i] == LowerByte(s[i])
  {
    seq(|s|, i requires 0 <= i < |s| => LowerByte(s[i]))
  }

  /** The string without the dots it ends in. */
  function TrimDots(s: Bytes): Bytes {
    if s != [] && s[|s| - 1] == DOT then TrimDots(s[..|s| - 1]) else s
  }

  lemma {:induction false} TrimKeepsUtf8(s: Bytes)
    requires Utf8(s)
    ensures Utf8(TrimDots(s))
  {
    if s != [] && s[|s| - 1] == DOT {
      Utf8SplitsAtAscii(s, |s| - 1);
      TrimKeepsUtf8(s[..|s| - 1]);
    }
  }

  /** The position of the first dot, or the length. */
  function FirstDot(s: Bytes): (i: nat)
    ensures i <= |s| && (forall k :: 0 <= k < i ==> s[k] != DOT) && (i < |s| ==> s[i] == DOT)
  {
    if s == [] || s[0] == DOT then 0 else 1 + FirstDot(s[1..])
  }

  function Split(s: Bytes): (r: seq<Bytes>)
    ensures r != []
    decreases |s|
  {
    var i := FirstDot(s);
    if i == |s| then [s] else [s[..i]] + Split(s[i + 1..])
  }

  function Join(labels: seq<Bytes>): Bytes {
    if labels == [] then []
    else if |labels| == 1 then labels[0]
    else labels[0] + [DOT] + Join(labels[1..])
  }

  lemma {:induction false} JoinSplit(s: Bytes)
    ensures Join(Split(s)) == s
    decreases |s|
  {
    var i := FirstDot(s);
    if i < |s| {
      JoinSplit(s[i + 1..]);
      var rest := Split(s[i + 1..]);
      assert ([s[..i]] + rest)[1..] == rest;
      assert s == s[..i] + [s[i]] + s[i + 1..];
    }
  }

  function LowerAll(labels: seq<Bytes>): (r: seq<Bytes>)
    ensures |r| == |labels|
  {
    if labels == [] then [] else [Lower(labels[0])] + LowerAll(labels[1..])
  }

  lemma {:induction false} JoinLower(labels: seq<Bytes>)
    ensures Join(LowerAll(labels)) == Lower(Join(labels))
  {
    if |labels| == 1 {
      assert labels[1..] == [];
    } else if labels != [] {
      JoinLower(labels[1..]);
      assert LowerAll(labels)[1..] == LowerAll(labels[1..]);
    }
  }

  lemma {:induction false} SplitKeepsUtf8(s: Bytes)
    requires Utf8(s)
    ensures forall k :: 0 <= k < |Split(s)| ==> Utf8(Split(s)[k])
    decreases |s|
  {
    var i := FirstDot(s);
    if i < |s| {
      Utf8SplitsAtAscii(s, i);
      SplitKeepsUtf8(s[i + 1..]);
      var rest := Split(s[i + 1..]);
      forall k | 0 <= k < 1 + |rest|
        ensures Utf8(([s[..i]] + rest)[k])
      {
        assert k > 0 ==> ([s[..i]] + rest)[k] == rest[k - 1];
      }
    }
  }

  // ---- Reading ----

  const MAX_JUMPS := 8

  predicate IsPointer(b: Byte) {
    b >= 0xc0
  }

  /** What stands at one offset of a name. Every byte below 0xc0 counts as a length. */
  datatype Step = Stop | Label(l: Bytes, next: nat) | Jump(target: nat) | Broken

  function StepAt(p: Bytes, at: nat, jumps: nat): (r: Step)
    ensures !r.Broken? ==> at < |p|
    ensures r.Label? ==> at < r.next <= |p|
    ensures r.Jump? ==> at + 2 <= |p| && jumps < MAX_JUMPS
  {
    if at >= |p| then Broken
    else if IsPointer(p[at]) then
      if at + 1 >= |p| || jumps >= MAX_JUMPS then Broken else Jump(U16(p[at] - 0xc0, p[at + 1]))
    else if p[at] == 0 then Stop
    else
      var end := at + 1 + p[at];
      if end > |p| || !Utf8(p[at + 1..end]) then Broken else Label(Lower(p[at + 1..end]), end)
  }

  /** Labels still to come and the offset behind the name. */
  datatype Name = Name(labels: seq<Bytes>, end: nat)

  /** A name continued behind labels already read, ending where the first pointer said. */
  function Continued(labels: seq<Bytes>, next: Option<nat>, rest: Option<Name>): Option<Name> {
    match rest
    case None => None
    case Some(n) => Some(Name(labels + n.labels, if next.Some? then next.value else n.end))
  }

  /**
    The name at an offset, reached after some jumps. A pointer ends the name where it stands; what
    follows comes from its target.
  */
  function NameAt(p: Bytes, at: nat, jumps: nat): (r: Option<Name>)
    requires jumps <= MAX_JUMPS
    ensures r.Some? ==> at < r.value.end <= |p|
    decreases MAX_JUMPS - jumps, |p| - at
  {
    match StepAt(p, at, jumps)
    case Broken => None
    case Stop => Some(Name([], at + 1))
    case Label(l, next) => Continued([l], None, NameAt(p, next, jumps))
    case Jump(target) => Continued([], Some(at + 2), NameAt(p, target, jumps + 1))
  }

  lemma ContinuedByLabel(labels: seq<Bytes>, next: Option<nat>, l: Bytes, rest: Option<Name>)
    ensures Continued(labels, next, Continued([l], None, rest)) == Continued(labels + [l], next, rest)
  {
    if rest.Some? {
      Assoc(labels, [l], rest.value.labels);
    }
  }

  lemma ContinuedByPointer(labels: seq<Bytes>, next: Option<nat>, end: nat, rest: Option<Name>)
    ensures Continued(labels, next, Continued([], Some(end), rest))
         == Continued(labels, if next.Some? then next else Some(end), rest)
  {
    if rest.Some? {
      assert [] + rest.value.labels == rest.value.labels;
    }
  }

  /** One turn of the loop of `read_name`. */
  method ReadStep(p: Bytes, cursor: nat, jumps: nat) returns (r: Step)
    ensures r == StepAt(p, cursor, jumps)
  {
    if cursor >= |p| {
      return Broken;
    }
    var length := p[cursor];
    if IsPointer(length) {
      if cursor + 1 >= |p| || jumps + 1 > MAX_JUMPS {
        return Broken;
      }
      return Jump(U16(length - 0xc0, p[cursor + 1]));
    }
    if length == 0 {
      return Stop;
    }
    var start := cursor + 1;
    var end := start + length;
    if end > |p| || !Utf8(p[start..end]) {
      return Broken;
    }
    return Label(Lower(p[start..end]), end);
  }

  /** `read_name`: terminates on every packet, pointer loops included. */
  method ReadName(p: Bytes, offset: nat) returns (r: Option<Name>)
    ensures r == NameAt(p, offset, 0)
  {
    var labels: seq<Bytes> := [];
    var cursor: nat, jumps: nat := offset, 0;
    var next: Option<nat> := None;
    ghost var whole := NameAt(p, offset, 0);
    assert whole == Continued(labels, next, whole) by {
      assert whole.Some? ==> labels + whole.value.labels == whole.value.labels;
    }
    while true
      invariant jumps <= MAX_JUMPS
      invariant whole == Continued(labels, next, NameAt(p, cursor, jumps))
      decreases MAX_JUMPS - jumps, |p| - cursor
    {
      var step := ReadStep(p, cursor, jumps);
      match step {
        case Broken =>
          return None;
        case Stop =>
          assert labels + [] == labels;
          return Some(Name(labels, if next.Some? then next.value else cursor + 1));
        case Label(l, end) =>
          ContinuedByLabel(labels, next, l, NameAt(p, end, jumps));
          labels := labels + [l];
          cursor := end;
        case Jump(target) =>
          ContinuedByPointer(labels, next, cursor + 2, NameAt(p, target, jumps + 1));
          if next.None? {
            next := Some(cursor + 2);
          }
          cursor, jumps := target, jumps + 1;
      }
    }
  }

  // ---- Which bytes a name depends on ----

  /** Where the bytes of one step end. */
  function StepEnd(at: nat, s: Step): nat {
    match s
    case Stop => at + 1
    case Label(_, next) => next
    case Jump(_) => at + 2
    case Broken => at
  }

  /** The name is readable, and all bytes it is read from lie before `end`. */
  predicate Inside(p: Bytes, at: nat, jumps: nat, end: nat)
    requires jumps <= MAX_JUMPS
    decreases MAX_JUMPS - jumps, |p| - at
  {
    var s := StepAt(p, at, jumps);
    && !s.Broken? && StepEnd(at, s) <= end
    && (s.Label? ==> Inside(p, s.next, jumps, end))
    && (s.Jump? ==> Inside(p, s.target, jumps + 1, end))
  }

  lemma StepOfPrefix(p: Bytes, q: Bytes, at: nat, jumps: nat)
    requires q <= p
    ensures StepAt(q, at, jumps)
         == if !StepAt(p, at, jumps).Broken? && StepEnd(at, StepAt(p, at, jumps)) <= |q| then StepAt(p, at, jumps) else Broken
  {
    if at < |q| && at + 1 + q[at] <= |q| {
      assert p[at + 1..at + 1 + q[at]] == q[at + 1..at + 1 + q[at]];
    }
  }

  /** A packet cut short still holds exactly the names that are read from the bytes it kept. */
  lemma {:induction false} NameOfPrefix(p: Bytes, q: Bytes, at: nat, jumps: nat)
    requires q <= p && jumps <= MAX_JUMPS
    ensures NameAt(q, at, jumps) == if Inside(p, at, jumps, |q|) then NameAt(p, at, jumps) else None
    ensures Inside(p, at, jumps, |q|) ==> NameAt(p, at, jumps).Some?
    decreases MAX_JUMPS - jumps, |p| - at
  {
    StepOfPrefix(p, q, at, jumps);
    var s := StepAt(p, at, jumps);
    if s.Label? {
      NameOfPrefix(p, q, s.next, jumps);
    } else if s.Jump? {
      NameOfPrefix(p, q, s.target, jumps + 1);
    }
  }

  /** The packets differ at most in the header. */
  ghost predicate SameBehindHeader(p: Bytes, q: Bytes) {
    |p| == |q| && forall i :: 12 <= i < |p| ==> p[i] == q[i]
  }

  lemma StepBehindHeader(p: Bytes, q: Bytes, at: nat, jumps: nat)
    requires SameBehindHeader(p, q) && at >= 12
    ensures StepAt(q, at, jumps) == StepAt(p, at, jumps)
  {
    if at < |p| && at + 1 + p[at] <= |p| {
      assert p[at + 1..at + 1 + p[at]] == q[at + 1..at + 1 + p[at]];
    }
  }

  /** Whatever the header holds, a name behind it ends in the same place. */
  lemma {:induction false} EndBehindHeader(p: Bytes, q: Bytes, at: nat, jumps: nat)
    requires SameBehindHeader(p, q) && at >= 12 && jumps <= MAX_JUMPS
    requires NameAt(p, at, jumps).Some? && NameAt(q, at, jumps).Some?
    ensures NameAt(q, at, jumps).value.end == NameAt(p, at, jumps).value.end
    decreases |p| - at
  {
    StepBehindHeader(p, q, at, jumps);
    if StepAt(p, at, jumps).Label? {
      EndBehindHeader(p, q, StepAt(p, at, jumps).next, jumps);
    }
  }

  /** The name at an offset uses no pointer. */
  predicate PointerFree(p: Bytes, at: nat)
    decreases |p| - at
  {
    at < |p| ==> !IsPointer(p[at]) && (p[at] == 0 || PointerFree(p, at + 1 + p[at]))
  }

  /** A name without pointers is the same whatever the header holds, and is read from its own bytes alone. */
  lemma {:induction false} PointerFreeIsSame(p: Bytes, q: Bytes, at: nat, jumps: nat)
    requires SameBehindHeader(p, q) && jumps <= MAX_JUMPS && PointerFree(p, at) && 12 <= at && NameAt(p, at, jumps).Some?
    ensures NameAt(q, at, jumps) == NameAt(p, at, jumps)
    ensures Inside(q, at, jumps, NameAt(p, at, jumps).value.end)
    decreases |p| - at
  {
    StepBehindHeader(p, q, at, jumps);
    if p[at] != 0 {
      PointerFreeIsSame(p, q, at + 1 + p[at], jumps);
    }
  }

  lemma {:induction false} InsideGrows(p: Bytes, at: nat, jumps: nat, end: nat, more: nat)
    requires jumps <= MAX_JUMPS && Inside(p, at, jumps, end) && end <= more
    ensures Inside(p, at, jumps, more)
    decreases MAX_JUMPS - jumps, |p| - at
  {
    var s := StepAt(p, at, jumps);
    if s.Label? {
      InsideGrows(p, s.next, jumps, end, more);
    } else if s.Jump? {
      InsideGrows(p, s.target, jumps + 1, end, more);
    }
  }

  // ---- Writing ----

  /** A label that may be written: 1 to 63 bytes. */
  predicate Writable(l: Bytes) {
    0 < |l| <= 63
  }

  function WriteLabels(labels: seq<Bytes>): Bytes
    requires forall k :: 0 <= k < |labels| ==> Writable(labels[k])
  {
    if labels == [] then []
    else
      assert Writable(labels[0]);
      assert forall k :: 0 <= k < |labels| - 1 ==> labels[1..][k] == labels[k + 1];
      [|labels[0]|] + labels[0] + WriteLabels(labels[1..])
  }

  lemma LabelInPacket(p: Bytes, at: nat, l: Bytes, more: Bytes, n: nat)
    requires Writable(l) && n == 1 + |l| + |more|
    requires at + n <= |p| && p[at..at + n] == [|l|] + l + more
    ensures p[at] == |l| && p[at + 1..at + 1 + |l|] == l && p[at + 1 + |l|..at + n] == more
  {
    var w := p[at..at + n];
    var k := 1 + |l|;
    assert w[0] == p[at];
    forall j | 0 <= j < |l|
      ensures p[at + 1..at + k][j] == l[j]
    {
      assert w[1 + j] == l[j];
    }
    forall j | 0 <= j < |more|
      ensures p[at + k..at + n][j] == more[j]
    {
      assert w[k + j] == more[j];
    }
  }

  /** Labels with their lengths lie at an offset, and the terminating zero at `end`. */
  predicate Written(p: Bytes, at: nat, labels: seq<Bytes>, end: nat)
    decreases |labels|
  {
    if labels == [] then at == end < |p| && p[end] == 0
    else
      var l := labels[0];
      && Writable(l) && at + 1 + |l| <= |p| && p[at] == |l| && p[at + 1..at + 1 + |l|] == l
      && Written(p, at + 1 + |l|, labels[1..], end)
  }

  lemma {:induction false} WriteLabelsWrites(p: Bytes, at: nat, labels: seq<Bytes>, w: Bytes)
    requires forall k :: 0 <= k < |labels| ==> Writable(labels[k])
    requires w == WriteLabels(labels) && at + |w| < |p| && p[at..at + |w|] == w && p[at + |w|] == 0
    ensures Written(p, at, labels, at + |w|)
    decreases |labels|
  {
    if labels != [] {
      var l, rest := labels[0], labels[1..];
      assert forall k :: 0 <= k < |rest| ==> rest[k] == labels[k + 1];
      var more := WriteLabels(rest);
      LabelInPacket(p, at, l, more, |w|);
      WriteLabelsWrites(p, at + 1 + |l|, rest, more);
    }
  }

  lemma WrittenStep(p: Bytes, at: nat, l: Bytes, jumps: nat)
    requires Writable(l) && Utf8(l) && at + 1 + |l| <= |p| && p[at] == |l| && p[at + 1..at + 1 + |l|] == l
    ensures StepAt(p, at, jumps) == Label(Lower(l), at + 1 + |l|)
  {
  }

  /** Written labels are read back in order, lower-cased. */
  lemma {:induction false} ReadsWhatWasWritten(p: Bytes, at: nat, labels: seq<Bytes>, jumps: nat, end: nat)
    requires jumps <= MAX_JUMPS && Written(p, at, labels, end)
    requires forall k :: 0 <= k < |labels| ==> Utf8(labels[k])
    ensures NameAt(p, at, jumps) == Some(Name(LowerAll(labels), end + 1))
    decreases |labels|
  {
    if labels != [] {
      var l, rest := labels[0], labels[1..];
      ReadsWhatWasWritten(p, at + 1 + |l|, rest, jumps, end);
      WrittenStep(p, at, l, jumps);
    }
  }
}
