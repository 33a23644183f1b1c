/**
  Vision padding (prototype/vless/src/vision_pad.rs) and its round trip through the unpadder.
*/
module VisionPadding {
  import opened ByteStrings
  import opened VisionUnpadding

  const LONG_PADDING_MIN: nat := 900
  const LONG_PADDING_RANDOM_MAX: nat := 500
  const SHORT_PADDING_RANDOM_MAX: nat := 256
  const MAX_PADDING_SIZE: nat := 8171

  /** The longest content a length field can describe. */
  const MAX_CONTENT: nat := 65535

  function Min(a: nat, b: nat): nat {
    if a < b then a else b
  }

  function SaturatingSub(a: nat, b: nat): nat {
    if a < b then 0 else a - b
  }

  /** The upper end of the random draw, exclusive. */
  function DrawLimit(contentLen: nat, isTls: bool): nat {
    if isTls && contentLen < LONG_PADDING_MIN then LONG_PADDING_RANDOM_MAX else SHORT_PADDING_RANDOM_MAX
  }

  function PaddingLength(contentLen: nat, isTls: bool, draw: nat): nat {
    var maxAllowable := SaturatingSub(MAX_PADDING_SIZE, contentLen);
    if isTls && contentLen < LONG_PADDING_MIN then
      Min(SaturatingSub(LONG_PADDING_MIN, contentLen) + draw, maxAllowable)
    else
      Min(draw, maxAllowable)
  }

  /** The padding lengths the generator may choose for a content of this length. */
  ghost predicate PaddingAllowed(contentLen: nat, isTls: bool, p: nat) {
    exists draw: nat :: draw < DrawLimit(contentLen, isTls) && p == PaddingLength(contentLen, isTls, draw)
  }

  /**
    What the generator promises: the block never outgrows the peer's buffer, padding is always
    representable in its two-byte field, and a short TLS-phase content is filled up to at least 900.
  */
  lemma PaddingBounds(contentLen: nat, isTls: bool, p: nat)
    requires PaddingAllowed(contentLen, isTls, p)
    ensures p <= MAX_PADDING_SIZE
    ensures contentLen <= MAX_PADDING_SIZE ==> contentLen + p <= MAX_PADDING_SIZE
    ensures contentLen > MAX_PADDING_SIZE ==> p == 0
    ensures isTls && contentLen < LONG_PADDING_MIN ==> LONG_PADDING_MIN <= contentLen + p < LONG_PADDING_MIN + LONG_PADDING_RANDOM_MAX
  {
    var draw: nat :| draw < DrawLimit(contentLen, isTls) && p == PaddingLength(contentLen, isTls, draw);
  }

  /** A padded packet as the sender means it. */
  datatype Packet = Packet(command: Command, content: Bytes, padding: Bytes)

  /** Both lengths are written as u16, so a longer content loses its high bits. */
  function Header(c: Command, contentLen: nat, paddingLen: nat): Bytes {
    [CommandByte(c)] + PutU16(contentLen) + PutU16(paddingLen)
  }

  function Encode(p: Packet): Bytes {
    Header(p.command, |p.content|, |p.padding|) + (p.content + p.padding)
  }

  lemma LengthIsTruncated(n: nat)
    ensures PutU16(n % 0x1_0000) == PutU16(n)
  {
    var m := n % 0x1_0000;
    PutU16Truncates(n);
    PutU16Exact(m);
    U16Determines(HighByte(m), LowByte(m), HighByte(n), LowByte(n));
  }

  lemma U16Determines(a: Byte, b: Byte, c: Byte, d: Byte)
    requires U16(a, b) == U16(c, d)
    ensures a == c && b == d
  {
  }

  lemma OpeningThenHeader(opening: Bytes, command: Command, len: nat, m: nat, paddingLen: nat)
    requires m == len % 0x1_0000
    ensures opening + [CommandByte(command)] + PutU16(m) + PutU16(paddingLen)
         == opening + Header(command, len, paddingLen)
  {
    LengthIsTruncated(len);
    var c, a, b := [CommandByte(command)], PutU16(len), PutU16(paddingLen);
    Assoc(opening, c, a);
    Assoc(opening, c + a, b);
  }

  method Pad(data: Bytes, uuid: Option<Bytes>, command: Command, isTls: bool)
    returns (output: Bytes, padding: Bytes)
    ensures PaddingAllowed(|data| % 0x1_0000, isTls, |padding|) && |padding| <= MAX_PADDING_SIZE
    ensures output == (if uuid.Some? then uuid.value else []) + Encode(Packet(command, data, padding))
  {
    var contentLen := |data| % 0x1_0000;
    var draw: nat :| draw < DrawLimit(contentLen, isTls);
    var paddingLen := PaddingLength(contentLen, isTls, draw);
    assert PaddingAllowed(contentLen, isTls, paddingLen);
    PaddingBounds(contentLen, isTls, paddingLen);
    var opening := if uuid.Some? then uuid.value else [];
    output := opening + [CommandByte(command)];
    output := output + PutU16(contentLen);
    output := output + PutU16(paddingLen);
    ghost var header := Header(command, |data|, paddingLen);
    OpeningThenHeader(opening, command, |data|, contentLen, paddingLen);
    output := output + data;
    padding := [];
    ghost var start := output;
    assert start == start + padding;
    for i := 0 to paddingLen
      invariant |padding| == i && output == start + padding
    {
      var random: Byte :| true;
      Assoc(start, padding, [random]);
      output := output + [random];
      padding := padding + [random];
    }
    Assoc(opening + header, data, padding);
    Assoc(opening, header, data + padding);
  }

  // ---- Round trip ----

  predicate Encodable(p: Packet) {
    |p.content| <= MAX_CONTENT && |p.padding| <= MAX_CONTENT
  }

  lemma FeedCons(k: Core, b: Byte, s: Bytes)
    requires Step(k, b).out == []
    ensures Feed(k, [b] + s) == Feed(Step(k, b).core, s)
  {
    assert ([b] + s)[1..] == s;
  }

  /** The five header bytes lead to the content phase with the two lengths as written. */
  lemma HeaderIsParsed(c: Command, contentLen: nat, paddingLen: nat, m: nat, first: bool, body: Bytes)
    requires m == contentLen % 0x1_0000 && paddingLen <= MAX_CONTENT
    ensures Feed(Core(AtCommand, first), Header(c, contentLen, paddingLen) + body)
         == Feed(AfterHeader(c, m, paddingLen, first), body)
  {
    var a, b := PutU16(contentLen), PutU16(paddingLen);
    PutU16Truncates(contentLen);
    PutU16Exact(paddingLen);
    var s4 := [b[1]] + body;
    var s3 := [b[0]] + s4;
    var s2 := [a[1]] + s3;
    var s1 := [a[0]] + s2;
    assert Header(c, contentLen, paddingLen) + body == [CommandByte(c)] + s1;
    FeedCons(Core(AtCommand, first), CommandByte(c), s1);
    FeedCons(Core(AtLength(c, None), first), a[0], s2);
    FeedCons(Core(AtLength(c, Some(a[0])), first), a[1], s3);
    FeedCons(Core(AtPaddingLength(c, m, None), first), b[0], s4);
    FeedCons(Core(AtPaddingLength(c, m, Some(b[0])), first), b[1], body);
  }

  lemma BodyIsParsed(c: Command, content: Bytes, padding: Bytes, first: bool)
    ensures Feed(AfterHeader(c, |content|, |padding|, first), content + padding) == Fed(AfterBlock(c), content)
  {
    var k := AfterHeader(c, |content|, |padding|, first);
    FeedAppend(k, content, padding);
    if content != [] {
      FeedContent(c, |content|, |padding|, first, content);
    }
    if padding != [] {
      FeedPadding(c, |padding|, first, padding);
    }
  }

  /** Unpadding one packet gives its content and its command. */
  lemma PacketIsParsed(p: Packet, first: bool)
    requires Encodable(p)
    ensures Feed(Core(AtCommand, first), Encode(p)) == Fed(AfterBlock(p.command), p.content)
  {
    HeaderIsParsed(p.command, |p.content|, |p.padding|, |p.content|, first, p.content + p.padding);
    BodyIsParsed(p.command, p.content, p.padding, first);
  }

  function EncodeAll(ps: seq<Packet>): Bytes {
    if ps == [] then [] else EncodeAll(ps[..|ps| - 1]) + Encode(ps[|ps| - 1])
  }

  function Contents(ps: seq<Packet>): Bytes {
    if ps == [] then [] else Contents(ps[..|ps| - 1]) + ps[|ps| - 1].content
  }

  lemma EncodeAllSnoc(ps: seq<Packet>, p: Packet)
    ensures EncodeAll(ps + [p]) == EncodeAll(ps) + Encode(p)
  {
    assert (ps + [p])[..|ps|] == ps;
  }

  lemma ContentsSnoc(ps: seq<Packet>, p: Packet)
    ensures Contents(ps + [p]) == Contents(ps) + p.content
  {
    assert (ps + [p])[..|ps|] == ps;
  }

  /** Every packet but the last continues the padding. */
  predicate ContinuesUntilLast(ps: seq<Packet>) {
    forall i :: 0 <= i < |ps| - 1 ==> ps[i].command.Continue?
  }

  predicate AllEncodable(ps: seq<Packet>) {
    forall i :: 0 <= i < |ps| ==> Encodable(ps[i])
  }

  /** The grammar position after a list of packets. */
  function AfterPackets(ps: seq<Packet>, first: bool): Core {
    if ps == [] then Core(AtCommand, first) else AfterBlock(ps[|ps| - 1].command)
  }

  lemma {:induction false} PacketsAreParsed(ps: seq<Packet>, first: bool)
    requires ContinuesUntilLast(ps) && AllEncodable(ps)
    ensures Feed(Core(AtCommand, first), EncodeAll(ps)) == Fed(AfterPackets(ps, first), Contents(ps))
    decreases |ps|
  {
    if ps != [] {
      var n := |ps| - 1;
      PacketsAreParsed(ps[..n], first);
      var before := AfterPackets(ps[..n], first);
      assert before.phase == AtCommand;
      FeedAppend(Core(AtCommand, first), EncodeAll(ps[..n]), Encode(ps[n]));
      PacketIsParsed(ps[n], before.first);
    }
  }

  /**
    Pad then unpad is the identity, whatever the chunking: for every list of encodable packets, all
    Continue but the last, sent behind the UUID and cut into chunks of which the first holds the
    UUID and only the last may complete an End or Direct block, the calls give back the payloads.
  */
  lemma PadThenUnpad(uuid: Bytes, ps: seq<Packet>, chunks: seq<Bytes>)
    requires |uuid| == 16 && ps != [] && ContinuesUntilLast(ps) && AllEncodable(ps)
    requires Flatten(chunks) == uuid + EncodeAll(ps)
    requires chunks != [] && |chunks[0]| >= 16
    requires |chunks| > 1 ==> !Feed(Core(AtCommand, true), Flatten(chunks[..|chunks| - 1])[16..]).core.phase.Finished?
    ensures UnpadAll(Fresh(uuid), chunks)
         == Session(Parsing(AfterBlock(ps[|ps| - 1].command)), Contents(ps), Some(ps[|ps| - 1].command), false)
  {
    var whole := uuid + EncodeAll(ps);
    assert whole[..16] == uuid && whole[16..] == EncodeAll(ps);
    assert chunks[0] == Flatten(chunks)[..|chunks[0]|];
    assert chunks[0][..16] == uuid;
    PacketsAreParsed(ps, true);
    assert [whole][..0] == [];
    assert UnpadAll(Fresh(uuid), [whole]) == Extend(Session(Fresh(uuid), [], None, false), whole);
    UnpaddingIgnoresChunking(uuid, chunks);
  }

  // ---- Contents that do not fit their length field ----

  /** Output never exceeds input, and from a command position the command byte itself is not output. */
  lemma {:induction false} OutputIsBounded(k: Core, s: Bytes)
    ensures |Feed(k, s).out| <= |s|
    ensures k.phase.AtCommand? && s != [] ==> |Feed(k, s).out| < |s|
    decreases |s|
  {
    if s != [] {
      OutputIsBounded(Step(k, s[0]).core, s[1..]);
    }
  }

  lemma CutBody(body: Bytes, m: nat, q: nat)
    requires m + q <= |body|
    ensures body == body[..m] + body[m..m + q] + body[m + q..]
  {
  }

  /** A block whose body runs past its lengths: content, skipped bytes, and whatever the rest parses to. */
  lemma LongBodyIsParsed(c: Command, m: nat, q: nat, body: Bytes, first: bool)
    requires m + q <= |body|
    ensures var tail := Feed(AfterBlock(c), body[m + q..]);
            Feed(AfterHeader(c, m, q, first), body) == Fed(tail.core, body[..m] + tail.out)
  {
    CutBody(body, m, q);
    BodyThenRest(c, body[..m], body[m..m + q], body[m + q..], first);
  }

  lemma BodyThenRest(c: Command, content: Bytes, padding: Bytes, rest: Bytes, first: bool)
    ensures var tail := Feed(AfterBlock(c), rest);
            Feed(AfterHeader(c, |content|, |padding|, first), content + padding + rest) == Fed(tail.core, content + tail.out)
  {
    BodyIsParsed(c, content, padding, first);
    FeedAppend(AfterHeader(c, |content|, |padding|, first), content + padding, rest);
  }

  /** What the unpadder makes of any packet: the low 16 bits of the length decide where padding is skipped. */
  lemma AnyPacketIsParsed(p: Packet, first: bool, m: nat)
    requires |p.padding| <= MAX_CONTENT && m <= |p.content| && m == |p.content| % 0x1_0000
    ensures var body := p.content + p.padding;
            var tail := Feed(AfterBlock(p.command), body[m + |p.padding|..]);
            Feed(Core(AtCommand, first), Encode(p)) == Fed(tail.core, body[..m] + tail.out)
  {
    var body := p.content + p.padding;
    HeaderIsParsed(p.command, |p.content|, |p.padding|, m, first, body);
    LongBodyIsParsed(p.command, m, |p.padding|, body, first);
  }

  /** A Continue packet survives the round trip if and only if its content fits the length field. */
  lemma ContinueRoundTripIff(content: Bytes, padding: Bytes, first: bool)
    requires |padding| <= MAX_PADDING_SIZE
    ensures Feed(Core(AtCommand, first), Encode(Packet(Continue, content, padding)))
         == Fed(Core(AtCommand, false), content)
        <==> |content| <= MAX_CONTENT
  {
    var p := Packet(Continue, content, padding);
    if |content| <= MAX_CONTENT {
      PacketIsParsed(p, first);
    } else {
      var m := |content| % 0x1_0000;
      AnyPacketIsParsed(p, first, m);
      OutputIsBounded(Core(AtCommand, false), (content + padding)[m + |padding|..]);
    }
  }

  /** What comes back of an oversized Continue packet is shorter than its content. */
  lemma OversizedContinueIsShort(content: Bytes, padding: Bytes, first: bool)
    requires |content| > MAX_CONTENT && |padding| <= MAX_PADDING_SIZE
    ensures |Feed(Core(AtCommand, first), Encode(Packet(Continue, content, padding))).out| < |content|
  {
    var p, m := Packet(Continue, content, padding), |content| % 0x1_0000;
    AnyPacketIsParsed(p, first, m);
    OutputIsBounded(Core(AtCommand, false), (content + padding)[m + |padding|..]);
  }

  /** The last packet comes back whole for every padding the generator may choose. */
  ghost predicate FinalAlwaysSurvives(command: Command, content: Bytes, isTls: bool, first: bool) {
    forall padding: Bytes | PaddingAllowed(|content| % 0x1_0000, isTls, |padding|) ::
      Feed(Core(AtCommand, first), Encode(Packet(command, content, padding))).out == content
  }

  function Fill(n: nat, x: Byte): (s: Bytes)
    ensures |s| == n && forall i :: 0 <= i < n ==> s[i] == x
  {
    seq(n, i => x)
  }

  /** An oversized final packet comes back with its padding's length of bytes cut out of the middle. */
  lemma OversizedFinalOutput(command: Command, content: Bytes, padding: Bytes, first: bool, m: nat)
    requires !command.Continue? && |padding| <= MAX_CONTENT
    requires m <= |content| && m == |content| % 0x1_0000
    ensures Feed(Core(AtCommand, first), Encode(Packet(command, content, padding))).out
         == (content + padding)[..m] + (content + padding)[m + |padding|..]
  {
    AnyPacketIsParsed(Packet(command, content, padding), first, m);
    FeedFinished(AfterBlock(command), (content + padding)[m + |padding|..]);
  }

  lemma CutShowsInLastByte(content: Bytes, padding: Bytes, m: nat)
    requires 0 < |padding| && m + |padding| < |content|
    requires padding[|padding| - 1] != content[|content| - 1]
    ensures (content + padding)[..m] + (content + padding)[m + |padding|..] != content
  {
    var body := content + padding;
    var out := body[..m] + body[m + |padding|..];
    assert out[|out| - 1] == body[|body| - 1];
  }

  /** A padding choice that spoils an oversized final packet whose low length leaves room for padding. */
  lemma OversizedFinalIsSpoiled(command: Command, content: Bytes, isTls: bool, first: bool, m: nat)
    requires !command.Continue? && m == |content| % 0x1_0000
    requires |content| > MAX_CONTENT && m < MAX_PADDING_SIZE
    ensures !FinalAlwaysSurvives(command, content, isTls, first)
  {
    var p := PaddingLength(m, isTls, 1);
    assert PaddingAllowed(m, isTls, p);
    PaddingBounds(m, isTls, p);
    var padding := Fill(p, if content[|content| - 1] == 0 then 1 else 0);
    OversizedFinalOutput(command, content, padding, first, m);
    CutShowsInLastByte(content, padding, m);
  }

  lemma FinalSurvives(command: Command, content: Bytes, padding: Bytes, first: bool)
    requires !command.Continue? && |padding| <= MAX_CONTENT
    requires |content| <= MAX_CONTENT || padding == []
    ensures Feed(Core(AtCommand, first), Encode(Packet(command, content, padding))).out == content
  {
    if |content| <= MAX_CONTENT {
      PacketIsParsed(Packet(command, content, padding), first);
    } else {
      var m := |content| % 0x1_0000;
      OversizedFinalOutput(command, content, [], first, m);
      NothingIsCut(content, m);
    }
  }

  lemma NothingIsCut(content: Bytes, m: nat)
    requires m <= |content|
    ensures (content + [])[..m] + (content + [])[m + 0..] == content
  {
    assert content + [] == content;
  }

  /**
    An End or Direct packet survives every padding choice if and only if its content fits the length
    field, or the low 16 bits of the length leave no room for padding.
  */
  lemma FinalRoundTripIff(command: Command, content: Bytes, isTls: bool, first: bool)
    requires !command.Continue?
    ensures FinalAlwaysSurvives(command, content, isTls, first)
       <==> |content| <= MAX_CONTENT || |content| % 0x1_0000 >= MAX_PADDING_SIZE
  {
    var m := |content| % 0x1_0000;
    if |content| > MAX_CONTENT && m < MAX_PADDING_SIZE {
      OversizedFinalIsSpoiled(command, content, isTls, first, m);
    } else {
      forall padding: Bytes | PaddingAllowed(m, isTls, |padding|)
        ensures Feed(Core(AtCommand, first), Encode(Packet(command, content, padding))).out == content
      {
        PaddingBounds(m, isTls, |padding|);
        FinalSurvives(command, content, padding, first);
      }
    }
  }
}
