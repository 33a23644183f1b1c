/**
  The Vision unpadder (prototype/vless/src/vision_unpad.rs): an incremental parser that strips
  padding blocks of the form command, content length, padding length, content, padding.
*/
module VisionUnpadding {
  import opened ByteStrings

  datatype Command = Continue | End | Direct

  function CommandOf(b: Byte): Option<Command> {
    if b == 0 then Some(Continue) else if b == 1 then Some(End) else if b == 2 then Some(Direct) else None
  }

  function CommandByte(c: Command): (b: Byte)
    ensures CommandOf(b) == Some(c)
  {
    match c
    case Continue => 0
    case End => 1
    case Direct => 2
  }

  // ---- The padding grammar, one byte at a time ----

  /** Where a reader of padded bytes stands; content and padding phases always expect a byte. */
  datatype Phase =
    | AtCommand
    | AtLength(command: Command, hi: Option<Byte>)
    | AtPaddingLength(command: Command, contentLen: nat, hi: Option<Byte>)
    | InContent(command: Command, left: nat, padding: nat)
    | InPadding(command: Command, left: nat)
    | Finished(command: Command)
    | BadCommand

  /** `first` holds until one block is complete. */
  datatype Core = Core(phase: Phase, first: bool)

  datatype Fed = Fed(core: Core, out: Bytes)

  function AfterBlock(c: Command): Core {
    Core(if c.Continue? then AtCommand else Finished(c), false)
  }

  function AfterContent(c: Command, padding: nat, first: bool): Core {
    if padding > 0 then Core(InPadding(c, padding), first) else AfterBlock(c)
  }

  function AfterHeader(c: Command, contentLen: nat, padding: nat, first: bool): Core {
    if contentLen > 0 then Core(InContent(c, contentLen, padding), first) else AfterContent(c, padding, first)
  }

  /** One byte: after End or Direct every byte is passed through, after a bad command none is. */
  function Step(k: Core, b: Byte): Fed {
    match k.phase
    case AtCommand =>
      (match CommandOf(b)
       case Some(c) => Fed(Core(AtLength(c, None), k.first), [])
       case None => Fed(Core(BadCommand, k.first), []))
    case AtLength(c, None) => Fed(Core(AtLength(c, Some(b)), k.first), [])
    case AtLength(c, Some(hi)) => Fed(Core(AtPaddingLength(c, U16(hi, b), None), k.first), [])
    case AtPaddingLength(c, n, None) => Fed(Core(AtPaddingLength(c, n, Some(b)), k.first), [])
    case AtPaddingLength(c, n, Some(hi)) => Fed(AfterHeader(c, n, U16(hi, b), k.first), [])
    case InContent(c, left, p) =>
      Fed(if left > 1 then Core(InContent(c, left - 1, p), k.first) else AfterContent(c, p, k.first), [b])
    case InPadding(c, left) =>
      Fed(if left > 1 then Core(InPadding(c, left - 1), k.first) else AfterBlock(c), [])
    case Finished(_) => Fed(k, [b])
    case BadCommand => Fed(k, [])
  }

  function Feed(k: Core, s: Bytes): Fed
    decreases |s|
  {
    if s == [] then Fed(k, [])
    else
      var one := Step(k, s[0]);
      var rest := Feed(one.core, s[1..]);
      Fed(rest.core, one.out + rest.out)
  }

  lemma {:induction false} FeedAppend(k: Core, a: Bytes, b: Bytes)
    ensures var left := Feed(k, a);
            var right := Feed(left.core, b);
            Feed(k, a + b) == Fed(right.core, left.out + right.out)
    decreases |a|
  {
    if a == [] {
      assert a + b == b;
    } else {
      var one := Step(k, a[0]);
      FeedAppend(one.core, a[1..], b);
      assert (a + b)[1..] == a[1..] + b;
      Assoc(one.out, Feed(one.core, a[1..]).out, Feed(Feed(one.core, a[1..]).core, b).out);
    }
  }

  lemma {:induction false} FeedFinished(k: Core, s: Bytes)
    requires k.phase.Finished?
    ensures Feed(k, s) == Fed(k, s)
  {
    if s != [] {
      FeedFinished(k, s[1..]);
      assert [s[0]] + s[1..] == s;
    }
  }

  lemma {:induction false} FeedBad(k: Core, s: Bytes)
    requires k.phase.BadCommand?
    ensures Feed(k, s) == Fed(k, [])
  {
    if s != [] {
      FeedBad(k, s[1..]);
    }
  }

  /** A run of content bytes is passed through in one piece. */
  lemma {:induction false} FeedContent(c: Command, left: nat, p: nat, first: bool, s: Bytes)
    requires 0 < |s| <= left
    ensures Feed(Core(InContent(c, left, p), first), s) == Fed(AfterHeader(c, left - |s|, p, first), s)
  {
    assert [s[0]] + s[1..] == s;
    if |s| > 1 {
      FeedContent(c, left - 1, p, first, s[1..]);
    } else {
      assert s[1..] == [];
    }
  }

  /** A run of padding bytes is skipped in one piece. */
  lemma {:induction false} FeedPadding(c: Command, left: nat, first: bool, s: Bytes)
    requires 0 < |s| <= left
    ensures Feed(Core(InPadding(c, left), first), s) == Fed(AfterContent(c, left - |s|, first), [])
  {
    if |s| > 1 {
      FeedPadding(c, left - 1, first, s[1..]);
    } else {
      assert s[1..] == [];
    }
  }

  // ---- One unpad call and whole sessions ----

  datatype Unpadder = Fresh(uuid: Bytes) | Parsing(core: Core)

  datatype UnpadResult = Unpadded(content: Bytes, command: Option<Command>) | Invalid

  /** A call in the middle of padded data. */
  function ParseCall(k: Core, data: Bytes): (Unpadder, UnpadResult) {
    var fed := Feed(k, data);
    match fed.core.phase
    case BadCommand => (Parsing(Core(AtCommand, fed.core.first)), Invalid)
    case Finished(c) => (Parsing(fed.core), Unpadded(fed.out, Some(c)))
    case _ => (Parsing(fed.core), Unpadded(fed.out, if fed.core.first then None else Some(Continue)))
  }

  /** One `unpad` call: the new state and the answer. */
  function UnpadCall(u: Unpadder, data: Bytes): (Unpadder, UnpadResult) {
    match u
    case Fresh(uuid) =>
      if |data| < 16 then (u, Unpadded([], None))
      else if data[..16] != uuid then (u, Unpadded(data, None))
      else ParseCall(Core(AtCommand, true), data[16..])
    case Parsing(k) => if k.phase.Finished? then (u, Invalid) else ParseCall(k, data)
  }

  /** A sequence of calls, stopped by the first error: final state, all content, last command. */
  datatype Session = Session(u: Unpadder, content: Bytes, command: Option<Command>, failed: bool)

  function Extend(before: Session, chunk: Bytes): Session {
    if before.failed then before
    else
      var (v, r) := UnpadCall(before.u, chunk);
      match r
      case Unpadded(content, command) => Session(v, before.content + content, command, false)
      case Invalid => Session(v, before.content, None, true)
  }

  function UnpadAll(u: Unpadder, chunks: seq<Bytes>): Session {
    if chunks == [] then Session(u, [], None, false)
    else
      Extend(UnpadAll(u, chunks[..|chunks| - 1]), chunks[|chunks| - 1])
  }

  /** A state from which `unpad` may still be called. */
  predicate Live(k: Core) {
    !k.phase.Finished? && !k.phase.BadCommand?
  }

  /** What a session that has not failed looks like, in terms of all bytes at once. */
  ghost predicate Agrees(session: Session, whole: Fed) {
    && session.u == Parsing(whole.core)
    && session.content == whole.out
    && session.command == (match whole.core.phase
                           case Finished(c) => Some(c)
                           case _ => if whole.core.first then None else Some(Continue))
  }

  lemma {:induction false} FlattenLast(chunks: seq<Bytes>)
    requires chunks != []
    ensures Flatten(chunks) == Flatten(chunks[..|chunks| - 1]) + chunks[|chunks| - 1]
  {
    FlattenSnoc(chunks[..|chunks| - 1], chunks[|chunks| - 1]);
    assert chunks == chunks[..|chunks| - 1] + [chunks[|chunks| - 1]];
  }

  /** One more call on a live session is one more piece of the whole. */
  lemma ExtendAgrees(before: Session, front: Fed, chunk: Bytes)
    requires !before.failed && before.u == Parsing(front.core) && before.content == front.out
    requires Live(front.core)
    ensures var after, more := Extend(before, chunk), Feed(front.core, chunk);
            && (after.failed <==> more.core.phase.BadCommand?)
            && (!after.failed ==> Agrees(after, Fed(more.core, front.out + more.out)))
  {
  }

  /**
    A session from a live state fails exactly when a bad command byte occurs or an End or Direct
    block is complete before the last chunk; otherwise content, command and final state are those
    of the bytes taken together.
  */
  ghost predicate SessionMatches(k: Core, chunks: seq<Bytes>)
    requires chunks != []
  {
    var session := UnpadAll(Parsing(k), chunks);
    var whole := Feed(k, Flatten(chunks));
    var front := Feed(k, Flatten(chunks[..|chunks| - 1]));
    && (session.failed <==> whole.core.phase.BadCommand? || front.core.phase.Finished?)
    && (!session.failed ==> Agrees(session, whole))
  }

  /** A finished or failed parse stays so whatever follows. */
  lemma FeedStays(k: Core, a: Bytes, b: Bytes)
    ensures Feed(k, a).core.phase.Finished? ==> Feed(k, a + b).core == Feed(k, a).core
    ensures Feed(k, a).core.phase.BadCommand? ==> Feed(k, a + b).core == Feed(k, a).core
  {
    FeedAppend(k, a, b);
    if Feed(k, a).core.phase.Finished? {
      FeedFinished(Feed(k, a).core, b);
    }
    if Feed(k, a).core.phase.BadCommand? {
      FeedBad(Feed(k, a).core, b);
    }
  }

  lemma {:induction false} SessionIsWhole(k: Core, chunks: seq<Bytes>)
    requires Live(k) && chunks != []
    ensures SessionMatches(k, chunks)
    decreases |chunks|
  {
    var n := |chunks| - 1;
    var head := chunks[..n];
    var front := Feed(k, Flatten(head));
    FlattenLast(chunks);
    FeedStays(k, Flatten(head), chunks[n]);
    if n == 0 {
      ExtendAgrees(UnpadAll(Parsing(k), head), front, chunks[n]);
      assert Flatten(chunks) == chunks[0];
    } else {
      SessionIsWhole(k, head);
      FlattenLast(head);
      FeedStays(k, Flatten(head[..n - 1]), head[n - 1]);
      FeedAppend(k, Flatten(head), chunks[n]);
      if Live(front.core) {
        ExtendAgrees(UnpadAll(Parsing(k), head), front, chunks[n]);
      }
    }
  }

  /** A first chunk shorter than the UUID is dropped without a trace: the run goes on as if it had not been there. */
  lemma {:induction false} ShortFirstChunkIsDropped(uuid: Bytes, chunks: seq<Bytes>)
    requires chunks != [] && |chunks[0]| < 16
    ensures UnpadAll(Fresh(uuid), chunks).content == UnpadAll(Fresh(uuid), chunks[1..]).content
    ensures UnpadAll(Fresh(uuid), chunks).u == UnpadAll(Fresh(uuid), chunks[1..]).u
    ensures UnpadAll(Fresh(uuid), chunks).failed == UnpadAll(Fresh(uuid), chunks[1..]).failed
    decreases |chunks|
  {
    var n := |chunks| - 1;
    if n > 0 {
      ShortFirstChunkIsDropped(uuid, chunks[..n]);
      assert chunks[1..][..n - 1] == chunks[..n][1..];
    } else {
      assert chunks[..n] == [] && chunks[1..] == [];
    }
  }

  /** The first chunk consumes the UUID; the run continues as a parse of the rest. */
  lemma {:induction false} FirstChunkStarts(uuid: Bytes, chunks: seq<Bytes>)
    requires chunks != [] && |chunks[0]| >= 16 && chunks[0][..16] == uuid
    ensures UnpadAll(Fresh(uuid), chunks)
         == UnpadAll(Parsing(Core(AtCommand, true)), [chunks[0][16..]] + chunks[1..])
    decreases |chunks|
  {
    var n := |chunks| - 1;
    var stripped := [chunks[0][16..]] + chunks[1..];
    if n == 0 {
      assert chunks[..n] == [] && stripped[..n] == [];
    } else {
      FirstChunkStarts(uuid, chunks[..n]);
      assert stripped[..n] == [chunks[..n][0][16..]] + chunks[..n][1..];
      assert stripped[n] == chunks[n];
    }
  }

  lemma FlattenStripped(chunks: seq<Bytes>)
    requires chunks != [] && |chunks[0]| >= 16
    ensures Flatten([chunks[0][16..]] + chunks[1..]) == Flatten(chunks)[16..]
  {
    assert ([chunks[0][16..]] + chunks[1..])[1..] == chunks[1..];
    assert Flatten(chunks) == chunks[0] + Flatten(chunks[1..]);
  }

  /**
    Chunking independence: for every split of a stream that opens with the UUID, whose first chunk
    holds the whole UUID and whose End or Direct block, if any, is complete only in the last chunk,
    the calls together succeed exactly when one call on the whole stream does, and then give the
    same content, the same last command and the same state.
  */
  lemma UnpaddingIgnoresChunking(uuid: Bytes, chunks: seq<Bytes>)
    requires chunks != [] && |chunks[0]| >= 16 && chunks[0][..16] == uuid
    requires |chunks| > 1 ==> !Feed(Core(AtCommand, true), Flatten(chunks[..|chunks| - 1])[16..]).core.phase.Finished?
    ensures var parts, whole := UnpadAll(Fresh(uuid), chunks), UnpadAll(Fresh(uuid), [Flatten(chunks)]);
            && parts.failed == whole.failed
            && (!parts.failed ==> parts == whole)
  {
    var k := Core(AtCommand, true);
    var n := |chunks| - 1;
    var stripped := [chunks[0][16..]] + chunks[1..];
    var whole := Flatten(chunks);
    FirstChunkStarts(uuid, chunks);
    FlattenStripped(chunks);
    SessionIsWhole(k, stripped);
    if n > 0 {
      FlattenStripped(chunks[..n]);
      assert stripped[..n] == [chunks[..n][0][16..]] + chunks[..n][1..];
    } else {
      assert stripped[..n] == [];
    }
    assert whole[..16] == uuid;
    FirstChunkStarts(uuid, [whole]);
    assert [[whole][0][16..]] + [whole][1..] == [whole[16..]];
    SessionIsWhole(k, [whole[16..]]);
    assert Flatten([whole[16..]]) == whole[16..];
    assert [whole[16..]][..0] == [];
  }

  /** Cutting a stream after its first chunk makes no difference to the outcome. */
  ghost predicate CutIsHarmless(uuid: Bytes, first: Bytes, rest: Bytes) {
    var parts, whole := UnpadAll(Fresh(uuid), [first, rest]), UnpadAll(Fresh(uuid), [first + rest]);
    parts.failed == whole.failed && (!parts.failed ==> parts.content == whole.content && parts.u == whole.u)
  }

  lemma TwoCalls(u: Unpadder, a: Bytes, b: Bytes)
    ensures UnpadAll(u, [a]) == Extend(Session(u, [], None, false), a)
    ensures UnpadAll(u, [a, b]) == Extend(UnpadAll(u, [a]), b)
  {
    assert [a][..0] == [] && [a, b][..1] == [a];
  }

  /** How many header bytes are still to come before any content. */
  function HeaderLeft(k: Core): nat {
    match k.phase
    case AtCommand => 5
    case AtLength(_, hi) => if hi.None? then 4 else 3
    case AtPaddingLength(_, _, hi) => if hi.None? then 2 else 1
    case _ => 0
  }

  /** A block header alone yields no content. */
  lemma {:induction false} HeaderYieldsNothing(k: Core, s: Bytes)
    requires |s| <= HeaderLeft(k) || k.phase.BadCommand?
    ensures Feed(k, s).out == []
    decreases |s|
  {
    if s != [] {
      HeaderYieldsNothing(Step(k, s[0]).core, s[1..]);
    }
  }

  /** The smallest final block: End, one content byte, no padding. */
  function OneByteBlock(x: Byte): Bytes {
    [1, 0, 1, 0, 0, x]
  }

  lemma OneByteBlockIsParsed(x: Byte)
    ensures Feed(Core(AtCommand, true), OneByteBlock(x)) == Fed(Core(Finished(End), false), [x])
  {
    var header: Bytes := [1, 0, 1, 0, 0];
    assert OneByteBlock(x) == header + [x];
    FeedAppend(Core(AtCommand, true), header, [x]);
    assert header[1..] == [0, 1, 0, 0] && header[1..][1..] == [1, 0, 0];
    assert [1, 0, 0][1..] == [0, 0] && [0, 0][1..] == [0] && [0][1..] == [];
    FeedContent(End, 1, 0, true, [x]);
  }

  /** A stream cut inside its UUID comes out wrong for some continuation. */
  lemma CutInsideUuidLoses(uuid: Bytes, first: Bytes, x: Byte)
    requires |uuid| == 16 && 0 < |first| < 16 && first == uuid[..|first|]
    ensures !CutIsHarmless(uuid, first, uuid[|first|..] + OneByteBlock(x))
  {
    var u := Fresh(uuid);
    var rest := uuid[|first|..] + OneByteBlock(x);
    var whole := first + rest;
    assert whole == uuid + OneByteBlock(x);
    assert whole[..16] == uuid && whole[16..] == OneByteBlock(x);
    OneByteBlockIsParsed(x);
    TwoCalls(u, whole, []);
    assert UnpadAll(u, [whole]).content == [x];
    TwoCalls(u, first, rest);
    assert UnpadAll(u, [first]) == Session(u, [], None, false);
    if |rest| >= 16 {
      HeaderYieldsNothing(Core(AtCommand, true), rest[16..]);
    }
    assert |UnpadAll(u, [first, rest]).content| != 1;
  }

  /**
    The exact condition on the first chunk of a padded stream: cutting after it is harmless for
    every continuation if and only if the chunk is empty or holds the whole UUID.
  */
  lemma FirstCutHarmlessIff(uuid: Bytes, first: Bytes)
    requires |uuid| == 16
    requires if |first| < 16 then first == uuid[..|first|] else first[..16] == uuid
    requires |first| >= 16 ==> !Feed(Core(AtCommand, true), first[16..]).core.phase.Finished?
    ensures (forall rest: Bytes :: CutIsHarmless(uuid, first, rest)) <==> (first == [] || |first| >= 16)
  {
    if 0 < |first| < 16 {
      CutInsideUuidLoses(uuid, first, 0);
    } else {
      forall rest: Bytes
        ensures CutIsHarmless(uuid, first, rest)
      {
        assert Flatten([first, rest]) == first + rest by {
          assert Flatten([first]) == first;
          assert [first] + [rest] == [first, rest];
          FlattenSnoc([first], rest);
        }
        assert [first, rest][..1] == [first];
        if first == [] {
          assert first + rest == rest;
          TwoCalls(Fresh(uuid), first, rest);
          TwoCalls(Fresh(uuid), rest, []);
        } else {
          assert Flatten([first]) == first;
          UnpaddingIgnoresChunking(uuid, [first, rest]);
        }
      }
    }
  }

  // ---- The unpadder object ----

  datatype UnpadState =
    | Initial(expectedUuid: Bytes)
    | ReadingCommand
    | ReadingContentLength(command: Command, firstByte: Option<Byte>)
    | ReadingPaddingLength(command: Command, contentLen: nat, firstByte: Option<Byte>)
    | ReadingContent(command: Command, partialContent: Bytes, remaining: nat, paddingLen: nat)
    | ReadingPadding(command: Command, content: Bytes, remaining: nat)
    | Done

  /** The content bytes a state carries but has not handed out. */
  function Held(s: UnpadState): Bytes {
    match s
    case ReadingContent(_, partial, _, _) => partial
    case ReadingPadding(_, content, _) => content
    case _ => []
  }

  /** The grammar position of a state; `final` is the command that led to Done. */
  function CoreOf(s: UnpadState, first: bool, final: Command): Core {
    match s
    case Initial(_) => Core(AtCommand, first)
    case ReadingCommand => Core(AtCommand, first)
    case ReadingContentLength(c, hi) => Core(AtLength(c, hi), first)
    case ReadingPaddingLength(c, n, hi) => Core(AtPaddingLength(c, n, hi), first)
    case ReadingContent(c, _, left, p) => AfterHeader(c, left, p, first)
    case ReadingPadding(c, _, left) => AfterContent(c, left, first)
    case Done => Core(Finished(final), false)
  }

  /** States from which the loop can move on without reading a byte come later in this order. */
  function Rank(s: UnpadState): nat {
    match s
    case ReadingContent(_, _, _, _) => 2
    case ReadingPadding(_, _, _) => 1
    case _ => 0
  }

  class VisionUnpadder {
    var state: UnpadState
    var firstBlock: bool
    var accumulated: Bytes
    /** The command that completed the last block; read only to name the state Done. */
    ghost var final: Command

    /** Between calls no content is held back. */
    ghost predicate Valid()
      reads this
    {
      && Held(state) == []
      && (state.Initial? ==> firstBlock)
      && (state.ReadingContent? ==> state.remaining > 0)
      && (state.ReadingPadding? ==> state.remaining > 0)
    }

    ghost function Value(): Unpadder
      reads this
    {
      if state.Initial? then Fresh(state.expectedUuid) else Parsing(CoreOf(state, firstBlock, final))
    }

    constructor (uuid: Bytes)
      ensures Valid() && Value() == Fresh(uuid)
    {
      state := Initial(uuid);
      firstBlock := true;
      accumulated := [];
      final := Continue;
    }

    method Unpad(input: Bytes) returns (r: UnpadResult)
      requires Valid()
      modifies this
      ensures Valid() && (Value(), r) == UnpadCall(old(Value()), input)
    {
      accumulated := [];
      var data := input;
      if state.Done? {
        return Invalid;
      }
      if state.Initial? {
        if |data| < 16 {
          return Unpadded([], None);
        }
        if data[..16] != state.expectedUuid {
          return Unpadded(data, None);
        }
        data := data[16..];
        state := ReadingCommand;
      }
      r := ParseBlocks(data);
    }

    /** The bytes still to parse, with what is held and accumulated, give the whole answer. */
    ghost predicate Tracks(whole: Fed, data: Bytes)
      reads this
    {
      var rest := Feed(CoreOf(state, firstBlock, final), data);
      && !state.Initial?
      && whole.core == rest.core
      && whole.out == accumulated + Held(state) + rest.out
      && (firstBlock ==> accumulated == [])
    }

    /** The loop of `unpad` once the UUID has been consumed. */
    method ParseBlocks(input: Bytes) returns (r: UnpadResult)
      requires Valid() && !state.Initial? && !state.Done? && accumulated == []
      modifies this
      ensures Valid() && (Value(), r) == ParseCall(old(CoreOf(state, firstBlock, final)), input)
      ensures !state.Initial?
    {
      var data := input;
      ghost var whole := Feed(CoreOf(state, firstBlock, final), input);
      while true
        invariant Tracks(whole, data) && !state.Done?
        decreases |data|, Rank(state)
      {
        if data == [] && (state.ReadingContent? || state.ReadingPadding? ==> state.remaining > 0) {
          r := OutOfData(whole);
          return;
        }
        if state.ReadingContent? {
          data := TakeContent(whole, data);
        } else if state.ReadingPadding? {
          var command := state.command;
          data := SkipPadding(whole, data);
          if state.Done? {
            FeedFinished(CoreOf(state, firstBlock, final), data);
            assert accumulated + Held(state) == accumulated;
            return Unpadded(accumulated + data, Some(command));
          }
        } else {
          var ok := HeaderByte(whole, data);
          if !ok {
            return Invalid;
          }
          data := data[1..];
        }
      }
    }

    /** The answer when the input is used up inside a block: everything held is handed out. */
    method OutOfData(ghost whole: Fed) returns (r: UnpadResult)
      requires Tracks(whole, []) && !state.Done?
      requires state.ReadingContent? || state.ReadingPadding? ==> state.remaining > 0
      modifies this
      ensures Valid() && !state.Initial?
      ensures Value() == Parsing(whole.core)
      ensures r == Unpadded(whole.out, if whole.core.first then None else Some(Continue))
    {
      match state {
        case ReadingContent(command, partial, remaining, paddingLen) =>
          accumulated := accumulated + partial;
          state := ReadingContent(command, [], remaining, paddingLen);
        case ReadingPadding(command, content, remaining) =>
          accumulated := accumulated + content;
          state := ReadingPadding(command, [], remaining);
        case _ =>
      }
      r := Unpadded(accumulated, if firstBlock then None else Some(Continue));
    }

    /** One command or length byte. */
    method HeaderByte(ghost whole: Fed, data: Bytes) returns (ok: bool)
      requires Tracks(whole, data) && data != []
      requires !state.Done? && !state.ReadingContent? && !state.ReadingPadding?
      modifies this
      ensures ok ==> Tracks(whole, data[1..]) && !state.Done?
      ensures !ok ==> whole.core == Core(BadCommand, firstBlock) && state.ReadingCommand?
    {
      ok := true;
      match state
      case ReadingContentLength(command, None) =>
        state := ReadingContentLength(command, Some(data[0]));
      case ReadingContentLength(command, Some(high)) =>
        state := ReadingPaddingLength(command, U16(high, data[0]), None);
      case ReadingPaddingLength(command, contentLen, None) =>
        state := ReadingPaddingLength(command, contentLen, Some(data[0]));
      case ReadingPaddingLength(command, contentLen, Some(high)) =>
        state := ReadingContent(command, [], contentLen, U16(high, data[0]));
      case ReadingCommand =>
        var command := CommandOf(data[0]);
        if command.None? {
          FeedBad(Core(BadCommand, firstBlock), data[1..]);
          return false;
        }
        state := ReadingContentLength(command.value, None);
    }

    method TakeContent(ghost whole: Fed, data: Bytes) returns (rest: Bytes)
      requires Tracks(whole, data) && state.ReadingContent?
      requires data == [] ==> state.remaining == 0
      modifies this
      ensures Tracks(whole, rest)
      ensures |rest| < |data| || (|rest| == |data| && state.ReadingPadding?)
      ensures !state.Done?
    {
      var ReadingContent(command, partial, remaining, paddingLen) := state;
      var toRead := if remaining < |data| then remaining else |data|;
      rest := data[toRead..];
      var content := partial + data[..toRead];
      if toRead > 0 {
        ContentStep(command, remaining, paddingLen, firstBlock, data, toRead);
        ghost var out := Feed(AfterHeader(command, remaining - toRead, paddingLen, firstBlock), rest).out;
        Assoc(accumulated + partial, data[..toRead], out);
        Assoc(accumulated, partial, data[..toRead]);
      } else {
        assert rest == data && content == partial;
      }
      if remaining == toRead {
        state := ReadingPadding(command, content, paddingLen);
      } else {
        state := ReadingContent(command, content, remaining - toRead, paddingLen);
      }
    }

    method SkipPadding(ghost whole: Fed, data: Bytes) returns (rest: Bytes)
      requires Tracks(whole, data) && state.ReadingPadding?
      requires data == [] ==> state.remaining == 0
      modifies this
      ensures Tracks(whole, rest)
      ensures |rest| < |data| || (|rest| == |data| && !state.ReadingPadding? && !state.ReadingContent?)
      ensures state.Done? ==> final == old(state.command) && !final.Continue? && !firstBlock
    {
      var ReadingPadding(command, content, remaining) := state;
      var toSkip := if remaining < |data| then remaining else |data|;
      rest := data[toSkip..];
      if toSkip > 0 {
        PaddingStep(command, remaining, firstBlock, data, toSkip);
      } else {
        assert rest == data;
      }
      if remaining == toSkip {
        firstBlock := false;
        accumulated := accumulated + content;
        assert accumulated + [] == accumulated;
        if command.Continue? {
          state := ReadingCommand;
        } else {
          state := Done;
          final := command;
        }
      } else {
        state := ReadingPadding(command, content, remaining - toSkip);
      }
    }
  }

  lemma ContentStep(c: Command, left: nat, p: nat, first: bool, data: Bytes, n: nat)
    requires 0 < n <= left && n <= |data|
    ensures var rest := Feed(AfterHeader(c, left - n, p, first), data[n..]);
            Feed(Core(InContent(c, left, p), first), data) == Fed(rest.core, data[..n] + rest.out)
  {
    assert data == data[..n] + data[n..];
    FeedContent(c, left, p, first, data[..n]);
    FeedAppend(Core(InContent(c, left, p), first), data[..n], data[n..]);
  }

  lemma PaddingStep(c: Command, left: nat, first: bool, data: Bytes, n: nat)
    requires 0 < n <= left && n <= |data|
    ensures var rest := Feed(AfterContent(c, left - n, first), data[n..]);
            Feed(Core(InPadding(c, left), first), data) == rest
  {
    assert data == data[..n] + data[n..];
    FeedPadding(c, left, first, data[..n]);
    FeedAppend(Core(InPadding(c, left), first), data[..n], data[n..]);
  }
}
