/**
  ServerHello parsing (prototype/vless/src/tls_parse.rs with the cursor of
  prototype/vless/src/buf_reader.rs), against the message layout of sections 4.1.3 and 4.2.1 of
  RFC 8446.
*/
module ServerHelloParsing {
  import opened ByteStrings

  const SUPPORTED_VERSIONS: nat := 43

  /** The random value that marks a HelloRetryRequest. */
  const RETRY_RANDOM: Bytes := [
    0xcf, 0x21, 0xad, 0x74, 0xe5, 0x9a, 0x61, 0x11, 0xbe, 0x1d, 0x8c, 0x02, 0x1e, 0x65, 0xb8, 0x91,
    0xc2, 0xa2, 0x11, 0x16, 0x7a, 0xbb, 0x8c, 0x5e, 0x07, 0x9e, 0x09, 0xe2, 0xc8, 0xa8, 0x33, 0x9c
  ]

  // ---- The extension block ----

  datatype Extension = Extension(kind: nat, body: Bytes)

  /** Fits its fields, and supported_versions carries exactly one version. */
  predicate ValidExtension(e: Extension) {
    && e.kind < 0x1_0000
    && |e.body| < 0x1_0000
    && (e.kind == SUPPORTED_VERSIONS ==> |e.body| == 2)
  }

  function EncodeExtension(e: Extension): Bytes {
    PutU16(e.kind) + PutU16(|e.body|) + e.body
  }

  function EncodeExtensions(es: seq<Extension>): Bytes {
    if es == [] then [] else EncodeExtension(es[0]) + EncodeExtensions(es[1..])
  }

  predicate ValidExtensions(es: seq<Extension>) {
    forall i :: 0 <= i < |es| ==> ValidExtension(es[i])
  }

  /** The last supported_versions extension selects TLS 1.3. */
  predicate SelectsTls13(es: seq<Extension>) {
    if es == [] then false
    else
      var last := es[|es| - 1];
      if last.kind == SUPPORTED_VERSIONS then last.body == [3, 4] else SelectsTls13(es[..|es| - 1])
  }

  /** The first extension of a block, if one is complete and valid there. */
  function FirstExtension(s: Bytes): (r: Option<Extension>)
    ensures r.Some? ==> ValidExtension(r.value) && |s| >= 4 + |r.value.body|
  {
    if |s| < 4 then None
    else
      var kind, len := U16(s[0], s[1]), U16(s[2], s[3]);
      if kind == SUPPORTED_VERSIONS && len != 2 then None
      else if |s| < 4 + len then None
      else Some(Extension(kind, s[4..4 + len]))
  }

  lemma U16IsInjective(hi: Byte, lo: Byte)
    ensures PutU16(U16(hi, lo)) == [hi, lo]
  {
    PutU16Exact(U16(hi, lo));
  }

  /** FirstExtension inverts the encoding: it answers e exactly when the block opens with e. */
  lemma FirstExtensionIff(s: Bytes, e: Extension)
    requires ValidExtension(e)
    ensures FirstExtension(s) == Some(e) <==> EncodeExtension(e) <= s
  {
    if EncodeExtension(e) <= s {
      PrefixIsRead(s, e);
    }
    if FirstExtension(s) == Some(e) {
      U16IsInjective(s[0], s[1]);
      U16IsInjective(s[2], s[3]);
      assert [s[0], s[1]] + [s[2], s[3]] + e.body == s[..4 + |e.body|];
    }
  }

  lemma PrefixIsRead(s: Bytes, e: Extension)
    requires ValidExtension(e) && EncodeExtension(e) <= s
    ensures FirstExtension(s) == Some(e)
  {
    var code := EncodeExtension(e);
    var a, b := PutU16(e.kind), PutU16(|e.body|);
    assert s[0] == code[0] == a[0] && s[1] == code[1] == a[1];
    assert s[2] == code[2] == b[0] && s[3] == code[3] == b[1];
    PutU16Exact(e.kind);
    PutU16Exact(|e.body|);
    assert code[4..] == e.body;
    assert s[4..4 + |e.body|] == code[4..];
  }

  function ParseExtensions(s: Bytes): Option<seq<Extension>>
    decreases |s|
  {
    if s == [] then Some([])
    else match FirstExtension(s)
         case None => None
         case Some(e) =>
           match ParseExtensions(s[4 + |e.body|..])
           case None => None
           case Some(es) => Some([e] + es)
  }

  /** The block parser answers es exactly when the block is the encoding of es. */
  lemma {:induction false} ExtensionsIff(s: Bytes, es: seq<Extension>)
    requires ValidExtensions(es)
    ensures ParseExtensions(s) == Some(es) <==> s == EncodeExtensions(es)
    decreases |s|
  {
    if s == [] {
      if es != [] {
        assert |EncodeExtension(es[0])| >= 4;
      }
    } else if es == [] {
      // a non-empty block never parses to an empty list
    } else {
      var e := es[0];
      var code := EncodeExtension(e);
      FirstExtensionIff(s, e);
      if code <= s {
        var tail := s[|code|..];
        assert s == code + tail;
        ExtensionsIff(tail, es[1..]);
        assert es == [e] + es[1..];
        assert s == EncodeExtensions(es) <==> tail == EncodeExtensions(es[1..]);
      }
    }
  }

  lemma {:induction false} ParsedExtensionsAreValid(s: Bytes)
    ensures ParseExtensions(s).Some? ==> ValidExtensions(ParseExtensions(s).value)
    decreases |s|
  {
    if s != [] && FirstExtension(s).Some? {
      ParsedExtensionsAreValid(s[4 + |FirstExtension(s).value.body|..]);
    }
  }

  // ---- The message ----

  /** A ServerHello as it lies in one record; bytes after the extension block are ignored. */
  datatype Hello = Hello(
    recordLen: Bytes,
    messageLen: Bytes,
    random: Bytes,
    sessionId: Bytes,
    cipherSuite: nat,
    compression: Byte,
    extensions: Option<seq<Extension>>,
    trailer: Bytes)

  function U24(s: Bytes): nat
    requires |s| == 3
  {
    s[0] as int * 0x1_0000 + s[1] as int * 256 + s[2]
  }

  /** Everything after the compression byte. */
  function EncodeTail(h: Hello): Bytes {
    match h.extensions
    case None => []
    case Some(es) => PutU16(|EncodeExtensions(es)|) + EncodeExtensions(es) + h.trailer
  }

  /** Everything after the handshake header. */
  function EncodeBody(h: Hello): Bytes {
    [3, 3] + h.random + [if |h.sessionId| < 256 then |h.sessionId| else 0] + h.sessionId
    + PutU16(h.cipherSuite) + [h.compression] + EncodeTail(h)
  }

  function EncodeHello(h: Hello): Bytes {
    [0x16, 3, 3] + h.recordLen + [2] + h.messageLen + EncodeBody(h)
  }

  predicate ValidHello(h: Hello) {
    && |h.recordLen| == 2
    && |h.messageLen| == 3
    && U24(h.messageLen) <= |EncodeBody(h)|
    && |h.random| == 32 && h.random != RETRY_RANDOM
    && |h.sessionId| <= 32
    && h.cipherSuite < 0x1_0000
    && (h.extensions.None? ==> h.trailer == [])
    && (h.extensions.Some? ==> ValidExtensions(h.extensions.value)
                               && |EncodeExtensions(h.extensions.value)| < 0x1_0000)
  }

  /** The two facts the caller asks for. */
  datatype Parsed = Parsed(cipherSuite: nat, isTls13: bool)

  function Meaning(h: Hello): Parsed {
    Parsed(h.cipherSuite, h.extensions.Some? && SelectsTls13(h.extensions.value))
  }

  /** The part after the compression byte: extensions and trailer, if it is well formed. */
  function ParseTail(s: Bytes): Option<(Option<seq<Extension>>, Bytes)> {
    if s == [] then Some((None, []))
    else if |s| < 2 || |s| - 2 < U16(s[0], s[1]) then None
    else
      var n := U16(s[0], s[1]);
      match ParseExtensions(s[2..2 + n])
      case None => None
      case Some(es) => Some((Some(es), s[2 + n..]))
  }

  /** The whole frame. */
  function ParseFrame(f: Bytes): Option<Hello> {
    if |f| < 47 || f[0] != 0x16 || f[1] != 3 || f[2] != 3 || f[5] != 2 then None
    else if |f| - 9 < U24(f[6..9]) then None
    else if f[9] != 3 || f[10] != 3 || f[11..43] == RETRY_RANDOM then None
    else
      var n := f[43];
      if n > 32 || |f| < 47 + n then None
      else match ParseTail(f[47 + n..])
           case None => None
           case Some((extensions, trailer)) =>
             Some(Hello(f[3..5], f[6..9], f[11..43], f[44..44 + n], U16(f[44 + n], f[45 + n]), f[46 + n],
                        extensions, trailer))
  }

  lemma TailIsSound(s: Bytes, extensions: Option<seq<Extension>>, trailer: Bytes)
    requires ParseTail(s) == Some((extensions, trailer))
    ensures extensions.None? ==> s == [] && trailer == []
    ensures extensions.Some? ==>
              && ValidExtensions(extensions.value)
              && |EncodeExtensions(extensions.value)| < 0x1_0000
              && s == PutU16(|EncodeExtensions(extensions.value)|) + EncodeExtensions(extensions.value) + trailer
  {
    if s != [] {
      var n := U16(s[0], s[1]);
      var block := s[2..2 + n];
      ParsedExtensionsAreValid(block);
      ExtensionsIff(block, extensions.value);
      U16IsInjective(s[0], s[1]);
      TailParts(s, n);
    }
  }

  lemma TailParts(s: Bytes, n: nat)
    requires 2 + n <= |s|
    ensures s == [s[0], s[1]] + s[2..2 + n] + s[2 + n..]
  {
  }

  lemma TailIsComplete(n: Bytes, block: Bytes, es: seq<Extension>, trailer: Bytes)
    requires |n| == 2 && U16(n[0], n[1]) == |block| && ParseExtensions(block) == Some(es)
    ensures ParseTail(n + block + trailer) == Some((Some(es), trailer))
  {
    var s := n + block + trailer;
    assert s[0] == n[0] && s[1] == n[1];
    assert s[2..2 + |block|] == block;
    assert s[2 + |block|..] == trailer;
  }

  /** Whatever the parser accepts is a valid ServerHello with the fields it reports. */
  lemma ParseIsSound(f: Bytes)
    requires ParseFrame(f).Some?
    ensures var h := ParseFrame(f).value;
            ValidHello(h) && EncodeHello(h) == f
  {
    var h := ParseFrame(f).value;
    var n := f[43];
    TailIsSound(f[47 + n..], h.extensions, h.trailer);
    U16IsInjective(f[44 + n], f[45 + n]);
    assert EncodeTail(h) == f[47 + n..];
    SplitBody(f, n);
    assert EncodeBody(h) == f[9..];
    SplitFrame(f);
  }

  lemma SplitFrame(f: Bytes)
    requires |f| >= 9 && f[0] == 0x16 && f[1] == 3 && f[2] == 3 && f[5] == 2
    ensures f == [0x16, 3, 3] + f[3..5] + [2] + f[6..9] + f[9..]
  {
  }

  lemma SplitBody(f: Bytes, n: nat)
    requires |f| >= 47 + n && f[9] == 3 && f[10] == 3
    ensures f[9..] == [3, 3] + f[11..43] + [f[43]] + f[44..44 + n] + [f[44 + n], f[45 + n]] + [f[46 + n]] + f[47 + n..]
  {
  }

  /** Where the pieces of a body lie. */
  lemma BodyLayout(random: Bytes, n: Byte, sid: Bytes, c: Bytes, comp: Byte, tail: Bytes, body: Bytes)
    requires |random| == 32 && |sid| == n && |c| == 2
    requires body == [3, 3] + random + [n] + sid + c + [comp] + tail
    ensures |body| == 38 + n + |tail|
    ensures body[0] == 3 && body[1] == 3 && body[2..34] == random && body[34] == n
    ensures body[35..35 + n] == sid
    ensures body[35 + n] == c[0] && body[36 + n] == c[1] && body[37 + n] == comp
    ensures body[38 + n..] == tail
  {
    var front := [3, 3] + random + [n];
    assert |front| == 35 && front[2..34] == random && front[34] == n;
    assert body == front + (sid + c + [comp] + tail);
    assert body[35..] == sid + (c + [comp] + tail);
  }

  /** Where the pieces of a frame lie. */
  lemma FrameLayout(rl: Bytes, ml: Bytes, body: Bytes, f: Bytes)
    requires |rl| == 2 && |ml| == 3 && f == [0x16, 3, 3] + rl + [2] + ml + body
    ensures |f| == 9 + |body|
    ensures f[0] == 0x16 && f[1] == 3 && f[2] == 3 && f[5] == 2
    ensures f[3..5] == rl && f[6..9] == ml && f[9..] == body
  {
  }

  /** A frame laid out as a ServerHello is parsed field by field. */
  lemma FieldsAreRead(h: Hello, body: Bytes, f: Bytes, n: Byte)
    requires |h.recordLen| == 2 && |h.messageLen| == 3 && U24(h.messageLen) <= |body|
    requires |h.random| == 32 && h.random != RETRY_RANDOM && n == |h.sessionId| <= 32
    requires |body| >= 38 + n && |f| == 9 + |body|
    requires f[0] == 0x16 && f[1] == 3 && f[2] == 3 && f[5] == 2
    requires f[3..5] == h.recordLen && f[6..9] == h.messageLen && f[9..] == body
    requires body[0] == 3 && body[1] == 3 && body[2..34] == h.random && body[34] == n
    requires body[35..35 + n] == h.sessionId && U16(body[35 + n], body[36 + n]) == h.cipherSuite
    requires body[37 + n] == h.compression && ParseTail(body[38 + n..]) == Some((h.extensions, h.trailer))
    ensures ParseFrame(f) == Some(h)
  {
    assert f[9] == body[0] && f[10] == body[1] && f[43] == body[34];
    assert f[11..43] == body[2..34];
    assert f[44..44 + n] == body[35..35 + n];
    assert f[44 + n] == body[35 + n] && f[45 + n] == body[36 + n] && f[46 + n] == body[37 + n];
    assert f[47 + n..] == body[38 + n..];
  }

  lemma EncodedTailIsRead(h: Hello)
    requires ValidHello(h)
    ensures ParseTail(EncodeTail(h)) == Some((h.extensions, h.trailer))
  {
    if h.extensions.Some? {
      var es := h.extensions.value;
      ExtensionsIff(EncodeExtensions(es), es);
      var block := EncodeExtensions(es);
      PutU16Exact(|block|);
      TailIsComplete(PutU16(|block|), block, es, h.trailer);
    }
  }

  /** Every valid ServerHello is accepted with its own fields. */
  lemma ParseIsComplete(h: Hello)
    requires ValidHello(h)
    ensures ParseFrame(EncodeHello(h)) == Some(h)
  {
    var n: Byte, body := |h.sessionId|, EncodeBody(h);
    var c := PutU16(h.cipherSuite);
    PutU16Exact(h.cipherSuite);
    assert body == [3, 3] + h.random + [n] + h.sessionId + c + [h.compression] + EncodeTail(h);
    BodyLayout(h.random, n, h.sessionId, c, h.compression, EncodeTail(h), body);
    FrameLayout(h.recordLen, h.messageLen, body, EncodeHello(h));
    EncodedTailIsRead(h);
    FieldsAreRead(h, body, EncodeHello(h), n);
  }

  /**
    The parser decides the format: it accepts a frame exactly when the frame is the encoding of some
    valid ServerHello, and that ServerHello is the one it reports.
  */
  lemma ParseDecidesFormat(f: Bytes, h: Hello)
    requires ValidHello(h)
    ensures ParseFrame(f) == Some(h) <==> f == EncodeHello(h)
  {
    if ParseFrame(f) == Some(h) {
      ParseIsSound(f);
    }
    if f == EncodeHello(h) {
      ParseIsComplete(h);
    }
  }

  // ---- The cursor-driven parser ----

  lemma {:induction false} SelectsSnoc(es: seq<Extension>, e: Extension)
    ensures SelectsTls13(es + [e]) == if e.kind == SUPPORTED_VERSIONS then e.body == [3, 4] else SelectsTls13(es)
  {
    assert (es + [e])[..|es|] == es;
  }

  /** One turn of the loop: the extension at pos, or an error. */
  method ReadExtension(s: Bytes, pos: nat) returns (r: Option<Extension>)
    requires pos < |s|
    ensures r == FirstExtension(s[pos..])
  {
    if pos + 1 >= |s| {
      return None;
    }
    var kind := U16(s[pos], s[pos + 1]);
    if pos + 3 >= |s| {
      return None;
    }
    var len := U16(s[pos + 2], s[pos + 3]);
    if kind == SUPPORTED_VERSIONS && len != 2 {
      return None;
    }
    if pos + 4 + len > |s| {
      return None;
    }
    assert s[pos..][4..4 + len] == s[pos + 4..pos + 4 + len];
    return Some(Extension(kind, s[pos + 4..pos + 4 + len]));
  }

  /** The loop over an extension block: `Some(isTls13)` or an error. */
  method ScanExtensions(s: Bytes) returns (r: Option<bool>)
    ensures r == match ParseExtensions(s)
                 case None => None
                 case Some(es) => Some(SelectsTls13(es))
  {
    var pos := 0;
    var isTls13 := false;
    ghost var done: seq<Extension> := [];
    assert s[pos..] == s;
    assert ParseExtensions(s).Some? ==> done + ParseExtensions(s).value == ParseExtensions(s).value;
    while pos < |s|
      invariant 0 <= pos <= |s|
      invariant isTls13 == SelectsTls13(done)
      invariant ParseExtensions(s[pos..]).None? ==> ParseExtensions(s).None?
      invariant var rest := ParseExtensions(s[pos..]);
                rest.Some? ==> ParseExtensions(s) == Some(done + rest.value)
    {
      var read := ReadExtension(s, pos);
      if read.None? {
        return None;
      }
      var e := read.value;
      if e.kind == SUPPORTED_VERSIONS {
        isTls13 := e.body == [3, 4];
      }
      ghost var after := s[pos + 4 + |e.body|..];
      assert s[pos..][4 + |e.body|..] == after;
      SelectsSnoc(done, e);
      ExtensionMoves(done, e, ParseExtensions(after));
      done := done + [e];
      pos := pos + 4 + |e.body|;
    }
    assert s[pos..] == [];
    assert done + [] == done;
    return Some(isTls13);
  }

  lemma ExtensionMoves(done: seq<Extension>, e: Extension, rest: Option<seq<Extension>>)
    ensures rest.Some? ==> done + ([e] + rest.value) == done + [e] + rest.value
  {
  }

  /** `parse_server_hello`: the cipher suite and the TLS 1.3 flag, or an error. */
  method ParseServerHello(frame: Bytes) returns (r: Option<Parsed>)
    ensures r == match ParseFrame(frame)
                 case None => None
                 case Some(h) => Some(Meaning(h))
  {
    if |frame| < 47 || frame[0] != 0x16 || frame[1] != 3 || frame[2] != 3 {
      return None;
    }
    var pos := 5;
    if frame[pos] != 2 {
      return None;
    }
    pos := pos + 1;
    var messageLen := U24(frame[pos..pos + 3]);
    pos := pos + 3;
    if |frame| - pos < messageLen {
      return None;
    }
    if frame[pos] != 3 || frame[pos + 1] != 3 {
      return None;
    }
    pos := pos + 2;
    if frame[pos..pos + 32] == RETRY_RANDOM {
      return None;
    }
    pos := pos + 32;
    var sessionIdLen := frame[pos];
    pos := pos + 1;
    if sessionIdLen > 32 || pos + sessionIdLen > |frame| {
      return None;
    }
    pos := pos + sessionIdLen;
    if pos + 1 >= |frame| {
      return None;
    }
    var cipherSuite := U16(frame[pos], frame[pos + 1]);
    pos := pos + 2;
    if pos + 1 > |frame| {
      return None;
    }
    pos := pos + 1;
    var tail := frame[pos..];
    var scanned := ScanTail(tail);
    if scanned.None? {
      return None;
    }
    return Some(Parsed(cipherSuite, scanned.value));
  }

  /** The optional extension block with its length. */
  method ScanTail(tail: Bytes) returns (r: Option<bool>)
    ensures r == match ParseTail(tail)
                 case None => None
                 case Some((extensions, _)) => Some(extensions.Some? && SelectsTls13(extensions.value))
  {
    if tail == [] {
      return Some(false);
    }
    if |tail| < 2 || |tail| - 2 < U16(tail[0], tail[1]) {
      return None;
    }
    r := ScanExtensions(tail[2..2 + U16(tail[0], tail[1])]);
  }
}
