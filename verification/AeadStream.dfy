/**
  Shadowsocks AEAD chunk framing (prototype/shadowsocks/src/aead2017.rs): length and payload sealed
  under consecutive nonces of a 12-byte little-endian counter. The cipher itself is abstract.
*/
module AeadStreaming {
  import opened ByteStrings

  const NONCE_SIZE := 12
  const TAG_SIZE := 16
  const CHUNK_LIMIT := 0x3fff
  const SALT_SIZE := 32
  const LENGTH_SIZE := 2 + TAG_SIZE

  // ---- The nonce counter ----

  /** The little-endian value of a byte string. */
  function Value(n: Bytes): (v: nat) {
    if n == [] then 0 else n[0] as nat + 256 * Value(n[1..])
  }

  function Power(k: nat): (p: nat)
    ensures p > 0
  {
    if k == 0 then 1 else 256 * Power(k - 1)
  }

  lemma {:induction false} ValueIsBounded(n: Bytes)
    ensures Value(n) < Power(|n|)
  {
    if n != [] {
      ValueIsBounded(n[1..]);
    }
  }

  lemma {:induction false} ValueIsInjective(m: Bytes, n: Bytes)
    requires |m| == |n| && Value(m) == Value(n)
    ensures m == n
  {
    if m != [] {
      ValueIsInjective(m[1..], n[1..]);
      assert m == [m[0]] + m[1..] && n == [n[0]] + n[1..];
    }
  }

  /** The carry chain of `increment_nonce`. */
  function Incremented(n: Bytes): (r: Bytes)
    ensures |r| == |n|
  {
    if n == [] then []
    else if n[0] == 255 then [0] + Incremented(n[1..])
    else [n[0] + 1] + n[1..]
  }

  /** Incrementing adds one modulo 256 to the number of bytes. */
  lemma {:induction false} IncrementAddsOne(n: Bytes)
    ensures Value(Incremented(n)) == if Value(n) + 1 == Power(|n|) then 0 else Value(n) + 1
  {
    if n != [] {
      ValueIsBounded(n[1..]);
      var r := Incremented(n);
      if n[0] == 255 {
        IncrementAddsOne(n[1..]);
        assert r[1..] == Incremented(n[1..]);
      } else {
        assert r[1..] == n[1..];
      }
    }
  }

  function Zeros(k: nat): (r: Bytes)
    ensures |r| == k
    ensures forall i :: 0 <= i < k ==> r[i] == 0
  {
    seq(k, i => 0)
  }

  /** Leading bytes of 255 become zero and the carry goes on behind them. */
  lemma {:induction false} CarryPassesOnes(n: Bytes, i: nat)
    requires i <= |n| && forall k :: 0 <= k < i ==> n[k] == 255
    ensures Incremented(n) == Zeros(i) + Incremented(n[i..])
  {
    if i == 0 {
      assert n[0..] == n && Zeros(0) == [];
    } else {
      CarryPassesOnes(n[1..], i - 1);
      assert n[1..][i - 1..] == n[i..];
      Assoc([0], Zeros(i - 1), Incremented(n[i..]));
      assert [0] + Zeros(i - 1) == Zeros(i);
    }
  }

  method IncrementNonce(nonce: array<Byte>)
    modifies nonce
    ensures nonce[..] == Incremented(old(nonce[..]))
  {
    ghost var was := nonce[..];
    for i := 0 to nonce.Length
      invariant forall k :: 0 <= k < i ==> was[k] == 255 && nonce[k] == 0
      invariant forall k :: i <= k < nonce.Length ==> nonce[k] == was[k]
    {
      var carry := nonce[i] == 255;
      nonce[i] := if carry then 0 else nonce[i] + 1;
      if !carry {
        CarryPassesOnes(was, i);
        assert Incremented(was[i..]) == [was[i] + 1] + was[i + 1..];
        return;
      }
    }
    CarryPassesOnes(was, nonce.Length);
  }

  lemma {:induction false} ZerosValue(k: nat)
    ensures Value(Zeros(k)) == 0
  {
    if k > 0 {
      ZerosValue(k - 1);
      assert Zeros(k)[1..] == Zeros(k - 1);
    }
  }

  /** The nonce after a number of increments of a fresh stream. */
  function NonceAt(i: nat): (r: Bytes)
    ensures |r| == NONCE_SIZE
  {
    if i == 0 then Zeros(NONCE_SIZE) else Incremented(NonceAt(i - 1))
  }

  /** The counter's period is 2 to the 96. */
  lemma Period()
    ensures Power(NONCE_SIZE) == 0x1_0000_0000_0000_0000_0000_0000
  {
    assert Power(3) == 0x100_0000 && Power(6) == 0x1_0000_0000_0000;
    assert Power(9) == 0x100_0000_0000_0000_0000;
  }

  lemma {:induction false} NonceCounts(i: nat)
    requires i < 0x1_0000_0000_0000_0000_0000_0000
    ensures Value(NonceAt(i)) == i
  {
    if i == 0 {
      ZerosValue(NONCE_SIZE);
    } else {
      NonceCounts(i - 1);
      IncrementAddsOne(NonceAt(i - 1));
      Period();
    }
  }

  /** No nonce is used twice within the first 2 to the 96 seals, and the next one is the first again. */
  lemma NoncesAreDistinct(i: nat, j: nat)
    requires i < j < 0x1_0000_0000_0000_0000_0000_0000
    ensures NonceAt(i) != NonceAt(j)
    ensures NonceAt(0x1_0000_0000_0000_0000_0000_0000) == NonceAt(0)
  {
    NonceCounts(i);
    NonceCounts(j);
    var last := 0xffff_ffff_ffff_ffff_ffff_ffff;
    NonceCounts(last);
    IncrementAddsOne(NonceAt(last));
    Period();
    ZerosValue(NONCE_SIZE);
    ValueIsInjective(Incremented(NonceAt(last)), Zeros(NONCE_SIZE));
  }

  // ---- Chunks ----

  /** The cipher under one subkey: seal and unseal, each given a nonce. */
  datatype Aead = Aead(seal: (Bytes, Bytes) -> Bytes, unseal: (Bytes, Bytes) -> Option<Bytes>)

  /** What is assumed of the cipher: a tag is added, and unsealing inverts sealing under an equal nonce. */
  ghost predicate Inverts(a: Aead) {
    forall n: Bytes, p: Bytes :: |a.seal(n, p)| == |p| + TAG_SIZE && a.unseal(n, a.seal(n, p)) == Some(p)
  }

  datatype Fault = ChunkTooLong | SaltCut | UnsealFailed | BadLengthChunk | SizeOverLimit | PayloadCut

  /** One answer of `decrypt_chunk`: the end of input, a payload, or an error. */
  datatype Chunk = End | Payload(bytes: Bytes) | Failed(fault: Fault)

  datatype Opened = Opened(chunk: Chunk, used: nat, rest: Bytes)

  /** The wire form of a chunk sealed when `used` nonces are spent. */
  function SealChunk(a: Aead, used: nat, payload: Bytes): Bytes {
    a.seal(NonceAt(used), PutU16(|payload|)) + a.seal(NonceAt(used + 1), payload)
  }

  function SealAll(a: Aead, used: nat, payloads: seq<Bytes>): Bytes
    decreases |payloads|
  {
    if payloads == [] then [] else SealChunk(a, used, payloads[0]) + SealAll(a, used + 2, payloads[1..])
  }

  function OpenPayload(a: Aead, used: nat, size: nat, input: Bytes): (r: Opened)
    ensures r.chunk.Payload? ==> |r.rest| < |input|
  {
    if size > CHUNK_LIMIT then Opened(Failed(SizeOverLimit), used, input)
    else if |input| < size + TAG_SIZE then Opened(Failed(PayloadCut), used, [])
    else
      var rest := input[size + TAG_SIZE..];
      match a.unseal(NonceAt(used), input[..size + TAG_SIZE])
      case None => Opened(Failed(UnsealFailed), used, rest)
      case Some(p) => Opened(Payload(p), used + 1, rest)
  }

  /** One chunk read off the input: an input that ends inside the length part is a clean end. */
  function OpenChunk(a: Aead, used: nat, input: Bytes): (r: Opened)
    ensures r.chunk.Payload? ==> |r.rest| < |input|
  {
    if |input| < LENGTH_SIZE then Opened(End, used, [])
    else
      var rest := input[LENGTH_SIZE..];
      match a.unseal(NonceAt(used), input[..LENGTH_SIZE])
      case None => Opened(Failed(UnsealFailed), used, rest)
      case Some(length) =>
        if |length| != 2 then Opened(Failed(BadLengthChunk), used + 1, rest)
        else OpenPayload(a, used + 1, U16(length[0], length[1]), rest)
  }

  /** The payloads of an input read to its end or first error, and how the reading ends. */
  function OpenAll(a: Aead, used: nat, input: Bytes): (r: (seq<Bytes>, Chunk))
    ensures !r.1.Payload?
    decreases |input|
  {
    var o := OpenChunk(a, used, input);
    if o.chunk.Payload? then
      var (payloads, end) := OpenAll(a, o.used, o.rest);
      ([o.chunk.bytes] + payloads, end)
    else ([], o.chunk)
  }

  lemma OpenSealed(a: Aead, used: nat, payload: Bytes, tail: Bytes)
    requires Inverts(a) && |payload| <= CHUNK_LIMIT
    ensures OpenChunk(a, used, SealChunk(a, used, payload) + tail) == Opened(Payload(payload), used + 2, tail)
  {
    var l, p := a.seal(NonceAt(used), PutU16(|payload|)), a.seal(NonceAt(used + 1), payload);
    Assoc(l, p, tail);
    var input := l + (p + tail);
    assert input[..LENGTH_SIZE] == l && input[LENGTH_SIZE..] == p + tail;
    assert (p + tail)[..|payload| + TAG_SIZE] == p && (p + tail)[|payload| + TAG_SIZE..] == tail;
    PutU16Exact(|payload|);
  }

  lemma OpenStep(a: Aead, used: nat, c: Bytes, more: Bytes, tail: Bytes, payloads: seq<Bytes>, after: (seq<Bytes>, Chunk))
    requires payloads != []
    requires OpenChunk(a, used, c + (more + tail)) == Opened(Payload(payloads[0]), used + 2, more + tail)
    requires OpenAll(a, used + 2, more + tail) == (payloads[1..] + after.0, after.1)
    ensures OpenAll(a, used, c + more + tail) == (payloads + after.0, after.1)
  {
    Assoc(c, more, tail);
    Assoc([payloads[0]], payloads[1..], after.0);
    assert [payloads[0]] + payloads[1..] == payloads;
  }

  lemma OpenCut(a: Aead, used: nat, payload: Bytes, cut: nat)
    requires Inverts(a) && |payload| <= CHUNK_LIMIT && cut < |SealChunk(a, used, payload)|
    ensures OpenAll(a, used, SealChunk(a, used, payload)[..cut])
         == ([], if cut < LENGTH_SIZE then End else Failed(PayloadCut))
  {
    var tail := SealChunk(a, used, payload)[..cut];
    if cut >= LENGTH_SIZE {
      assert tail[..LENGTH_SIZE] == a.seal(NonceAt(used), PutU16(|payload|));
      PutU16Exact(|payload|);
      assert |a.seal(NonceAt(used + 1), payload)| == |payload| + TAG_SIZE;
    }
  }

  /** Reading any number of sealed chunks returns their payloads in order and goes on with what follows. */
  lemma {:induction false} OpenAllSealed(a: Aead, used: nat, payloads: seq<Bytes>, tail: Bytes, next: nat)
    requires next == used + 2 * |payloads|
    requires Inverts(a) && forall i :: 0 <= i < |payloads| ==> |payloads[i]| <= CHUNK_LIMIT
    ensures OpenAll(a, used, SealAll(a, used, payloads) + tail)
         == (payloads + OpenAll(a, next, tail).0, OpenAll(a, next, tail).1)
    decreases |payloads|
  {
    if payloads == [] {
      assert SealAll(a, used, payloads) + tail == tail;
      assert payloads + OpenAll(a, used, tail).0 == OpenAll(a, used, tail).0;
    } else {
      var c, more := SealChunk(a, used, payloads[0]), SealAll(a, used + 2, payloads[1..]);
      OpenAllSealed(a, used + 2, payloads[1..], tail, next);
      OpenSealed(a, used, payloads[0], more + tail);
      assert SealAll(a, used, payloads) == c + more;
      OpenStep(a, used, c, more, tail, payloads, OpenAll(a, next, tail));
    }
  }

  /**
    A stream cut anywhere inside the chunk after `payloads` still yields exactly those payloads. The cut
    goes unnoticed if and only if it falls within the 18 bytes of the sealed length.
  */
  lemma CutStreamKeepsWholeChunks(a: Aead, used: nat, payloads: seq<Bytes>, next: nat, last: Bytes, cut: nat)
    requires Inverts(a) && |last| <= CHUNK_LIMIT && next == used + 2 * |payloads|
    requires forall i :: 0 <= i < |payloads| ==> |payloads[i]| <= CHUNK_LIMIT
    requires cut < |SealChunk(a, next, last)|
    ensures OpenAll(a, used, SealAll(a, used, payloads) + SealChunk(a, next, last)[..cut])
         == (payloads, if cut < LENGTH_SIZE then End else Failed(PayloadCut))
  {
    OpenCut(a, next, last, cut);
    OpenAllSealed(a, used, payloads, SealChunk(a, next, last)[..cut], next);
    assert payloads + [] == payloads;
  }

  lemma {:induction false} SealAllAppend(a: Aead, used: nat, payloads: seq<Bytes>, last: Bytes)
    ensures SealAll(a, used, payloads + [last]) == SealAll(a, used, payloads) + SealChunk(a, used + 2 * |payloads|, last)
    decreases |payloads|
  {
    if payloads == [] {
      assert [last][1..] == [];
    } else {
      SealAllAppend(a, used + 2, payloads[1..], last);
      assert (payloads + [last])[1..] == payloads[1..] + [last];
      Assoc(SealChunk(a, used, payloads[0]), SealAll(a, used + 2, payloads[1..]),
            SealChunk(a, used + 2 * |payloads|, last));
    }
  }

  // ---- The stream ----

  class AeadStream {
    const cipher: Aead
    const nonce: array<Byte>
    ghost var used: nat

    /** The nonce is the counter's value after as many increments as nonces were used. */
    ghost predicate Valid()
      reads this, nonce
    {
      nonce[..] == NonceAt(used)
    }

    constructor (cipher: Aead)
      ensures Valid() && used == 0 && this.cipher == cipher && fresh(nonce)
    {
      this.cipher := cipher;
      nonce := new Byte[NONCE_SIZE](i => 0);
      used := 0;
      new;
      assert nonce[..] == Zeros(NONCE_SIZE);
    }

    method Encrypt(plaintext: Bytes) returns (sealed: Bytes)
      requires Valid()
      modifies this, nonce
      ensures Valid() && used == old(used) + 1
      ensures sealed == cipher.seal(NonceAt(old(used)), plaintext)
    {
      sealed := cipher.seal(nonce[..], plaintext);
      IncrementNonce(nonce);
      used := used + 1;
    }

    /** A failed unsealing does not use up its nonce. */
    method Decrypt(ciphertext: Bytes) returns (plaintext: Option<Bytes>)
      requires Valid()
      modifies this, nonce
      ensures Valid() && used == if plaintext.Some? then old(used) + 1 else old(used)
      ensures plaintext == cipher.unseal(NonceAt(old(used)), ciphertext)
    {
      plaintext := cipher.unseal(nonce[..], ciphertext);
      if plaintext.Some? {
        IncrementNonce(nonce);
        used := used + 1;
      }
    }

    /** Refuses an over-long payload before touching the nonce or the output. */
    method EncryptChunk(payload: Bytes, out: Bytes) returns (r: Bytes, fault: Option<Fault>)
      requires Valid()
      modifies this, nonce
      ensures Valid()
      ensures if |payload| > CHUNK_LIMIT then fault == Some(ChunkTooLong) && r == out && used == old(used)
              else fault == None && r == out + SealChunk(cipher, old(used), payload) && used == old(used) + 2
    {
      if |payload| > CHUNK_LIMIT {
        return out, Some(ChunkTooLong);
      }
      var length := Encrypt(PutU16(|payload|));
      var body := Encrypt(payload);
      Assoc(out, length, body);
      return out + length + body, None;
    }

    method DecryptChunk(input: Bytes) returns (chunk: Chunk, rest: Bytes)
      requires Valid()
      modifies this, nonce
      ensures Valid() && Opened(chunk, used, rest) == OpenChunk(cipher, old(used), input)
    {
      if |input| < LENGTH_SIZE {
        return End, [];
      }
      rest := input[LENGTH_SIZE..];
      var length := Decrypt(input[..LENGTH_SIZE]);
      if length.None? {
        return Failed(UnsealFailed), rest;
      }
      if |length.value| != 2 {
        return Failed(BadLengthChunk), rest;
      }
      var size := U16(length.value[0], length.value[1]);
      if size > CHUNK_LIMIT {
        return Failed(SizeOverLimit), rest;
      }
      if |rest| < size + TAG_SIZE {
        return Failed(PayloadCut), [];
      }
      var payload := Decrypt(rest[..size + TAG_SIZE]);
      rest := rest[size + TAG_SIZE..];
      return if payload.None? then Failed(UnsealFailed) else Payload(payload.value), rest;
    }
  }

  /** The target header, then every block read from the client, one chunk each. */
  method SendBlocks(writer: AeadStream, header: Bytes, blocks: seq<Bytes>)
    returns (wire: Bytes, count: nat, fault: Option<Fault>)
    requires writer.Valid()
    requires forall i :: 0 <= i < |blocks| ==> 0 < |blocks[i]| <= CHUNK_LIMIT
    modifies writer, writer.nonce
    ensures writer.Valid()
    ensures if |header| > CHUNK_LIMIT then fault == Some(ChunkTooLong) && wire == [] && count == 0
            else fault == None && wire == SealAll(writer.cipher, old(writer.used), [header] + blocks)
                 && count == |Flatten(blocks)|
  {
    count := 0;
    wire, fault := writer.EncryptChunk(header, []);
    if fault.Some? {
      return;
    }
    ghost var a, start := writer.cipher, old(writer.used);
    assert [] + SealChunk(a, start, header) == SealChunk(a, start, header) + [];
    assert [header] + blocks[..0] == [header];
    assert SealAll(a, start + 2, [header][1..]) == [];
    for i := 0 to |blocks|
      invariant writer.Valid() && fault == None && writer.used == start + 2 * (i + 1)
      invariant wire == SealAll(a, start, [header] + blocks[..i])
      invariant count == |Flatten(blocks[..i])|
    {
      assert blocks[..i + 1] == blocks[..i] + [blocks[i]];
      Assoc([header], blocks[..i], [blocks[i]]);
      SealAllAppend(a, start, [header] + blocks[..i], blocks[i]);
      FlattenSnoc(blocks[..i], blocks[i]);
      count := count + |blocks[i]|;
      wire, fault := writer.EncryptChunk(blocks[i], wire);
    }
    assert blocks[..|blocks|] == blocks;
  }

  /** Payloads are written to the client until the input ends or fails. */
  method ReceivePayloads(reader: AeadStream, input: Bytes) returns (written: Bytes, count: nat, end: Chunk)
    requires reader.Valid()
    modifies reader, reader.nonce
    ensures reader.Valid() && count == |written|
    ensures written == Flatten(OpenAll(reader.cipher, old(reader.used), input).0)
    ensures end == OpenAll(reader.cipher, old(reader.used), input).1
  {
    ghost var a := reader.cipher;
    ghost var whole := OpenAll(a, reader.used, input);
    ghost var payloads: seq<Bytes> := [];
    var rest := input;
    written, count := [], 0;
    assert whole.0 == payloads + OpenAll(a, reader.used, rest).0;
    while true
      invariant reader.Valid() && written == Flatten(payloads) && count == |written|
      invariant whole.0 == payloads + OpenAll(a, reader.used, rest).0
      invariant whole.1 == OpenAll(a, reader.used, rest).1
      decreases |rest|
    {
      ghost var o := OpenChunk(a, reader.used, rest);
      end, rest := reader.DecryptChunk(rest);
      if !end.Payload? {
        assert whole.0 == payloads;
        return;
      }
      Assoc(payloads, [end.bytes], OpenAll(a, o.used, o.rest).0);
      FlattenSnoc(payloads, end.bytes);
      payloads := payloads + [end.bytes];
      written := written + end.bytes;
      count := count + |end.bytes|;
    }
  }

  // ---- The relay ----

  /** The cipher under the subkey derived from a salt. */
  type Keyed = Bytes -> Aead

  /** A stream on the wire: the salt in the clear, then the chunks. */
  function SealStream(keyed: Keyed, salt: Bytes, payloads: seq<Bytes>): Bytes {
    salt + SealAll(keyed(salt), 0, payloads)
  }

  function OpenStream(keyed: Keyed, input: Bytes): (seq<Bytes>, Chunk) {
    if |input| < SALT_SIZE then ([], Failed(SaltCut)) else OpenAll(keyed(input[..SALT_SIZE]), 0, input[SALT_SIZE..])
  }

  /** The relay's sending half, with a salt drawn for the stream; nothing is written if the header is too long. */
  method RelayToUpstream(keyed: Keyed, salt: Bytes, header: Bytes, blocks: seq<Bytes>)
    returns (wire: Bytes, count: nat, fault: Option<Fault>)
    requires |salt| == SALT_SIZE && forall i :: 0 <= i < |blocks| ==> 0 < |blocks[i]| <= CHUNK_LIMIT
    ensures if |header| > CHUNK_LIMIT then fault == Some(ChunkTooLong) && wire == [] && count == 0
            else fault == None && wire == SealStream(keyed, salt, [header] + blocks) && count == |Flatten(blocks)|
  {
    var writer := new AeadStream(keyed(salt));
    wire, count, fault := SendBlocks(writer, header, blocks);
    if fault.None? {
      wire := salt + wire;
    }
  }

  /** The relay's receiving half: the salt is read first, and an input that ends before it is an error. */
  method RelayToClient(keyed: Keyed, input: Bytes) returns (written: Bytes, count: nat, end: Chunk)
    ensures written == Flatten(OpenStream(keyed, input).0) && count == |written| && end == OpenStream(keyed, input).1
  {
    if |input| < SALT_SIZE {
      return [], 0, Failed(SaltCut);
    }
    var reader := new AeadStream(keyed(input[..SALT_SIZE]));
    written, count, end := ReceivePayloads(reader, input[SALT_SIZE..]);
  }

  /** What one side's sending half writes, the other side's receiving half turns back into the header and the data. */
  lemma RelayRoundTrip(keyed: Keyed, salt: Bytes, header: Bytes, blocks: seq<Bytes>)
    requires |salt| == SALT_SIZE && Inverts(keyed(salt)) && |header| <= CHUNK_LIMIT
    requires forall i :: 0 <= i < |blocks| ==> |blocks[i]| <= CHUNK_LIMIT
    ensures OpenStream(keyed, SealStream(keyed, salt, [header] + blocks)) == ([header] + blocks, End)
    ensures Flatten([header] + blocks) == header + Flatten(blocks)
  {
    var a, ps := keyed(salt), [header] + blocks;
    var wire := SealStream(keyed, salt, ps);
    assert wire[..SALT_SIZE] == salt && wire[SALT_SIZE..] == SealAll(a, 0, ps);
    ChunksRoundTrip(a, ps);
    assert ps[1..] == blocks;
  }

  lemma ChunksRoundTrip(a: Aead, ps: seq<Bytes>)
    requires Inverts(a) && forall i :: 0 <= i < |ps| ==> |ps[i]| <= CHUNK_LIMIT
    ensures OpenAll(a, 0, SealAll(a, 0, ps)) == (ps, End)
  {
    OpenAllSealed(a, 0, ps, [], 2 * |ps|);
    assert SealAll(a, 0, ps) + [] == SealAll(a, 0, ps);
    assert OpenAll(a, 2 * |ps|, []) == ([], End);
    assert ps + [] == ps;
  }
}
