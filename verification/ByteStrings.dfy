/** Bytes, byte strings and lists of byte strings, shared by every protocol module. */
module ByteStrings {

  type Byte = b: int | 0 <= b < 256

  type Bytes = seq<Byte>

  datatype Option<+T> = None | Some(value: T)

  /** The value of two bytes read in network order. */
  function U16(hi: Byte, lo: Byte): nat {
    hi * 256 + lo
  }

  /** The upper of the two bytes of `n as u16`, and the lower one, told without division. */
  function HighByte(n: nat): Byte {
    if n < 256 then 0
    else
      var h := HighByte(n - 256);
      if h == 255 then 0 else h + 1
  }

  function LowByte(n: nat): Byte {
    if n < 256 then n else LowByte(n - 256)
  }

  /** The two bytes of `n as u16` in network order. */
  function PutU16(n: nat): (s: Bytes)
    ensures |s| == 2
  {
    [HighByte(n), LowByte(n)]
  }

  lemma {:induction false} PutU16Exact(n: nat)
    requires n < 0x1_0000
    ensures U16(PutU16(n)[0], PutU16(n)[1]) == n
  {
    if n >= 256 {
      PutU16Exact(n - 256);
    }
  }

  /** Adding 256 j raises the upper byte by j, wrapping around, and leaves the lower one. */
  lemma {:induction false} BytesShift(n: nat, j: nat)
    requires j <= 256
    ensures HighByte(n + 256 * j) == if HighByte(n) + j < 256 then HighByte(n) + j else HighByte(n) + j - 256
    ensures LowByte(n + 256 * j) == LowByte(n)
  {
    if j > 0 {
      BytesShift(n, j - 1);
      assert n + 256 * j - 256 == n + 256 * (j - 1);
    }
  }

  lemma BytesRepeat(m: nat)
    ensures HighByte(m + 0x1_0000) == HighByte(m) && LowByte(m + 0x1_0000) == LowByte(m)
  {
    BytesShift(m, 256);
  }

  lemma ModRepeats(m: nat)
    ensures (m + 0x1_0000) % 0x1_0000 == m % 0x1_0000
  {
  }

  /** Writing reduces the value modulo 2^16. */
  lemma {:induction false} PutU16Truncates(n: nat)
    ensures U16(PutU16(n)[0], PutU16(n)[1]) == n % 0x1_0000
  {
    if n < 0x1_0000 {
      PutU16Exact(n);
    } else {
      var m := n - 0x1_0000;
      BytesRepeat(m);
      PutU16Truncates(m);
      ModRepeats(m);
    }
  }

  /** Concatenation is associative; stated once because the verifier does not find it by itself. */
  lemma Assoc<T>(a: seq<T>, b: seq<T>, c: seq<T>)
    ensures a + (b + c) == a + b + c
  {
  }

  /** Concatenation of a list of chunks. */
  function Flatten(chunks: seq<Bytes>): Bytes {
    if chunks == [] then [] else chunks[0] + Flatten(chunks[1..])
  }

  lemma {:induction false} FlattenSnoc(chunks: seq<Bytes>, c: Bytes)
    ensures Flatten(chunks + [c]) == Flatten(chunks) + c
  {
    if chunks == [] {
      assert [c][1..] == [];
    } else {
      FlattenSnoc(chunks[1..], c);
      Assoc(chunks[0], Flatten(chunks[1..]), c);
      assert (chunks + [c])[1..] == chunks[1..] + [c];
    }
  }

  lemma {:induction false} FlattenAppend(a: seq<Bytes>, b: seq<Bytes>)
    ensures Flatten(a + b) == Flatten(a) + Flatten(b)
  {
    if a == [] {
      assert a + b == b;
    } else {
      FlattenAppend(a[1..], b);
      Assoc(a[0], Flatten(a[1..]), Flatten(b));
      assert (a + b)[1..] == a[1..] + b;
    }
  }
}
