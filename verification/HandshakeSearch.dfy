/**
  Search for the start of an inner TLS handshake (prototype/vless/src/tls_handshake_util.rs).

  The six-byte pattern is 16 03 (01|02|03) ? ? (01|02).
*/
module HandshakeSearch {
  import opened ByteStrings

  const PATTERN_LEN: nat := 6

  /** The complete pattern starts at offset i. */
  predicate MatchAt(s: Bytes, i: nat) {
    && i + PATTERN_LEN <= |s|
    && s[i] == 0x16
    && s[i + 1] == 3
    && 1 <= s[i + 2] <= 3
    && (s[i + 5] == 1 || s[i + 5] == 2)
  }

  /** The test of the source for data that may still grow into the pattern. */
  predicate IsHandshakePrefix(s: Bytes) {
    && (|s| >= 1 ==> s[0] == 0x16)
    && (|s| >= 2 ==> s[1] == 3)
    && (|s| >= 3 ==> 1 <= s[2] <= 3)
  }

  /** For up to five bytes the test is exact: some continuation completes the pattern at offset 0. */
  lemma PrefixMeansCompletable(s: Bytes)
    requires |s| < PATTERN_LEN
    ensures IsHandshakePrefix(s) <==> exists t: Bytes :: MatchAt(s + t, 0)
  {
    if IsHandshakePrefix(s) {
      var whole: Bytes := [0x16, 3, 1, 0, 0, 1];
      var t := whole[|s|..];
      assert MatchAt(s + t, 0) || |s| >= 3;
      if |s| >= 3 {
        assert (s + t)[5] == 1;
        assert MatchAt(s + t, 0);
      }
    }
    if t: Bytes :| MatchAt(s + t, 0) {
      assert forall i :: 0 <= i < |s| ==> (s + t)[i] == s[i];
    }
  }

  predicate NoMatchBefore(s: Bytes, n: nat) {
    forall i: nat :: i < n ==> !MatchAt(s, i)
  }

  predicate FirstMatch(s: Bytes, i: nat) {
    MatchAt(s, i) && NoMatchBefore(s, i)
  }

  predicate NoMatch(s: Bytes) {
    NoMatchBefore(s, |s|)
  }

  /** The first offset at or after `from` holding the two bytes 16 03. */
  method FindPair(data: Bytes, from: nat) returns (r: Option<nat>)
    requires from <= |data|
    ensures r.Some? ==> from <= r.value && r.value + 1 < |data| && data[r.value] == 0x16 && data[r.value + 1] == 3
    ensures forall i: nat :: from <= i && i + 1 < |data| && (r.None? || i < r.value)
                             ==> !(data[i] == 0x16 && data[i + 1] == 3)
  {
    var pos := from;
    while pos + 1 < |data|
      invariant from <= pos <= |data|
      invariant forall i: nat :: from <= i < pos && i + 1 < |data| ==> !(data[i] == 0x16 && data[i + 1] == 3)
    {
      if data[pos] == 0x16 && data[pos + 1] == 3 {
        return Some(pos);
      }
      pos := pos + 1;
    }
    return None;
  }

  method FindHandshakeStart(data: Bytes) returns (r: Option<nat>)
    ensures r.Some? ==> FirstMatch(data, r.value)
    ensures r.None? ==> NoMatch(data)
  {
    if |data| < PATTERN_LEN {
      return None;
    }
    var pos := 0;
    while true
      invariant pos <= |data|
      invariant NoMatchBefore(data, pos)
      decreases |data| - pos
    {
      var found := FindPair(data, pos);
      if found.None? {
        return None;
      }
      var offset := found.value;
      if offset + PATTERN_LEN > |data| {
        return None;
      }
      if 1 <= data[offset + 2] <= 3 && (data[offset + 5] == 1 || data[offset + 5] == 2) {
        return Some(offset);
      }
      pos := offset + 1;
    }
  }

  /** The last j bytes. */
  function Last(s: Bytes, j: nat): Bytes
    requires j <= |s|
  {
    s[|s| - j..]
  }

  /** k is the length of the longest suffix of at most five bytes that may grow into the pattern. */
  predicate IsPotentialSuffix(s: Bytes, k: nat) {
    && k <= |s|
    && k < PATTERN_LEN
    && IsHandshakePrefix(Last(s, k))
    && forall j: nat :: k < j <= |s| && j < PATTERN_LEN ==> !IsHandshakePrefix(Last(s, j))
  }

  method FindPotentialSuffixLen(data: Bytes) returns (k: nat)
    ensures IsPotentialSuffix(data, k)
  {
    if |data| == 0 {
      return 0;
    }
    var suffixLen := if |data| < 5 then |data| else 5;
    while suffixLen >= 1
      invariant 0 <= suffixLen <= |data| && suffixLen <= 5
      invariant forall j: nat :: suffixLen < j <= |data| && j < PATTERN_LEN ==> !IsHandshakePrefix(Last(data, j))
    {
      if IsHandshakePrefix(Last(data, suffixLen)) {
        return suffixLen;
      }
      suffixLen := suffixLen - 1;
    }
    return 0;
  }

  /** The longest suffix as a function, so that specifications can name it. */
  function SuffixFrom(s: Bytes, k: nat): (r: nat)
    requires k <= |s| && k < PATTERN_LEN
    requires forall j: nat :: k < j <= |s| && j < PATTERN_LEN ==> !IsHandshakePrefix(Last(s, j))
    ensures IsPotentialSuffix(s, r)
  {
    if k == 0 || IsHandshakePrefix(Last(s, k)) then k else SuffixFrom(s, k - 1)
  }

  function PotentialSuffixLen(s: Bytes): (k: nat)
    ensures IsPotentialSuffix(s, k)
  {
    SuffixFrom(s, if |s| < 5 then |s| else 5)
  }

  lemma PotentialSuffixIsUnique(s: Bytes, k: nat)
    requires IsPotentialSuffix(s, k)
    ensures k == PotentialSuffixLen(s)
  {
  }

  /** A short handshake prefix is kept whole. */
  lemma ShortPrefixIsKept(s: Bytes)
    requires |s| < PATTERN_LEN && IsHandshakePrefix(s)
    ensures PotentialSuffixLen(s) == |s| && NoMatch(s)
  {
    assert Last(s, |s|) == s;
    PotentialSuffixIsUnique(s, |s|);
  }

  /** The least match offset as a function, so that specifications can name it. */
  function FindFrom(s: Bytes, i: nat): (r: Option<nat>)
    requires i <= |s| && NoMatchBefore(s, i)
    ensures r.Some? ==> FirstMatch(s, r.value)
    ensures r.None? ==> NoMatch(s)
    decreases |s| - i
  {
    if i == |s| then None
    else if MatchAt(s, i) then Some(i)
    else FindFrom(s, i + 1)
  }

  function HandshakeStart(s: Bytes): (r: Option<nat>)
    ensures r.Some? ==> FirstMatch(s, r.value)
    ensures r.None? ==> NoMatch(s)
  {
    FindFrom(s, 0)
  }

  lemma HandshakeStartIsUnique(s: Bytes, r: Option<nat>)
    requires r.Some? ==> FirstMatch(s, r.value)
    requires r.None? ==> NoMatch(s)
    ensures r == HandshakeStart(s)
  {
    var h := HandshakeStart(s);
    if r.Some? && h.Some? {
      assert !(r.value < h.value) && !(h.value < r.value);
    }
  }

  /** Whether a match begins inside the first part does not depend on what lies before it. */
  lemma MatchShift(p: Bytes, s: Bytes, i: nat)
    ensures MatchAt(p + s, |p| + i) <==> MatchAt(s, i)
  {
    if i + PATTERN_LEN <= |s| {
      assert (p + s)[|p|..] == s;
    }
  }

  /** A match needs only its own six bytes. */
  lemma MatchExtends(s: Bytes, t: Bytes, i: nat)
    requires i + PATTERN_LEN <= |s|
    ensures MatchAt(s + t, i) <==> MatchAt(s, i)
  {
  }

  /** A match that begins in s but ends beyond it leaves a handshake prefix at the end of s. */
  lemma MatchLeavesPrefix(s: Bytes, t: Bytes, i: nat)
    requires i <= |s|
    ensures MatchAt(s + t, i) ==> IsHandshakePrefix(Last(s, |s| - i))
  {
  }

  /** The bytes before offset n can never start a match, whatever is appended. */
  ghost predicate Hopeless(s: Bytes, n: nat) {
    forall t: Bytes, i: nat :: i < n ==> !MatchAt(s + t, i)
  }

  /**
    The bytes before the potential suffix are exactly the ones that can be released: none of them
    can ever start a handshake, and one byte more could be the start of one.
  */
  lemma ReleaseIsExact(s: Bytes, k: nat)
    requires NoMatch(s)
    requires IsPotentialSuffix(s, k)
    ensures Hopeless(s, |s| - k)
    ensures k > 0 ==> !Hopeless(s, |s| - k + 1)
  {
    forall t: Bytes, i: nat | i < |s| - k
      ensures !MatchAt(s + t, i)
    {
      if i + PATTERN_LEN <= |s| {
        MatchExtends(s, t, i);
      } else {
        MatchLeavesPrefix(s, t, i);
      }
    }
    if k > 0 {
      var suffix := Last(s, k);
      PrefixMeansCompletable(suffix);
      var t: Bytes :| MatchAt(suffix + t, 0);
      MatchShift(s[..|s| - k], suffix + t, 0);
      assert s[..|s| - k] + (suffix + t) == s + t;
      assert MatchAt(s + t, |s| - k);
    }
  }
}
