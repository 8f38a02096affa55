/** Byte-level vocabulary shared by the DAT decoder, the stub archive reader
    and the image scanner: bytes and fixed-width unsigned integers, the
    little-endian reads that Python's `struct.unpack('<H')` / `('<I')` perform,
    their encoders, and the `bytes.find` search. */
module Binary {

  type Byte = x: int | 0 <= x < 0x100
  type U16 = x: int | 0 <= x < 0x1_0000
  type U32 = x: int | 0 <= x < 0x1_0000_0000

  datatype Option<+T> = None | Some(value: T)

  datatype Result<+T, +E> = Ok(value: T) | Err(error: E)

  /** Little-endian unsigned 16-bit value at `p` (`struct.unpack('<H', s[p:p+2])`). */
  function U16At(s: seq<Byte>, p: nat): U16
    requires p + 2 <= |s|
  {
    s[p] as int + 0x100 * s[p + 1] as int
  }

  /** Little-endian unsigned 32-bit value at `p` (`struct.unpack('<I', s[p:p+4])`). */
  function U32At(s: seq<Byte>, p: nat): U32
    requires p + 4 <= |s|
  {
    s[p] as int + 0x100 * s[p + 1] as int + 0x1_0000 * s[p + 2] as int + 0x100_0000 * s[p + 3] as int
  }

  /** `struct.unpack('<H', s[p:p+2])` on a slice that Python clamps to the end
      of `s`: a short slice raises `struct.error`, modelled as `None`. */
  function ReadU16(s: seq<Byte>, p: nat): (r: Option<U16>)
    ensures r.Some? <==> p + 2 <= |s|
    ensures r.Some? ==> r.value == U16At(s, p)
  {
    if p + 2 <= |s| then Some(U16At(s, p)) else None
  }

  /** As `ReadU16`, for `'<I'`. */
  function ReadU32(s: seq<Byte>, p: nat): (r: Option<U32>)
    ensures r.Some? <==> p + 4 <= |s|
    ensures r.Some? ==> r.value == U32At(s, p)
  {
    if p + 4 <= |s| then Some(U32At(s, p)) else None
  }

  /** Little-endian encoding of a 16-bit value; `U16At` reads it back. */
  function U16Bytes(v: U16): (b: seq<Byte>)
    ensures |b| == 2 && U16At(b, 0) == v
  {
    [v % 0x100, v / 0x100]
  }

  /** Little-endian encoding of a 32-bit value; `U32At` reads it back. */
  function U32Bytes(v: U32): (b: seq<Byte>)
    ensures |b| == 4 && U32At(b, 0) == v
  {
    var q1 := v / 0x100;
    var q2 := q1 / 0x100;
    var b := [v % 0x100, q1 % 0x100, q2 % 0x100, q2 / 0x100];
    assert v == b[0] + 0x100 * (b[1] + 0x100 * (b[2] + 0x100 * b[3]));
    b
  }

  /** Reading a little-endian field at an offset only depends on the bytes of
      that field. */
  lemma U16AtSlice(s: seq<Byte>, t: seq<Byte>, p: nat, q: nat)
    requires p + 2 <= |s| && q + 2 <= |t|
    requires s[p..p + 2] == t[q..q + 2]
    ensures U16At(s, p) == U16At(t, q)
  {
    assert s[p] == s[p..p + 2][0] && s[p + 1] == s[p..p + 2][1];
    assert t[q] == t[q..q + 2][0] && t[q + 1] == t[q..q + 2][1];
  }

  lemma U32AtSlice(s: seq<Byte>, t: seq<Byte>, p: nat, q: nat)
    requires p + 4 <= |s| && q + 4 <= |t|
    requires s[p..p + 4] == t[q..q + 4]
    ensures U32At(s, p) == U32At(t, q)
  {
    assert s[p] == s[p..p + 4][0] && s[p + 1] == s[p..p + 4][1];
    assert s[p + 2] == s[p..p + 4][2] && s[p + 3] == s[p..p + 4][3];
    assert t[q] == t[q..q + 4][0] && t[q + 1] == t[q..q + 4][1];
    assert t[q + 2] == t[q..q + 4][2] && t[q + 3] == t[q..q + 4][3];
  }

  /** `pat` occurs in `s` starting at index `k`. */
  predicate MatchAt(s: seq<Byte>, pat: seq<Byte>, k: nat)
  {
    k + |pat| <= |s| && s[k..k + |pat|] == pat
  }

  /** `s.find(pat, from)`: the first index at or after `from` where `pat`
      occurs, or `None` where Python returns -1. */
  function IndexOf(s: seq<Byte>, pat: seq<Byte>, from: nat): (r: Option<nat>)
    decreases |s| - from
    ensures r.Some? ==> from <= r.value && MatchAt(s, pat, r.value)
    ensures r.Some? ==> forall k :: from <= k < r.value ==> !MatchAt(s, pat, k)
    ensures r.None? ==> forall k :: from <= k ==> !MatchAt(s, pat, k)
  {
    if from + |pat| > |s| then None
    else if s[from..from + |pat|] == pat then Some(from)
    else IndexOf(s, pat, from + 1)
  }
}
