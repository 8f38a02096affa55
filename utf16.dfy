/** UTF-16 as Python's `bytes.decode('utf-16le')` reads it (strict: an
    unpaired surrogate is an error), its encoder, and `str.rstrip('\x00')`. */
module Utf16 {
  import opened Binary

  predicate IsHighSurrogate(u: int) { 0xD800 <= u < 0xDC00 }
  predicate IsLowSurrogate(u: int) { 0xDC00 <= u < 0xE000 }

  /** The code units of a little-endian byte string of `n` units at `pos`. */
  function UnitsAt(data: seq<Byte>, pos: nat, n: nat): (units: seq<U16>)
    requires pos + 2 * n <= |data|
    ensures |units| == n
    ensures forall k :: 0 <= k < n ==> units[k] == U16At(data, pos + 2 * k)
  {
    seq(n, k requires 0 <= k < n => U16At(data, pos + 2 * k))
  }

  /** Code units laid out as little-endian byte pairs, as
      `str.encode('utf-16le')` writes them. */
  function UnitsBytes(units: seq<U16>): (b: seq<Byte>)
    ensures |b| == 2 * |units|
  {
    if units == [] then [] else U16Bytes(units[0]) + UnitsBytes(units[1..])
  }

  /** Unit `k` occupies bytes `2k` and `2k + 1`. */
  lemma {:induction false} UnitsBytesAt(units: seq<U16>, k: nat)
    requires k < |units|
    ensures UnitsBytes(units)[2 * k..2 * k + 2] == U16Bytes(units[k])
  {
    var b, rest := UnitsBytes(units), UnitsBytes(units[1..]);
    assert b == U16Bytes(units[0]) + rest;
    if k > 0 {
      UnitsBytesAt(units[1..], k - 1);
      assert b[2 * k..2 * k + 2] == rest[2 * (k - 1)..2 * (k - 1) + 2];
    }
  }

  /** Unit `k` of encoded units stored at `p` reads back as that unit. */
  lemma UnitAtEncoded(data: seq<Byte>, p: nat, units: seq<U16>, k: nat)
    requires p + 2 * |units| <= |data| && data[p..p + 2 * |units|] == UnitsBytes(units)
    requires k < |units|
    ensures U16At(data, p + 2 * k) == units[k]
  {
    var enc, b := UnitsBytes(units), U16Bytes(units[k]);
    UnitsBytesAt(units, k);
    assert data[p + 2 * k] == enc[2 * k] == b[0];
    assert data[p + 2 * k + 1] == enc[2 * k + 1] == b[1];
  }

  /** Reading back the encoded units from anywhere in a byte string gives
      the units that were written. */
  lemma UnitsAtEncoded(prefix: seq<Byte>, units: seq<U16>, suffix: seq<Byte>)
    ensures |prefix| + 2 * |units| <= |prefix + UnitsBytes(units) + suffix|
    ensures UnitsAt(prefix + UnitsBytes(units) + suffix, |prefix|, |units|) == units
  {
    var enc := UnitsBytes(units);
    var data := prefix + enc + suffix;
    assert data[|prefix|..|prefix| + 2 * |units|] == enc;
    var r := UnitsAt(data, |prefix|, |units|);
    forall k | 0 <= k < |units|
      ensures r[k] == units[k]
    {
      UnitAtEncoded(data, |prefix|, units, k);
    }
  }

  /** Decodes code units to text; `None` where Python raises
      `UnicodeDecodeError` (an unpaired surrogate). */
  function DecodeUtf16(units: seq<U16>): (r: Option<string>)
    decreases |units|
  {
    if units == [] then Some("")
    else
      var u := units[0];
      if !IsHighSurrogate(u) && !IsLowSurrogate(u) then
        match DecodeUtf16(units[1..])
        case None => None
        case Some(rest) => Some([u as char] + rest)
      else if IsHighSurrogate(u) && |units| >= 2 && IsLowSurrogate(units[1]) then
        var cp := 0x1_0000 + (u as int - 0xD800) * 0x400 + (units[1] as int - 0xDC00);
        match DecodeUtf16(units[2..])
        case None => None
        case Some(rest) => Some([cp as char] + rest)
      else None
  }

  /** The UTF-16 code units of one character. */
  function EncodeChar(c: char): (units: seq<U16>)
    ensures 1 <= |units| <= 2
  {
    var v := c as int;
    if v < 0x1_0000 then [v]
    else [0xD800 + (v - 0x1_0000) / 0x400, 0xDC00 + (v - 0x1_0000) % 0x400]
  }

  function EncodeUtf16(s: string): seq<U16>
  {
    if s == [] then [] else EncodeChar(s[0]) + EncodeUtf16(s[1..])
  }

  /** Decoding the units of one character followed by more units yields that
      character followed by the decoding of the rest. */
  lemma DecodeChar(c: char, tail: seq<U16>)
    ensures DecodeUtf16(EncodeChar(c) + tail) ==
      match DecodeUtf16(tail)
      case None => None
      case Some(rest) => Some([c] + rest)
  {
    var head := EncodeChar(c);
    var units := head + tail;
    if |head| == 1 {
      assert units[0] == c as int && units[1..] == tail;
    } else {
      var v := c as int - 0x1_0000;
      assert units[0] == 0xD800 + v / 0x400 && units[1] == 0xDC00 + v % 0x400;
      assert units[2..] == tail;
      assert 0x1_0000 + (units[0] as int - 0xD800) * 0x400 + (units[1] as int - 0xDC00) == c as int;
    }
  }

  /** Every string survives encoding and decoding. */
  lemma {:induction false} DecodeEncode(s: string)
    ensures DecodeUtf16(EncodeUtf16(s)) == Some(s)
  {
    if s != [] {
      DecodeEncode(s[1..]);
      DecodeChar(s[0], EncodeUtf16(s[1..]));
      assert [s[0]] + s[1..] == s;
    }
  }

  /** `s.rstrip('\x00')`. */
  function StripTrailingNul(s: string): (r: string)
    ensures r <= s
    ensures r == [] || r[|r| - 1] != '\0'
    ensures forall k :: |r| <= k < |s| ==> s[k] == '\0'
  {
    if s != [] && s[|s| - 1] == '\0' then StripTrailingNul(s[..|s| - 1]) else s
  }

  predicate IsDigits(s: string)
  {
    forall k :: 0 <= k < |s| ==> '0' <= s[k] <= '9'
  }

  /** The number a string of decimal digits denotes, as `int(s)` reads it. */
  function DigitsValue(s: string): nat
    requires IsDigits(s)
  {
    if s == [] then 0 else 10 * DigitsValue(s[..|s| - 1]) + (s[|s| - 1] as int - '0' as int)
  }

  /** Decimal digits of `n`, as Python's `str(n)`: they denote `n`, with no
      leading zero. */
  function DecimalString(n: nat): (r: string)
    ensures |r| >= 1 && IsDigits(r)
    ensures DigitsValue(r) == n
    ensures |r| > 1 ==> r[0] != '0'
  {
    var d := ('0' as int + n % 10) as char;
    if n < 10 then
      assert [d][..0] == [];
      [d]
    else
      var rest := DecimalString(n / 10);
      var r := rest + [d];
      assert r[..|r| - 1] == rest;
      assert |rest| == 1 ==> DigitsValue(rest) == rest[0] as int - '0' as int by {
        if |rest| == 1 {
          assert rest[..0] == [];
        }
      }
      r
  }
}
