/** The heuristic image scanner (`ImageScanner` in insect_hazard_viewer.py):
    phase 1 lists every two-byte zlib stream header after the `PAMU` marker,
    phase 2 inflates a window at each one and keeps the blocks whose first
    32 bytes look like a DAT image header. */
module Scanner {
  import opened Binary

  /** The `PAMU` marker that starts the search. */
  const Pamu: seq<Byte> := [0x50, 0x41, 0x4D, 0x55]
  /** CMF byte of a zlib stream with a 32K window and deflate. */
  const Cmf: Byte := 0x78
  /** Bytes of compressed input offered to the decompressor per candidate. */
  const WindowSize: nat := 5_000_000
  /** Cap on decompressed output per candidate. */
  const OutputLimit: nat := 20_000_000
  const MinDimension: nat := 2
  const MaxDimension: nat := 8192
  /** A DAT header is 32 bytes. */
  const DatHeaderSize: nat := 32

  /** What `zlib.decompressobj().decompress(window, limit)` yields: the output
      and the number of input bytes the stream used (`len(chunk) -
      len(unused_data)`, so never more than the window; `HonestInflate`
      states this of a decompressor). `None` stands for `zlib.error`. */
  datatype Inflated = Inflated(output: seq<Byte>, consumed: nat)

  /** A decompressor that never reports using more input than it was given. */
  ghost predicate HonestInflate(inflate: (seq<Byte>, nat) -> Option<Inflated>)
  {
    forall w, limit :: inflate(w, limit).Some? ==> inflate(w, limit).value.consumed <= |w|
  }

  /** One accepted block, the dictionary the scan appends. */
  datatype ImageRecord = ImageRecord(
    offset: nat,
    compressedSize: nat,
    decompressedSize: nat,
    width: U16,
    height: U16,
    dataSize: U32,
    formatFlag: U32,
    chromaFlag: U16)

  /** Where the cancel flag is first seen set: inside phase 1 (the search
      loop exits and the scan returns `[]`), or at the top of the phase-2
      loop for candidate `k`. */
  datatype CancelPoint = NotCancelled | DuringPhase1 | BeforeCandidate(k: nat)

  /** `mmap.mmap` raises `ValueError` on an empty file; the exception leaves
      the scan before any state is touched. */
  datatype ScanError = EmptyFile

  // ---------------------------------------------------------------------
  // Phase 1: zlib stream headers

  /** FLG bytes the scan accepts after CMF 0x78. */
  predicate IsKnownFlag(b: Byte)
  {
    b == 0x01 || b == 0x5E || b == 0x9C || b == 0xDA
  }

  /** A zlib stream header at `p`: CMF 0x78, a known FLG byte and the FCHECK
      rule of section 2.2 of RFC 1950. */
  predicate IsZlibHeaderAt(data: seq<Byte>, p: nat)
  {
    p + 1 < |data| && data[p] == Cmf && IsKnownFlag(data[p + 1]) && (Cmf * 256 + data[p + 1]) % 31 == 0
  }

  /** The header positions the search records from `p` on: every header
      that starts before `|data| - 10`, in file order. */
  function HeadersFrom(data: seq<Byte>, p: nat): seq<nat>
    decreases |data| - p
  {
    if p + 10 >= |data| then []
    else (if IsZlibHeaderAt(data, p) then [p] else []) + HeadersFrom(data, p + 1)
  }

  /** The four FLG values all satisfy FCHECK with CMF 0x78, so the scan's
      mod-31 test never rejects anything. */
  lemma FlagCheckRedundant(b: Byte)
    requires IsKnownFlag(b)
    ensures (Cmf * 256 + b) % 31 == 0
  {
  }

  /** A position is recorded iff it is at or after `p`, more than 10 bytes
      before the end, and holds a zlib header. */
  lemma {:induction false} HeadersFromMembers(data: seq<Byte>, p: nat, x: nat)
    ensures x in HeadersFrom(data, p) <==> p <= x && x + 10 < |data| && IsZlibHeaderAt(data, x)
    decreases |data| - p
  {
    if p + 10 < |data| {
      HeadersFromMembers(data, p + 1, x);
    }
  }

  predicate StrictlyIncreasing(s: seq<nat>)
  {
    forall j, k :: 0 <= j < k < |s| ==> s[j] < s[k]
  }

  /** The recorded positions are strictly increasing and none is before `p`. */
  lemma {:induction false} HeadersFromIncreasing(data: seq<Byte>, p: nat)
    ensures StrictlyIncreasing(HeadersFrom(data, p))
    ensures forall k :: 0 <= k < |HeadersFrom(data, p)| ==> p <= HeadersFrom(data, p)[k]
    decreases |data| - p
  {
    if p + 10 < |data| {
      HeadersFromIncreasing(data, p + 1);
      var rest := HeadersFrom(data, p + 1);
      if IsZlibHeaderAt(data, p) {
        var h := HeadersFrom(data, p);
        assert h == [p] + rest;
        forall j, k | 0 <= j < k < |h|
          ensures h[j] < h[k]
        {
          assert h[k] == rest[k - 1];
          if j > 0 {
            assert h[j] == rest[j - 1];
          }
        }
      }
    }
  }

  /** Positions in `[pos, q)` that are not 0x78 contribute no header. */
  lemma {:induction false} SkipToMarker(data: seq<Byte>, pos: nat, q: nat)
    requires pos <= q
    requires forall k :: pos <= k < q ==> !MatchAt(data, [Cmf], k)
    ensures HeadersFrom(data, pos) == HeadersFrom(data, q)
    decreases q - pos
  {
    if pos < q {
      assert !MatchAt(data, [Cmf], pos);
      if pos + 10 < |data| {
        assert data[pos..pos + 1] == [data[pos]];
        assert !IsZlibHeaderAt(data, pos);
      }
      SkipToMarker(data, pos + 1, q);
    }
  }

  /** From `pos`, the search's next 0x78 decides the headers: none when
      there is no 0x78 before `|data| - 10`, otherwise the one at that 0x78
      (if it is a header) followed by those after it. */
  lemma HeadersFromNextMarker(data: seq<Byte>, pos: nat)
    requires pos <= |data|
    ensures var found := IndexOf(data, [Cmf], pos);
      && (found.None? || found.value + 10 >= |data| ==> HeadersFrom(data, pos) == [])
      && (found.Some? && found.value + 10 < |data| ==>
            var p := found.value;
            && data[p] == Cmf
            && HeadersFrom(data, pos) ==
                 (if IsKnownFlag(data[p + 1]) && (Cmf * 256 + data[p + 1]) % 31 == 0 then [p] else [])
                 + HeadersFrom(data, p + 1))
  {
    var found := IndexOf(data, [Cmf], pos);
    if found.None? {
      SkipToMarker(data, pos, |data|);
    } else {
      var p := found.value;
      SkipToMarker(data, pos, p);
      assert data[p..p + 1] == [data[p]];
    }
  }

  /** One step of the search: the 0x78 found at `p` is recorded or not, and
      the search resumes after it, leaving the final list the same. */
  lemma AdvancePastMarker(data: seq<Byte>, headers: seq<nat>, pos: nat, p: nat)
    requires pos <= |data| && IndexOf(data, [Cmf], pos) == Some(p) && p + 10 < |data|
    ensures data[p] == Cmf
    ensures IsZlibHeaderAt(data, p) ==>
              (headers + [p]) + HeadersFrom(data, p + 1) == headers + HeadersFrom(data, pos)
    ensures !IsZlibHeaderAt(data, p) ==>
              headers + HeadersFrom(data, p + 1) == headers + HeadersFrom(data, pos)
  {
    HeadersFromNextMarker(data, pos);
    var rest := HeadersFrom(data, p + 1);
    if IsZlibHeaderAt(data, p) {
      assert HeadersFrom(data, pos) == [p] + rest;
      assert (headers + [p]) + rest == headers + ([p] + rest);
    } else {
      assert HeadersFrom(data, pos) == [] + rest == rest;
    }
  }

  /** The phase-1 loop: repeatedly find the next 0x78 and record it when the
      next byte is a known FLG that passes FCHECK, until the search passes
      `|data| - 10`. */
  method FindZlibHeaders(data: seq<Byte>, start: nat) returns (headers: seq<nat>)
    requires start <= |data|
    ensures headers == HeadersFrom(data, start)
  {
    headers := [];
    var pos := start;
    while true
      invariant pos <= |data|
      invariant headers + HeadersFrom(data, pos) == HeadersFrom(data, start)
      decreases |data| - pos
    {
      var found := IndexOf(data, [Cmf], pos);
      if found.None? || found.value + 10 >= |data| {
        HeadersFromNextMarker(data, pos);
        assert headers + [] == headers;
        break;
      }
      var p := found.value;
      AdvancePastMarker(data, headers, pos, p);
      var nextByte := data[p + 1];
      if IsKnownFlag(nextByte) {
        if (Cmf * 256 + nextByte) % 31 == 0 {
          headers := headers + [p];
        }
      }
      pos := p + 1;
    }
  }

  // ---------------------------------------------------------------------
  // Phase 2: acceptance

  function Abs(x: int): nat
  {
    if x < 0 then -x else x
  }

  /** `abs(v - e) <= e * 0.3`, in integers. */
  predicate WithinTolerance(v: int, e: int)
  {
    10 * Abs(v - e) <= 3 * e
  }

  /** The scan's plausibility test on a decompressed block: both dimensions
      in `[2, 8192]`, and either the header's data size or the bytes after
      the header within 30% of a 24-bit or a 32-bit raster. */
  predicate Plausible(width: int, height: int, dataSize: int, payload: int)
  {
    && MinDimension <= width <= MaxDimension
    && MinDimension <= height <= MaxDimension
    && var bgr, bgra := width * height * 3, width * height * 4;
       || WithinTolerance(dataSize, bgr)
       || WithinTolerance(dataSize, bgra)
       || WithinTolerance(payload, bgr)
       || WithinTolerance(payload, bgra)
  }

  /** `mm[zpos:min(zpos + 5000000, file_size)]`. */
  function Window(data: seq<Byte>, zpos: nat): (w: seq<Byte>)
    ensures |w| <= WindowSize
    ensures zpos < |data| ==> |w| > 0 && zpos + |w| <= |data| && w == data[zpos..zpos + |w|]
    ensures zpos <= |data| ==> |w| == (if zpos + WindowSize <= |data| then WindowSize else |data| - zpos)
  {
    if zpos >= |data| then []
    else if zpos + WindowSize <= |data| then data[zpos..zpos + WindowSize]
    else data[zpos..]
  }

  /** The body of the phase-2 loop for the candidate at `zpos`: the record
      appended, or `None` when decompression fails, the output is shorter
      than a header, or the header is implausible. */
  function TryCandidate(data: seq<Byte>, zpos: nat, inflate: (seq<Byte>, nat) -> Option<Inflated>)
    : (r: Option<ImageRecord>)
    ensures var z := inflate(Window(data, zpos), OutputLimit);
      r.Some? <==>
        && z.Some?
        && |z.value.output| >= DatHeaderSize
        && Plausible(U16At(z.value.output, 0x0C), U16At(z.value.output, 0x0E),
                     U32At(z.value.output, 0x08), |z.value.output| - DatHeaderSize)
    ensures r.Some? ==>
      var out := inflate(Window(data, zpos), OutputLimit).value;
      && r.value.offset == zpos
      && r.value.compressedSize == out.consumed
      && r.value.decompressedSize == |out.output|
      && r.value.width == U16At(out.output, 0x0C)
      && r.value.height == U16At(out.output, 0x0E)
      && MinDimension <= r.value.width <= MaxDimension
      && MinDimension <= r.value.height <= MaxDimension
      && r.value.dataSize == U32At(out.output, 0x08)
      && r.value.formatFlag == U32At(out.output, 0x10)
      && r.value.chromaFlag == U16At(out.output, 0x1C)
  {
    match inflate(Window(data, zpos), OutputLimit)
    case None => None
    case Some(z) =>
      if |z.output| < DatHeaderSize then None
      else
        var w, h := U16At(z.output, 0x0C), U16At(z.output, 0x0E);
        var ds := U32At(z.output, 0x08);
        if Plausible(w, h, ds, |z.output| - DatHeaderSize) then
          Some(ImageRecord(zpos, z.consumed, |z.output|, w, h, ds,
                           U32At(z.output, 0x10), U16At(z.output, 0x1C)))
        else None
  }

  /** With a decompressor that uses no more input than it is given, a
      record's compressed size is at most the window, so at most 5,000,000. */
  lemma CompressedSizeWithinWindow(data: seq<Byte>, zpos: nat, inflate: (seq<Byte>, nat) -> Option<Inflated>)
    requires HonestInflate(inflate)
    ensures var r := TryCandidate(data, zpos, inflate);
      r.Some? ==> r.value.compressedSize <= |Window(data, zpos)| <= WindowSize
  {
  }

  /** The records phase 2 appends for the candidates `hs`, in order. */
  function Accepted(data: seq<Byte>, hs: seq<nat>, inflate: (seq<Byte>, nat) -> Option<Inflated>)
    : seq<ImageRecord>
  {
    if hs == [] then []
    else
      var last := TryCandidate(data, hs[|hs| - 1], inflate);
      Accepted(data, hs[..|hs| - 1], inflate) + (if last.Some? then [last.value] else [])
  }

  /** Processing one more candidate appends what it yields. */
  lemma AcceptedStep(data: seq<Byte>, hs: seq<nat>, inflate: (seq<Byte>, nat) -> Option<Inflated>, i: nat)
    requires i < |hs|
    ensures var r := TryCandidate(data, hs[i], inflate);
      Accepted(data, hs[..i + 1], inflate) == Accepted(data, hs[..i], inflate) + (if r.Some? then [r.value] else [])
  {
    assert hs[..i + 1][..i] == hs[..i];
  }

  /** A record is accepted iff it is what some candidate yields. */
  lemma {:induction false} AcceptedMembers(data: seq<Byte>, hs: seq<nat>, inflate: (seq<Byte>, nat) -> Option<Inflated>,
                                           r: ImageRecord)
    ensures r in Accepted(data, hs, inflate) <==>
              exists j :: 0 <= j < |hs| && TryCandidate(data, hs[j], inflate) == Some(r)
  {
    if hs != [] {
      var init := hs[..|hs| - 1];
      AcceptedMembers(data, init, inflate, r);
      if exists j :: 0 <= j < |hs| && TryCandidate(data, hs[j], inflate) == Some(r) {
        var j :| 0 <= j < |hs| && TryCandidate(data, hs[j], inflate) == Some(r);
        if j < |hs| - 1 {
          assert init[j] == hs[j];
        }
      }
      if exists j :: 0 <= j < |init| && TryCandidate(data, init[j], inflate) == Some(r) {
        var j :| 0 <= j < |init| && TryCandidate(data, init[j], inflate) == Some(r);
        assert hs[j] == init[j];
      }
    }
  }

  /** Every accepted record sits at one of the candidate offsets, and offsets
      increase along the result when the candidates do. */
  lemma {:induction false} AcceptedAscending(data: seq<Byte>, hs: seq<nat>, inflate: (seq<Byte>, nat) -> Option<Inflated>)
    requires StrictlyIncreasing(hs)
    ensures var a := Accepted(data, hs, inflate);
      && |a| <= |hs|
      && (forall k :: 0 <= k < |a| ==> a[k].offset in hs)
      && (forall j, k :: 0 <= j < k < |a| ==> a[j].offset < a[k].offset)
  {
    if hs != [] {
      var init := hs[..|hs| - 1];
      var last := TryCandidate(data, hs[|hs| - 1], inflate);
      AcceptedAscending(data, init, inflate);
      var a, prev := Accepted(data, hs, inflate), Accepted(data, init, inflate);
      assert a == prev + (if last.Some? then [last.value] else []);
      forall k | 0 <= k < |prev|
        ensures prev[k].offset < hs[|hs| - 1]
      {
        var j :| 0 <= j < |init| && init[j] == prev[k].offset;
        assert hs[j] == init[j];
      }
    }
  }

  /** Processing only the first `k` candidates yields a prefix of what
      processing all of them yields. */
  lemma {:induction false} AcceptedPrefix(data: seq<Byte>, hs: seq<nat>, inflate: (seq<Byte>, nat) -> Option<Inflated>, k: nat)
    requires k <= |hs|
    ensures Accepted(data, hs[..k], inflate) <= Accepted(data, hs, inflate)
    decreases |hs| - k
  {
    if k < |hs| {
      var init := hs[..|hs| - 1];
      AcceptedPrefix(data, init, inflate, k);
      assert init[..k] == hs[..k];
    } else {
      assert hs[..k] == hs;
    }
  }

  /** A 64×64 block whose header announces a 24-bit raster passes, and so
      does one whose data size is 50% over the 24-bit size, since that is
      within 30% of the 32-bit size. */
  lemma PlausibleExamples()
    ensures Plausible(64, 64, 64 * 64 * 3, 64 * 64 * 3)
    ensures Plausible(64, 64, 64 * 64 * 3 * 3 / 2, 0)
    ensures !Plausible(64, 64, 64 * 64 * 6, 0)
    ensures !Plausible(1, 64, 64 * 3, 64 * 3)
  {
  }

  /** A data size 50% over the 24-bit size is accepted at any valid
      dimensions: it is within 30% of the 32-bit size. */
  lemma FiftyPercentOverIsAccepted(width: int, height: int, payload: int)
    requires MinDimension <= width <= MaxDimension && MinDimension <= height <= MaxDimension
    ensures Plausible(width, height, width * height * 9 / 2, payload)
  {
    var e := width * height;
    assert width * height * 3 == 3 * e && width * height * 4 == 4 * e;
    assert e >= 0;
    assert e * 9 / 2 - 4 * e <= e;
  }

  // ---------------------------------------------------------------------
  // The scan

  /** The search starts at the first `PAMU`, or at 0 without one. */
  function ScanStart(data: seq<Byte>): (s: nat)
    ensures s <= |data|
    ensures forall k :: MatchAt(data, Pamu, k) ==> MatchAt(data, Pamu, s) && s <= k
    ensures (forall k :: !MatchAt(data, Pamu, k)) ==> s == 0
  {
    match IndexOf(data, Pamu, 0)
    case Some(p) => p
    case None => 0
  }

  function Candidates(data: seq<Byte>): seq<nat>
  {
    HeadersFrom(data, ScanStart(data))
  }

  /** How many of `n` candidates phase 2 gets through before it sees the
      cancel flag. */
  function Processed(cancel: CancelPoint, n: nat): (m: nat)
    ensures m <= n
  {
    if cancel.BeforeCandidate? && cancel.k < n then cancel.k else n
  }

  /** The list a scan that is not cancelled in phase 1 ends with. */
  function ScanResult(data: seq<Byte>, inflate: (seq<Byte>, nat) -> Option<Inflated>, cancel: CancelPoint)
    : seq<ImageRecord>
  {
    var hs := Candidates(data);
    Accepted(data, hs[..Processed(cancel, |hs|)], inflate)
  }

  /** A scan cancelled in phase 2 returns a prefix of the uncancelled result,
      and every result lists accepted blocks at header positions after the
      start, in strictly ascending offset order. */
  lemma ScanResultProperties(data: seq<Byte>, inflate: (seq<Byte>, nat) -> Option<Inflated>, cancel: CancelPoint)
    ensures ScanResult(data, inflate, cancel) <= ScanResult(data, inflate, NotCancelled)
    ensures var a := ScanResult(data, inflate, cancel);
      && (forall k :: 0 <= k < |a| ==>
            && ScanStart(data) <= a[k].offset
            && a[k].offset + 10 < |data|
            && IsZlibHeaderAt(data, a[k].offset)
            && TryCandidate(data, a[k].offset, inflate) == Some(a[k]))
      && (forall j, k :: 0 <= j < k < |a| ==> a[j].offset < a[k].offset)
  {
    var hs := Candidates(data);
    var m := Processed(cancel, |hs|);
    AcceptedPrefix(data, hs, inflate, m);
    assert hs[..|hs|] == hs;
    HeadersFromIncreasing(data, ScanStart(data));
    var pre := hs[..m];
    assert StrictlyIncreasing(pre);
    AcceptedAscending(data, pre, inflate);
    var a := Accepted(data, pre, inflate);
    forall k | 0 <= k < |a|
      ensures ScanStart(data) <= a[k].offset && a[k].offset + 10 < |data|
      ensures IsZlibHeaderAt(data, a[k].offset)
      ensures TryCandidate(data, a[k].offset, inflate) == Some(a[k])
    {
      assert a[k] in a;
      AcceptedMembers(data, pre, inflate, a[k]);
      var j :| 0 <= j < |pre| && TryCandidate(data, pre[j], inflate) == Some(a[k]);
      assert pre[j] in hs;
      HeadersFromMembers(data, ScanStart(data), pre[j]);
    }
  }

  /** The scanner as the viewer holds it: the accepted records and whether a
      scan ran to completion. */
  class ImageScanner {
    var images: seq<ImageRecord>
    var complete: bool

    constructor ()
      ensures images == [] && !complete
    {
      images := [];
      complete := false;
    }

    /** The phase-2 loop: each candidate in order, stopping at the first one
        the cancel flag is seen before; accepted records are appended. */
    method AnalyzeCandidates(data: seq<Byte>, headers: seq<nat>, inflate: (seq<Byte>, nat) -> Option<Inflated>,
                             cancel: CancelPoint)
      modifies this
      ensures images == old(images) + Accepted(data, headers[..Processed(cancel, |headers|)], inflate)
      ensures complete == old(complete)
    {
      var i := 0;
      while i < |headers|
        invariant i <= Processed(cancel, |headers|)
        invariant images == old(images) + Accepted(data, headers[..i], inflate)
        invariant complete == old(complete)
      {
        if cancel.BeforeCandidate? && i >= cancel.k {
          break;
        }
        var record := TryCandidate(data, headers[i], inflate);
        AcceptedStep(data, headers, inflate, i);
        if record.Some? {
          images := images + [record.value];
        }
        i := i + 1;
      }
      assert i == Processed(cancel, |headers|);
    }

    /** `ImageScanner.scan`. An empty file cannot be memory-mapped: the
        scan fails before touching the state. Cancelled in phase 1: returns
        `[]` with the image list emptied and `complete` untouched.
        Otherwise: the accepted records of the candidates processed, and the
        scan is complete. */
    method Scan(data: seq<Byte>, inflate: (seq<Byte>, nat) -> Option<Inflated>, cancel: CancelPoint)
      returns (r: Result<seq<ImageRecord>, ScanError>)
      modifies this
      ensures |data| == 0 ==> r == Err(EmptyFile) && images == old(images) && complete == old(complete)
      ensures |data| > 0 && cancel == DuringPhase1 ==> r == Ok([]) && images == [] && complete == old(complete)
      ensures |data| > 0 && cancel != DuringPhase1 ==>
                r == Ok(images) && images == ScanResult(data, inflate, cancel) && complete
    {
      if |data| == 0 {
        return Err(EmptyFile);
      }
      var pamu := IndexOf(data, Pamu, 0);
      var start := if pamu.Some? then pamu.value else 0;
      images := [];
      if cancel == DuringPhase1 {
        return Ok([]);
      }
      var headers := FindZlibHeaders(data, start);
      AnalyzeCandidates(data, headers, inflate, cancel);
      complete := true;
      return Ok(images);
    }
  }
}
