/** Small pure computations of the asset browser: the folder an archive
    entry is filed under and the name shown for it, the format label of an
    image record, and the mapping of the flip setting to `force_flip`. */
module Browser {
  import opened Binary
  import DatFormat

  // ---------------------------------------------------------------------
  // Paths

  /** `s.replace('\\', '/')`. */
  function NormalizeSeparators(s: string): (r: string)
    ensures |r| == |s|
  {
    if s == [] then [] else NormalizeSeparators(s[..|s| - 1]) + [if s[|s| - 1] == '\\' then '/' else s[|s| - 1]]
  }

  /** Normalising turns each backslash into `/` and keeps every other
      character where it was. */
  lemma {:induction false} NormalizeAt(s: string, k: nat)
    requires k < |s|
    ensures NormalizeSeparators(s)[k] == if s[k] == '\\' then '/' else s[k]
  {
    if k < |s| - 1 {
      NormalizeAt(s[..|s| - 1], k);
    }
  }

  /** The text after the last `sep` in `s` (all of `s` without one). */
  function LastPart(s: string, sep: char): (r: string)
    ensures |r| <= |s|
    ensures sep !in r
  {
    if s == [] || s[|s| - 1] == sep then [] else LastPart(s[..|s| - 1], sep) + [s[|s| - 1]]
  }

  /** `s.split(sep)`: the pieces between occurrences of `sep`, at least one. */
  function Split(s: string, sep: char): (parts: seq<string>)
    ensures |parts| >= 1
  {
    if s == [] then [[]]
    else
      var init := Split(s[..|s| - 1], sep);
      var c := s[|s| - 1];
      if c == sep then init + [[]]
      else init[..|init| - 1] + [init[|init| - 1] + [c]]
  }

  /** `sep.join(parts)`. */
  function Join(parts: seq<string>, sep: char): string
    requires |parts| >= 1
  {
    if |parts| == 1 then parts[0]
    else Join(parts[..|parts| - 1], sep) + [sep] + parts[|parts| - 1]
  }

  /** Splitting one more character: a separator opens a new empty piece,
      anything else extends the last piece. */
  lemma SplitSnoc(t: string, c: char, sep: char)
    ensures var init := Split(t, sep);
      Split(t + [c], sep) ==
        if c == sep then init + [[]] else init[..|init| - 1] + [init[|init| - 1] + [c]]
  {
    assert (t + [c])[..|t|] == t;
  }

  /** Joining with one more empty piece appends the separator. */
  lemma JoinAppendEmpty(parts: seq<string>, sep: char)
    requires |parts| >= 1
    ensures Join(parts + [[]], sep) == Join(parts, sep) + [sep]
  {
    assert (parts + [[]])[..|parts|] == parts;
  }

  /** Joining with the last piece extended by `c` appends `c`. */
  lemma JoinExtendLast(parts: seq<string>, c: char, sep: char)
    requires |parts| >= 1
    ensures Join(parts[..|parts| - 1] + [parts[|parts| - 1] + [c]], sep) == Join(parts, sep) + [c]
  {
    var n := |parts|;
    var last := parts[n - 1] + [c];
    var q := parts[..n - 1] + [last];
    if n > 1 {
      var front := Join(parts[..n - 1], sep) + [sep];
      assert q[..n - 1] == parts[..n - 1];
      assert Join(parts, sep) == front + parts[n - 1];
      assert Join(q, sep) == front + last;
    }
  }

  /** Joining the pieces of a split with the same separator gives back the
      text. */
  lemma {:induction false} SplitJoin(s: string, sep: char)
    ensures Join(Split(s, sep), sep) == s
  {
    if s != [] {
      SplitJoin(s[..|s| - 1], sep);
      SplitJoinStep(s[..|s| - 1], s[|s| - 1], sep);
      assert s == s[..|s| - 1] + [s[|s| - 1]];
    }
  }

  /** The inductive step of `SplitJoin`: one more character. */
  lemma SplitJoinStep(t: string, c: char, sep: char)
    requires Join(Split(t, sep), sep) == t
    ensures Join(Split(t + [c], sep), sep) == t + [c]
  {
    SplitSnoc(t, c, sep);
    if c == sep {
      JoinAppendEmpty(Split(t, sep), sep);
    } else {
      JoinExtendLast(Split(t, sep), c, sep);
    }
  }

  /** No piece of a split holds the separator. */
  lemma {:induction false} SplitPiecesAvoid(s: string, sep: char)
    ensures forall k :: 0 <= k < |Split(s, sep)| ==> sep !in Split(s, sep)[k]
  {
    if s != [] {
      var t := s[..|s| - 1];
      var c := s[|s| - 1];
      SplitPiecesAvoid(t, sep);
      var init := Split(t, sep);
      var parts := Split(s, sep);
      forall k | 0 <= k < |parts|
        ensures sep !in parts[k]
      {
        if k < |init| - 1 || (c == sep && k < |init|) {
          assert parts[k] == init[k];
        }
      }
    }
  }

  /** The last piece of a split is the text after the last separator. */
  lemma {:induction false} SplitLast(s: string, sep: char)
    ensures Split(s, sep)[|Split(s, sep)| - 1] == LastPart(s, sep)
  {
    if s != [] {
      SplitLast(s[..|s| - 1], sep);
    }
  }

  /** A split has one piece exactly when the separator does not occur. */
  lemma {:induction false} SplitSingle(s: string, sep: char)
    ensures |Split(s, sep)| == 1 <==> sep !in s
  {
    if s != [] {
      var t := s[..|s| - 1];
      SplitSingle(t, sep);
      assert s == t + [s[|s| - 1]];
    }
  }

  /** The folder an archive entry is filed under: every piece of its
      normalised name but the last, joined by `/`; `''` at the root. */
  function FolderKey(filename: string): string
  {
    var parts := Split(NormalizeSeparators(filename), '/');
    if |parts| == 1 then "" else Join(parts[..|parts| - 1], '/')
  }

  /** `filename.split('/')[-1].split('\\')[-1]`, the name shown in the tree. */
  function BaseName(filename: string): string
  {
    var slashParts := Split(filename, '/');
    var backslashParts := Split(slashParts[|slashParts| - 1], '\\');
    backslashParts[|backslashParts| - 1]
  }

  /** The displayed name is what follows the last separator of either kind. */
  lemma {:induction false} BaseNameAfterLastSeparator(filename: string)
    ensures BaseName(filename) == LastPart(NormalizeSeparators(filename), '/')
  {
    var slashParts := Split(filename, '/');
    SplitLast(filename, '/');
    var slashLast := slashParts[|slashParts| - 1];
    var backslashParts := Split(slashLast, '\\');
    SplitLast(slashLast, '\\');
    assert BaseName(filename) == backslashParts[|backslashParts| - 1];
    LastPartBoth(filename);
  }

  lemma {:induction false} LastPartBoth(s: string)
    ensures LastPart(LastPart(s, '/'), '\\') == LastPart(NormalizeSeparators(s), '/')
  {
    if s != [] {
      var t := s[..|s| - 1];
      var c := s[|s| - 1];
      LastPartBoth(t);
      var n := NormalizeSeparators(s);
      assert n[..|n| - 1] == NormalizeSeparators(t);
      if c != '/' && c != '\\' {
        var x := LastPart(t, '/');
        assert (x + [c])[..|x + [c]| - 1] == x;
      }
    }
  }

  lemma NormalizedHasNoBackslash(s: string)
    ensures '\\' !in NormalizeSeparators(s)
  {
    var n := NormalizeSeparators(s);
    forall k | 0 <= k < |n|
      ensures n[k] != '\\'
    {
      NormalizeAt(s, k);
    }
  }

  /** With more than one piece, the normalised name is the folder key, `/`
      and the text after the last `/`. */
  lemma FolderKeyThenLast(filename: string)
    requires |Split(NormalizeSeparators(filename), '/')| > 1
    ensures NormalizeSeparators(filename) ==
              FolderKey(filename) + "/" + LastPart(NormalizeSeparators(filename), '/')
  {
    var n := NormalizeSeparators(filename);
    var parts := Split(n, '/');
    SplitJoin(n, '/');
    SplitLast(n, '/');
    assert Join(parts, '/') == Join(parts[..|parts| - 1], '/') + ['/'] + parts[|parts| - 1];
  }

  /** A name with no separator is filed at the root under its own name. */
  lemma FolderKeyAtRoot(filename: string)
    requires forall k :: 0 <= k < |filename| ==> filename[k] != '/' && filename[k] != '\\'
    ensures FolderKey(filename) == "" && BaseName(filename) == filename
  {
    var n := NormalizeSeparators(filename);
    forall k | 0 <= k < |n|
      ensures n[k] == filename[k]
    {
      NormalizeAt(filename, k);
    }
    assert n == filename;
    SplitSingle(n, '/');
    SplitJoin(n, '/');
    SplitLast(n, '/');
    BaseNameAfterLastSeparator(filename);
  }

  /** A name with a separator of either kind is its folder key, `/` and the
      name shown, once normalised; the key holds no backslash and the name
      shown no separator. */
  lemma FolderKeyDecomposition(filename: string)
    requires exists k :: 0 <= k < |filename| && (filename[k] == '/' || filename[k] == '\\')
    ensures NormalizeSeparators(filename) == FolderKey(filename) + "/" + BaseName(filename)
    ensures '\\' !in FolderKey(filename) && '/' !in BaseName(filename) && '\\' !in BaseName(filename)
  {
    var n := NormalizeSeparators(filename);
    var k :| 0 <= k < |filename| && (filename[k] == '/' || filename[k] == '\\');
    NormalizeAt(filename, k);
    assert n[k] == '/';
    SplitSingle(n, '/');
    FolderKeyThenLast(filename);
    BaseNameAfterLastSeparator(filename);
    NormalizedHasNoBackslash(filename);
  }

  // ---------------------------------------------------------------------
  // Image list and preview

  /** The format column of the image list: `CK` for the green chroma flag,
      `FL` for format flag 0x1004, both joined by `+`, `STD` for neither. */
  function FormatLabel(chromaFlag: int, formatFlag: int): (tag: string)
    ensures tag == "CK+FL" || tag == "CK" || tag == "FL" || tag == "STD"
    ensures (tag == "CK+FL" || tag == "CK") <==> chromaFlag == DatFormat.ChromaGreen
    ensures (tag == "CK+FL" || tag == "FL") <==> formatFlag == DatFormat.CkFlFormat
  {
    var ck, fl := chromaFlag == DatFormat.ChromaGreen, formatFlag == DatFormat.CkFlFormat;
    if ck && fl then "CK+FL"
    else if ck then "CK"
    else if fl then "FL"
    else "STD"
  }

  /** `CK+FL` marks exactly the images the decoder treats as CK+FL, which
      always have two planes; `CK` alone marks a single keyed plane whose key
      is green; `FL` and `STD` never mark a green key. */
  lemma FormatLabelMatchesDecoder(img: DatFormat.DatImage)
    requires DatFormat.WellFormed(img)
    ensures var tag := FormatLabel(img.header.chromaFlag, img.header.formatFlag);
      && (tag == "CK+FL" <==> img.isCkFl)
      && (tag == "CK+FL" ==> img.hasPlanarAlpha && img.chromaKey == None)
      && (tag == "CK" ==> !img.isCkFl && !img.hasPlanarAlpha && img.chromaKey == Some(DatFormat.Green))
      && (tag == "FL" || tag == "STD" ==> img.chromaKey != Some(DatFormat.Green))
  {
  }

  /** `get_flip_setting`: `"off"` forces no flip, `"on"` forces a flip,
      anything else leaves the image's own flag in charge. */
  function FlipSetting(setting: string): (forceFlip: Option<bool>)
    ensures forceFlip == Some(true) <==> setting == "on"
    ensures forceFlip == Some(false) <==> setting == "off"
  {
    if setting == "off" then Some(false)
    else if setting == "on" then Some(true)
    else None
  }

  /** Since no parsed image asks to be flipped, the preview is flipped
      exactly when the setting is `"on"`. */
  lemma FlipSettingEffect(img: DatFormat.DatImage, setting: string)
    requires DatFormat.WellFormed(img)
    ensures DatFormat.DoFlip(FlipSetting(setting), img.needsFlip) <==> setting == "on"
  {
    DatFormat.FlipOnlyWhenForced(img, FlipSetting(setting));
  }
}
