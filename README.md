# Insect Hazard asset viewer — format-recovery core in Dafny

This project models the format-recovery code of `insect_hazard_viewer.py`, a
viewer for the assets inside a Clickteam-built game executable, and proves
properties of it. It covers three parts and a few small helpers.

- **DAT images** (`DATImage`, module `DatFormat`, file `dat_image.dfy`).
  - A 32-byte little-endian header.
  - The row layout inferred from it: `actual_width`, `bgr_stride`, `alpha_stride`.
  - The choice between a two-plane layout (BGR plane, then alpha plane) and a
    single BGR plane with a chroma-key colour.
  - Decoding into an RGBA raster (`to_pil_image`), with the optional vertical flip.
  - The writers of both layouts, proved to be undone by the decoder.
- **The stub archive** (`StubArchive`, module `StubArchive`, file `stub_archive.dfy`).
  - The PE overlay start: the largest `PointerToRawData + SizeOfRawData`
    over the section table that `e_lfanew` leads to.
  - The search for the `77 77 77 77` signature from there.
  - The cursor walk over the record table. Each record holds a u16 name
    length, the UTF-16LE name, a u32 CRC and a u32 size, then the payload.
    The walk stops quietly when a record is cut off.
  - `extract_file` with its raw-bytes fallback.
  - Names are decoded by module `Utf16` (file `utf16.dfy`), with a
    round-trip proof.
- **The image scanner** (`ImageScanner`, module `Scanner`, file `image_scanner.dfy`).
  - Phase 1 finds two-byte zlib stream headers from the first `PAMU`.
    A header is CMF 0x78 followed by FLG 0x01, 0x5E, 0x9C or 0xDA, and the
    FCHECK rule of section 2.2 of RFC 1950 applies.
  - Phase 2 decompresses each candidate and keeps the blocks whose first
    32 bytes look like a DAT header.
  - Cancellation is given as an input: during phase 1, or before the
    `k`-th candidate of phase 2.
- **Browser helpers** (module `Browser`, file `browser_helpers.dfy`).
  - The folder an archive entry is filed under, and the name shown for it.
  - The `CK`/`FL`/`STD` format label.
  - The three-way flip setting.

Modules `Binary` (`binary.dfy`) and `Arithmetic` (`arith.dfy`) hold shared
vocabulary:
- bytes and little-endian reads;
- `Option`/`Result`;
- `bytes.find`;
- row and offset arithmetic lemmas.

The file is an immutable `seq<Byte>`. zlib is a parameter:
- `inflate(window, limit)` stands for `zlib.decompressobj().decompress`;
- `decompress(bytes)` stands for `zlib.decompress`.

A Python exception that the source raises becomes an `Err`: a cut-off PE or
archive header in the archive scan, and the `ValueError` that `mmap` raises
on an empty file in the image scan. A Python exception that the source
swallows becomes the value the source falls back to.

The two parsers that update objects in place are classes:
- `StubArchive.StubArchive` updates `files` and `archiveOffset`;
- `Scanner.ImageScanner` updates `images` and `complete`.

Each of their methods is proved against a specification function:
`Walk`/`ReadTable` for the archive and `HeadersFrom`/`Accepted`/`ScanResult`
for the scanner. Lemmas state what those functions guarantee.

Where the code and its prose description differ, the model follows the code:

- `actual_width` is not always even. An odd `width` is kept when
  `data_size` lies in `[3wh, 3(w+1)h)` (lines 105-106).
  `DatFormat.ActualWidthOddIff` characterises exactly when that happens.
- A block whose `data_size` is 50% over the 24-bit size `w*h*3` is accepted,
  not rejected. That size is within 30% of the 32-bit size `w*h*4` (lines
  414-417). See `Scanner.FiftyPercentOverIsAccepted`.
- The table walk does not check `data_offset + compressed_size` against the
  file size (lines 300-301). Only the last entry of a walk can have a
  payload running past the end of the file
  (`StubArchive.PayloadBeforeLastComplete`), and `extract_file` then reads a
  short payload (`StubArchive.Payload`).
- Cancelling during phase 1 returns `[]`, not a partial list (lines 380-382).

## Model

| member | source | states |
|---|---|---|
| DatFormat.Parse | insect_hazard_viewer.py:74-142 | Fails with `TooSmall` exactly when there are fewer than 32 bytes. Fails with `InvalidDimensions` exactly when the u16 at 0x0C or 0x0E is 0. Otherwise every header field is the LE integer at its offset, the pixel data is everything after byte 32, and the derived layout is `WellFormed`: `actual_width` is the width the header implies (lines 100-108), and the strides, the plane choice and the key follow from it. |
| DatFormat.ParseEncoded | insect_hazard_viewer.py:80-95 | Parsing an encoded header followed by any pixel bytes returns exactly that header and those bytes, or the dimension error when a dimension is 0. |
| DatFormat.ActualWidth | insect_hazard_viewer.py:100-108 | The BGR row width is `width` or `width + 1`. It is widened only for an odd width. An odd result means `data_size` lies in `[3wh, 3(w+1)h)`. |
| DatFormat.ActualWidthOddIff | insect_hazard_viewer.py:100-108 | The actual width is odd iff the width is odd and `data_size` is in `[3wh, 3(w+1)h)`. An even width is never widened. |
| DatFormat.AlphaStride | insect_hazard_viewer.py:113-114 | The alpha row stride is the least multiple of 4 that is at least `width`. |
| DatFormat.PlanarRoundTrip | insect_hazard_viewer.py:187-205 | For any raster written as a BGR plane (rows `bgr_stride` apart) followed by an alpha plane (rows `alpha_stride` apart), the two-plane decode gives back that raster pixel for pixel. |
| DatFormat.KeyedRoundTrip | insect_hazard_viewer.py:206-221 | For any raster of opaque non-key pixels and transparent pixels, written as one BGR plane with transparent pixels painted in the key, the chroma-key decode gives it back. |
| DatFormat.DecodePlanarRow | insect_hazard_viewer.py:193-205 | The inner `for x` loop of the two-plane path. BGR is read at `y*bgr_stride+3x` and is black past the plane. Alpha is read at `y*alpha_stride+x` after the plane and is 255 past the end. |
| DatFormat.DecodeKeyedRow | insect_hazard_viewer.py:210-221 | The inner `for x` loop of the chroma-key path. A pixel is transparent past the end of the data or when its colour is the key. Otherwise it is that colour, opaque. |
| DatFormat.ToRaster | insect_hazard_viewer.py:177-228 | Always `height` rows of `width` pixels; decoding never fails. The result is the decoded raster, flipped top to bottom exactly when `DoFlip(force_flip, needs_flip)`. |
| DatFormat.FlipRows | insect_hazard_viewer.py:225-226 | Row `y` of the flipped raster is row `height-1-y` of the original. |
| DatFormat.FlipRowsInvolution | insect_hazard_viewer.py:225-226 | Flipping twice restores the raster. |
| DatFormat.FlipOnlyWhenForced | insect_hazard_viewer.py:224-225 | Because the parser always sets `needs_flip` to false (line 140), a parsed image is flipped iff `force_flip` is `True`. |
| Utf16.UnitsAtEncoded | insect_hazard_viewer.py:286 | Reading `name_len` code units from the bytes after the length gives back exactly the units written there as little-endian byte pairs, wherever they sit in the file. |
| Utf16.DecodeEncode | insect_hazard_viewer.py:288 | Any text encoded to UTF-16 code units decodes back to itself, so an encoded name is never replaced by `file_{i}`. |
| Utf16.StripTrailingNul | insect_hazard_viewer.py:288 | `rstrip('\x00')` returns a prefix with no trailing NUL. Everything it removed was NUL. |
| StubArchive.EntryNameEncoded | insect_hazard_viewer.py:286-290 | A name stored as the UTF-16 encoding of some text is shown as that text with trailing NULs removed, never as `file_{i}`. |
| Utf16.DecimalString | insect_hazard_viewer.py:290 | The index in `file_{i}` is `str(i)`: non-empty decimal digits that denote `i`, with no leading zero unless it is the single digit `0`. |
| Binary.IndexOf | insect_hazard_viewer.py:261 | `data.find(pat, start)`: the first match at or after `start`, or `None` (Python's -1) when there is no match from `start` on. |
| StubArchive.MaxSectionEndIsMaximum | insect_hazard_viewer.py:250-257 | The overlay maximum is undefined iff some section header is cut off. Otherwise it bounds every `raw_ptr + raw_size`, equals one of them, and is 0 with no sections. |
| StubArchive.LocateOverlay | insect_hazard_viewer.py:245-257 | The section loop computes the overlay start, or the error where a header read runs out of data. |
| StubArchive.ReadRecord | insect_hazard_viewer.py:277-301 | A record is read iff neither the length, the name nor the CRC/size runs past the data. Then the name is the `name_len` code units after the u16 length, `data_offset` is the cursor after the `2 + 2*name_len + 8` header bytes, and the CRC and size are the u32s just before it. |
| StubArchive.ReadRecordAt | insect_hazard_viewer.py:277-301 | The stepwise cursor reads with their three `break`s agree with `ReadRecord`. |
| StubArchive.WalkLength | insect_hazard_viewer.py:276 | A walk yields at most `file_count` entries. |
| StubArchive.WalkRecord | insect_hazard_viewer.py:273-301 | Entry `k` is the record read where entry `k-1`'s payload ends (`data_offset + compressed_size`), or at `sig + header_size` for the first entry. |
| StubArchive.WalkEntry | insect_hazard_viewer.py:278-310 | Entry `k` has `index == k`. Its name is the code units that follow its u16 length at the record start. Its `data_offset` lies within the file, `2 + 2*name_len + 8` bytes after the record start, and its CRC and size are the LE u32s at `data_offset-8` and `data_offset-4`. |
| StubArchive.WalkStopsOnlyAtTruncation | insect_hazard_viewer.py:276-294 | A walk shorter than `file_count` stopped because the next record is cut off. |
| StubArchive.Payload | insect_hazard_viewer.py:321-323 | The bytes read for an entry are the file from `data_offset`: `compressed_size` bytes when they fit, otherwise everything to the end of the file. |
| StubArchive.PayloadBeforeLastComplete | insect_hazard_viewer.py:300-301 | Every payload of a walk except the last lies wholly inside the file. |
| StubArchive.StubArchive.constructor | insect_hazard_viewer.py:234-237 | A new archive has no files and offset 0. |
| StubArchive.StubArchive.Scan | insect_hazard_viewer.py:239-312 | A cut-off PE header or section table is an error, with the state unchanged. With no signature after the overlay the result is `[]`, with the state unchanged. Otherwise `archive_offset` becomes the signature position (line 266). A cut-off archive header is then an error with `files` unchanged; else the files are the walk from `sig + header_size` over `file_count` records. |
| StubArchive.StubArchive.LoadRecords | insect_hazard_viewer.py:273-311 | The record loop leaves `files` equal to the walk and `archive_offset` unchanged. |
| StubArchive.StubArchive.ExtractFile | insect_hazard_viewer.py:314-328 | `None` iff `index >= len(files)`. Otherwise it returns the decompressed payload, or the raw payload when decompression fails. |
| Scanner.FlagCheckRedundant | insect_hazard_viewer.py:370-371 | Each of the four accepted FLG bytes already satisfies `(0x78*256 + FLG) % 31 == 0`. |
| Scanner.HeadersFromMembers | insect_hazard_viewer.py:364-374 | A position is recorded iff it is at or after the start, before `file_size - 10`, and holds 0x78 followed by an accepted FLG byte. |
| Scanner.HeadersFromIncreasing | insect_hazard_viewer.py:361-374 | The recorded positions are strictly increasing and none is before the start. |
| Scanner.FindZlibHeaders | insect_hazard_viewer.py:361-374 | The `find(0x78)`-and-advance loop records exactly the header positions `HeadersFrom` describes. |
| Scanner.Window | insect_hazard_viewer.py:396-397 | The compressed window is the file from the candidate up to `min(zpos + 5000000, file_size)`: 5,000,000 bytes when the file allows, otherwise everything to the end. |
| Scanner.TryCandidate | insect_hazard_viewer.py:395-431 | A record results iff inflation succeeds with at least 32 output bytes, both dimensions are in [2, 8192], and one of the four 30% tests holds. The record holds the offset, the consumed length, the output length, the width and height (u16s at 0x0C and 0x0E, both in [2, 8192]) and the fields at 0x08, 0x10 and 0x1C. |
| Scanner.CompressedSizeWithinWindow | insect_hazard_viewer.py:396-419 | With a decompressor that uses no more input than it is given, a record's `compressed_size` is at most the window, so at most 5,000,000. |
| Scanner.AcceptedMembers | insect_hazard_viewer.py:387-431 | A record is in the result iff some candidate yields it. |
| Scanner.AcceptedAscending | insect_hazard_viewer.py:387-431 | Over increasing candidates, the result is no longer than the candidate list. Every offset is a candidate, and offsets are strictly ascending. |
| Scanner.AcceptedPrefix | insect_hazard_viewer.py:387-389 | Stopping after `k` candidates yields a prefix of the full result. |
| Scanner.PlausibleExamples | insect_hazard_viewer.py:409-417 | Sample headers: a 64×64 24-bit block and one 50% over it pass. Twice the 24-bit size fails, and so does a width of 1. |
| Scanner.FiftyPercentOverIsAccepted | insect_hazard_viewer.py:414-417 | A `data_size` of `4.5*w*h` is always accepted, because it is within 30% of `w*h*4`. |
| Scanner.ScanStart | insect_hazard_viewer.py:352-353 | The search starts at a `PAMU` that no other occurrence precedes, and at 0 when `PAMU` occurs nowhere. |
| Scanner.ScanResultProperties | insect_hazard_viewer.py:355-446 | A scan cancelled in phase 2 returns a prefix of the uncancelled result. Every record sits at a recorded header position at or after the start and is what that candidate yields. Offsets ascend. |
| Scanner.ImageScanner.constructor | insect_hazard_viewer.py:334-340 | A new scanner has no images and is not complete. |
| Scanner.ImageScanner.AnalyzeCandidates | insect_hazard_viewer.py:387-436 | The phase-2 loop appends exactly the records of the candidates processed before the cancel point. |
| Scanner.ImageScanner.Scan | insect_hazard_viewer.py:342-446 | An empty file is an error (`mmap` refuses it, line 349), with `images` and `complete` unchanged. Cancelled in phase 1: returns `[]` with `images` empty and `complete` unchanged. Otherwise it returns `images`, which equals the scan result, and sets `complete`. |
| Browser.NormalizeAt | insect_hazard_viewer.py:803 | `replace('\\', '/')` turns each backslash into `/` and keeps every other character in place. |
| Browser.SplitJoin | insect_hazard_viewer.py:803-809 | Joining the pieces of `split(sep)` with `sep` gives back the text. |
| Browser.SplitPiecesAvoid | insect_hazard_viewer.py:803 | No piece of `split(sep)` contains `sep`. |
| Browser.SplitLast | insect_hazard_viewer.py:841 | The last piece of `split(sep)` is the text after the last `sep`. |
| Browser.SplitSingle | insect_hazard_viewer.py:805 | `split` gives one piece iff the separator does not occur. |
| Browser.BaseNameAfterLastSeparator | insect_hazard_viewer.py:841 | The displayed name is the text after the last `/` or `\`. |
| Browser.FolderKeyAtRoot | insect_hazard_viewer.py:805-807 | A name with no separator is filed under the root key `''` and shown whole. |
| Browser.FolderKeyDecomposition | insect_hazard_viewer.py:802-809 | A name with a separator, once normalised, is its folder key, then `/`, then its displayed name. The key has no backslash, and the displayed name has no separator. |
| Browser.FormatLabel | insect_hazard_viewer.py:998-1003 | The label is one of `CK+FL`, `CK`, `FL`, `STD`. It has `CK` iff the chroma flag is 0x8000, and `FL` iff the format flag is 0x1004. |
| Browser.FormatLabelMatchesDecoder | insect_hazard_viewer.py:998-1003 | `CK+FL` marks exactly the images the decoder treats as CK+FL, which always have two planes. An image labelled just `CK` has a single plane keyed green. `FL` and `STD` never mark a green key. |
| Browser.FlipSetting | insect_hazard_viewer.py:1025-1033 | `"on"` maps to `True`, `"off"` to `False`, anything else to `None`. |
| Browser.FlipSettingEffect | insect_hazard_viewer.py:1025-1033 | A parsed image is previewed flipped iff the setting is `"on"`. |

## Left out

- The tkinter GUI of `AssetBrowserApp`: widgets, trees, zoom/pan, the checkerboard, export dialogs and loops. The three pure helpers above are modelled; the rest is presentation.
- zlib itself: `inflate` and `decompress` are function parameters, so properties hold for any decompressor. Nothing is claimed about what a real zlib stream decodes to.
- File I/O, `mmap`, `seek`/`read` and `os.path.getsize`: the file is one immutable byte sequence, and `file_size` is its length.
- The pickle cache (`save_cache`/`load_cache`): it is opaque serialisation whose failure is swallowed.
- Threading and the polling loop: cancellation is an input naming where the flag is first seen. Within phase 1 the model does not say at which position the search stopped, since the result is `[]` either way.
- Progress callbacks, percentages, timing and status strings: none of them affects a result.
- `get_header_info`: hex and text formatting for display only.
- `ImageScanner.get_raw_data`/`get_image` and the export paths: they re-run the decompressor and the DAT decoder already modelled.
- The size and format filters of `populate_image_list`, and the node insertion of `populate_archive_tree` beyond the folder key and displayed name: presentation logic.
- PIL `Image` objects: the raster is `seq<seq<Rgba>>`, row `y`, column `x`. `transpose(FLIP_TOP_BOTTOM)` is `FlipRows`.
- Scanner.Plausible: the 30% tolerance uses the exact integer form `10*|v-e| <= 3*e`. Python compares against the float `e*0.3`, so at the exact boundary its rounding may differ.
- StubArchive.ArchiveEntry.Filename: the entry keeps the raw UTF-16 code units of its name, and the displayed name is computed from them on demand. Python stores the decoded string; the value is the same.
- Utf16.DecodeUtf16: Python's `'utf-16le'` decoding of an odd byte count is not reached here, because the name is always `2*name_len` bytes. Only unpaired surrogates make decoding fail.
- StubArchive.StubArchive.ExtractFile: the entry's `type` tag (`'archive'`/`'image'`) is not modelled, because every archive entry carries the same tag.
