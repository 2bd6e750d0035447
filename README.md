# TIFF spot-channel exporter, modelled in Dafny

The program loads an 8-bit TIFF, RGB or CMYK, and looks for "black" pixels.
From these it builds two things: a cleaned mask of the pixels that carry ink,
and a white-ink image that ramps up as the blackness falls. It adds the mask
to the image as an alpha channel and the white ink as two extra spot channels.
Then it writes the image out. The export can carry a Photoshop resource blob
(TIFF tag 34377), taken from a template file, which is embedded as loaded.
The template header also defines a routine that renames the blob's
alpha-channel names "W1" and "W2" to "A1" and "A2" in place. Its one call,
in `PsTemplate::load` (pstemplate.h:199), is commented out, so the pipeline
never patches the blob; the routine is modelled on its own.

This project models, and proves properties of:

- **`PsTemplate`** (`pstemplate.h`). The blob is an array that is patched in
  place:
  - `replaceBytes` scans a byte range and overwrites every window that
    matches a pattern.
  - `patch1045_W1W2_to_A1A2` makes four such replacements on the UTF-16
    names.
  - `patch1006_W1W2_to_A1A2` walks a list of Pascal strings.
  - `patchPs34377_renameW1W2` walks the Image Resource Blocks of the blob
    ("8BIM", a big-endian id, a padded Pascal name, a big-endian size and the
    padded data). It patches the data of blocks 1045 and 1006.

  Each method is proved against a function that follows the code on the
  evolving bytes. Those functions are in turn characterised independently:
  - which windows and bytes change;
  - the closed form of the 1006 walk over its entry list;
  - the block list of the blob and the last block with each id;
  - a block encoder whose output parses back.
- **`Bytes`**. Big-endian 16/32-bit reading and encoding, with both round trips.
- **`TiffImage`** (`tiffimage.h`). The tag record `TiffMeta` and its channel
  queries; the name tables; the `TiffImage` class (meta, pixel buffer,
  `bytesPerRow`).
- **`CvMat`**. The part of an OpenCV matrix the pipeline relies on: its size,
  its element type and its bytes in row order.
- **`TiffProcess`** (`tiffprocess.cpp`). The integer stages, each as a method
  over an output array filled row by row and proved equal to a function of
  its input:
  - `clamp8`;
  - `generateRgbMat` (RGB to BGR, and the fixed CMYK approximation);
  - `calcBlackness` (MAX_CHANNEL; the float measures come in as a parameter);
  - `removeBlack` (inverted binary threshold);
  - the post-labelling filter of `removeSmallComponents`;
  - `generateWhiteCompensation`.
- **`ExtraChannels`** (`tiffprocess.cpp`, `updateExtraChannels`). The
  re-layout of the interleaved buffer. A method over the `TiffImage` object
  rebuilds the buffer pixel by pixel and replaces the ExtraSamples list and
  the sample count.
- **`TiffPipeline`** (`tiffprocess.cpp`, `genernateTiffFile` and the guard of
  `writeTiff`). The stage sequence as a method of the processor object, which
  short-circuits on the first failing status.

## Model

| member | source | states |
|---|---|---|
| Bytes.ReadEncodeBE16 | pstemplate.h:118 | reading back the two big-endian bytes of a 16-bit value gives the value |
| Bytes.ReadEncodeBE32 | pstemplate.h:137 | reading back the four big-endian bytes of a 32-bit value gives the value |
| Bytes.EncodeReadBE16 | pstemplate.h:118 | the 16-bit reader loses nothing: re-encoding its result gives exactly the two bytes it read |
| Bytes.EncodeReadBE32 | pstemplate.h:137 | the 32-bit reader loses nothing: re-encoding its result gives exactly the four bytes it read |
| PsTemplate.Replaced | pstemplate.h:9-21 | replaceBytes keeps the length; it reports a change iff the patterns have the same non-zero length and some window matches; when it reports none, no byte changed (this covers the early `false` for bad lengths and for a too-short buffer) |
| PsTemplate.ScanFacts | pstemplate.h:13-20 | the scan from window i keeps the length, reports a change iff one was reported before or a window from i on matches, and leaves the bytes alone when none does |
| PsTemplate.ScanOnlyRewrites | pstemplate.h:13-19 | with patterns that differ in one byte d, the scan only turns bytes equal to from[d] into to[d], even when windows overlap |
| PsTemplate.ReplacedOnlyRewrites | pstemplate.h:9-21 | replaceBytes with patterns differing in one position changes only bytes equal to from[d], into to[d] |
| PsTemplate.ScanStep | pstemplate.h:14-18 | one window of the scan: a match is overwritten, and scanning resumes at the next window of the rewritten bytes |
| PsTemplate.ReplaceWindow | pstemplate.h:15-18 | the memcmp/memcpy of one window: reports the match and writes `to` there on a match; bytes outside the window range are unchanged |
| PsTemplate.WriteWindow | pstemplate.h:16 | the memcpy writes exactly `to` at the window and changes no other byte |
| PsTemplate.ReplaceBytes | pstemplate.h:9-21 | the in-place scan over [off, off+n) of the array leaves the bytes outside untouched and leaves the range and the result as `Replaced` says |
| PsTemplate.Patched1045 | pstemplate.h:23-48 | the four replacements keep the length and report a change iff one of the W1/W2 patterns (BE or LE) occurs in the input |
| PsTemplate.Patched1045OnlyTurnsWIntoA | pstemplate.h:27-47 | patch1045 only ever turns 0x57 ('W') into 0x41 ('A'); every other byte is kept |
| PsTemplate.Patch1045 | pstemplate.h:23-48 | the in-place patch changes only its range, which becomes `Patched1045` of the old bytes, with its result |
| PsTemplate.Walk1006 | pstemplate.h:51-92 | the entry walk never changes the length of the bytes |
| PsTemplate.Entries1006 | pstemplate.h:56-89 | the entries the walk reaches: each one's length byte and content lie inside the range, and they come in order without overlap |
| PsTemplate.EntriesStep | pstemplate.h:56-89 | an entry whose content and pad byte fit is followed by the entries from where the walk continues |
| PsTemplate.EntriesFrame | pstemplate.h:56-89 | the entry list from pos depends only on the bytes from pos on |
| PsTemplate.RenamedStep | pstemplate.h:59-88 | one entry of the closed form: rewriting the entry and continuing from the next entry gives the closed form at pos |
| PsTemplate.Walk1006Step | pstemplate.h:59-88 | one turn of the walk: the entry is rewritten, then the walk continues at the next entry with idx+1 and the change flag updated |
| PsTemplate.LastEntryRenamed | pstemplate.h:82-84 | an odd entry whose pad byte is missing ends the walk after its rewrite, as the closed form says |
| PsTemplate.WalkIsRenamed | pstemplate.h:56-91 | the walk equals the closed form: only entries 1 and 2 of length 2 are renamed, to "A1"/"A2", and a change is reported iff such an entry was reached |
| PsTemplate.Walk1006FromStart | pstemplate.h:51-92 | patch1006 as called (pos 0, idx 0) renames exactly entries 1 and 2 of length 2 and reports whether it reached one, whatever they held before |
| PsTemplate.RewriteEntry | pstemplate.h:63-77 | the writes of one entry: its two content bytes when length is 2 and idx is 1 or 2, reported as a hit; nothing else changes |
| PsTemplate.Patch1006 | pstemplate.h:51-92 | the in-place walk over [off, off+size) changes only that range, which becomes `Walk1006` of the old bytes, with its result |
| PsTemplate.ParseRecord | pstemplate.h:105-148 | a parsed block starts at pos; its data starts at least 12 bytes later; its data and pad byte lie inside the blob; so each accepted block advances the cursor |
| PsTemplate.Pad | pstemplate.h:128-132 | the pad makes a field of n bytes even |
| PsTemplate.RecordHeader | pstemplate.h:108-132 | a block header is 7 bytes plus the name plus the name's pad byte |
| PsTemplate.EncodeRecord | pstemplate.h:105-148 | every encoded block is at least 12 bytes long |
| PsTemplate.HeaderFields | pstemplate.h:108-124 | an encoded header reads back as "8BIM", the id and the name length |
| PsTemplate.BodyFields | pstemplate.h:134-143 | an encoded size field and data read back after the header |
| PsTemplate.ParseRecordOf | pstemplate.h:105-148 | a block whose fields read as given parses with that id, data offset, size and next position (name and data padded to even) |
| PsTemplate.ParseEncodedRecord | pstemplate.h:105-148 | parsing an encoded block, whatever follows it, gives back its id and exactly its data, and the next block starts right after it |
| PsTemplate.RecordPatch | pstemplate.h:149-159 | the patch of a block's data keeps its length, and a block that is neither 1045 nor 1006 is left alone and reports no change |
| PsTemplate.WalkBlob | pstemplate.h:105-163 | the block walk never changes the blob's length |
| PsTemplate.PatchedBlob | pstemplate.h:95-168 | patchPs34377 never changes the blob's length |
| PsTemplate.Records | pstemplate.h:105-163 | the blocks the walk accepts start at pos, follow each other without gaps, have their data after a 12-byte header, and lie inside the blob |
| PsTemplate.LastWithId | pstemplate.h:149-159 | the index of the last block with an id, or -1 exactly when no block has it |
| PsTemplate.ParseRecordFrame | pstemplate.h:105-148 | parsing a block reads only bytes from its start on |
| PsTemplate.RecordsFrame | pstemplate.h:105-163 | the block list from pos reads only bytes from pos on, so patching earlier data never changes the later walk |
| PsTemplate.LastWithIdCons | pstemplate.h:149-159 | the last block with an id in [r] + rest is the last one in rest if any, else r itself if it carries the id |
| PsTemplate.RegionsAgree | pstemplate.h:149-159 | blocks whose data lies where two blobs agree have the same data in both |
| PsTemplate.FinalFlagCons | pstemplate.h:149-159 | the final flag over [r] + rest is the flag over rest, starting from the value r leaves behind |
| PsTemplate.WalkStep | pstemplate.h:105-163 | one accepted block: the walk continues at its next position on the patched blob, and the later blocks parse and read the same there |
| PsTemplate.WalkBlobStep | pstemplate.h:105-163 | one accepted block: its data is spliced with its patch and the matching flag is overwritten (not or-ed) by that patch's result |
| PsTemplate.WalkBlobFlags | pstemplate.h:149-159 | each flag at the end of the walk is the result of the patch on the LAST block with that id, or its initial value when there is none |
| PsTemplate.PatchedBlobChanged | pstemplate.h:95-167 | patchPs34377 returns true iff the blob is non-empty and the last 1045 patch and the last 1006 patch both reported a change |
| PsTemplate.WalkBlobData | pstemplate.h:105-163 | after the walk, each accepted block's data is its patch applied to its original data, and every byte outside those data is unchanged |
| PsTemplate.PatchedBlobData | pstemplate.h:95-168 | the same for the whole function: patched block data, all other bytes unchanged |
| PsTemplate.ReadRecord | pstemplate.h:105-148 | the cursor code parsing one block succeeds exactly when `ParseRecord` does and returns its id, data offset, size and next position |
| PsTemplate.PatchBlockData | pstemplate.h:149-159 | the two patch calls of one turn: the data of a 1045 or 1006 block becomes its patch, all other bytes are kept |
| PsTemplate.PatchPs34377 | pstemplate.h:95-168 | the in-place walk leaves the vector as `PatchedBlob` of the old contents, with its result |
| TiffImage.AnyAlphaFrom | tiffimage.h:37-43 | the hasAlpha loop from i finds an alpha iff some later extra sample is an alpha code |
| TiffImage.FirstAlphaFrom | tiffimage.h:109-116 | the search loop from i returns the first alpha index at or after i, or -1 iff there is none |
| TiffImage.TiffMeta.HasAlpha | tiffimage.h:37-43 | hasAlpha holds iff some extra sample is 1 or 2 (isAlphaSample) |
| TiffImage.TiffMeta.BaseColorSamples | tiffimage.h:56-69 | 3 for RGB, 4 for Separated, 1 for MinIsBlack/MinIsWhite, samplesPerPixel minus the extra count otherwise |
| TiffImage.FindAlphaExtraIndex | tiffimage.h:109-116 | the first index holding an alpha code, or -1, with no alpha before it |
| TiffImage.HasAlphaIffFound | tiffimage.h:109-116 | findAlphaExtraIndex is >= 0 iff hasAlpha |
| TiffImage.AlphaSampleFromIsFirst | tiffimage.h:46-54 | the alphaSampleIndex loop returns base plus the first alpha index, or -1 |
| TiffImage.AlphaSampleIndexIsBasePlusFound | tiffimage.h:46-54 | alphaSampleIndex is baseColorSamples() + findAlphaExtraIndex when an alpha exists, else -1 |
| TiffImage.PhotometricToString | tiffimage.h:118-129 | the name table is total: "(RGB)", "(CMYK)", "(Gray)", and "(Other)" exactly for every other code |
| TiffImage.ExtraSampleToString | tiffimage.h:131-142 | the name table is total: the three TIFF 6.0 names, and "(UNKNOWN)" exactly for codes above 2 |
| TiffImage.TiffImage.constructor | tiffimage.h:85-88 | an image holds the given meta, a buffer with the given bytes and the given bytesPerRow |
| TiffImage.TiffImage.ChannelCount | tiffimage.h:92 | channelCount is samplesPerPixel |
| TiffImage.TiffImage.ExtraSampleCount | tiffimage.h:100-102 | extraSampleCount is the length of the ExtraSamples list |
| TiffImage.TiffImage.IsRGBLike | tiffimage.h:95-97 | holds exactly for 8-bit samples with photometric RGB |
| TiffImage.TiffImage.ChannelsSplit | tiffimage.h:92-102 | an RGB-like image has 3 base colour samples; for an unlisted photometric, base plus extra samples is the channel count |
| CvMat.MatType.Channels | tiffprocess.cpp:124 | CV_8UC3 has three channels per element, every other type one |
| TiffProcess.Clamp8 | tiffprocess.cpp:11-13 | clamp8 is the identity on 0..255, 0 below and 255 above |
| TiffProcess.RgbStatus | tiffprocess.cpp:108-176 | generateRgbMat's status: -1 for bits != 8, then -2 for a non-contiguous layout, then -3 for an empty size or spp < 3, -4 for CMYK with 3 samples, -5 for another photometric, 0 exactly when convertible |
| TiffProcess.SamplesInside | tiffprocess.cpp:135-155 | every sample read for pixel i, at its 32-bit wrapped index times spp, lies inside the raw buffer |
| TiffProcess.CmykPixelIs | tiffprocess.cpp:155-169 | a CMYK pixel displays as clamp8(255-(Y+K)), clamp8(255-(M+K)), clamp8(255-(C+K)), in B, G, R order |
| TiffProcess.DisplayImage | tiffprocess.cpp:124-171 | the converted image has three bytes per pixel |
| TiffProcess.DisplayImageAt | tiffprocess.cpp:133-171 | bytes 3i..3i+2 of the converted image are pixel i's B, G, R |
| TiffProcess.RgbDisplayIsSwap | tiffprocess.cpp:133-147 | an RGB pixel at offset i*spp displays as (p[2], p[1], p[0]) |
| TiffProcess.RgbPixelFromSamples | tiffprocess.cpp:135-145 | an RGB pixel's display bytes are its first three samples reversed |
| TiffProcess.RgbDisplayIgnoresExtras | tiffprocess.cpp:133-147 | RGB buffers that agree on every pixel's first three samples display the same image: extra channels never show |
| TiffProcess.CmykChannel | tiffprocess.cpp:163-165 | one CMYK channel is 255-ink-K when that is non-negative, else 0: full K gives 0, no ink and no K gives 255 |
| TiffProcess.ConvertRgbPixel | tiffprocess.cpp:135-145 | one RGB pixel writes its three display bytes and nothing else |
| TiffProcess.ConvertRgbRow | tiffprocess.cpp:134-146 | one row of the RGB loop writes that row's display bytes and keeps earlier bytes |
| TiffProcess.ConvertRgbRows | tiffprocess.cpp:131-147 | the RGB loop nest fills the output with the display image |
| TiffProcess.ConvertCmykPixel | tiffprocess.cpp:155-169 | one CMYK pixel writes its three display bytes and nothing else |
| TiffProcess.ConvertCmykRow | tiffprocess.cpp:154-170 | one row of the CMYK loop writes that row's display bytes and keeps earlier bytes |
| TiffProcess.ConvertCmykRows | tiffprocess.cpp:148-171 | the CMYK loop nest fills the output with the display image |
| TiffProcess.CreateMat | tiffprocess.cpp:124 | create() gives the requested size and type, and keeps a matrix that already has them |
| TiffProcess.GenerateRgbMat | tiffprocess.cpp:104-177 | the status is `RgbStatus`; on success the output is the display image (height x width, CV_8UC3); after -4/-5 the output has been created; after -1..-3 it is untouched |
| TiffProcess.Max3 | tiffprocess.cpp:426 | std::max of three bytes is one of them and at least each |
| TiffProcess.BlacknessStatus | tiffprocess.cpp:387-431 | calcBlackness's status: -1 for an empty or non-CV_8UC3 input, else -2 for an unknown method, else 0 |
| TiffProcess.BlacknessImage | tiffprocess.cpp:390-436 | the blackness image has one byte per pixel |
| TiffProcess.MaxChannelBlackness | tiffprocess.cpp:424-428 | MAX_CHANNEL is 255 minus the maximum: symmetric in the channels, 0 iff some channel is 255, 255 iff all are 0, at most 255 minus each channel |
| TiffProcess.PixelBlackness | tiffprocess.cpp:401-434 | the switch for one pixel: false for the default case, else the pixel's blackness |
| TiffProcess.BlacknessRow | tiffprocess.cpp:392-436 | one row: false on an unknown method, else the row holds its blackness; other bytes are kept |
| TiffProcess.FillBlackness | tiffprocess.cpp:392-436 | the loop nest: false on an unknown method, else the output is the blackness image |
| TiffProcess.CalcBlackness | tiffprocess.cpp:385-439 | the status is `BlacknessStatus`; on success the output is the blackness image of the same size, CV_8UC1; after -2 (unknown method) the output has already been created with that size and type; after -1 it is untouched |
| TiffProcess.MaskStatus | tiffprocess.cpp:443-444 | the status of removeBlack and of removeSmallComponents (the same guard at tiffprocess.cpp:451-452): -1 exactly for an empty or non-CV_8UC1 input, else 0 |
| TiffProcess.RemoveBlack | tiffprocess.cpp:441-447 | on success the output has the input's size and type and is 255 exactly where blackness <= thresh, 0 exactly where it is > thresh |
| TiffProcess.ThresholdInvMonotone | tiffprocess.cpp:445 | the inverted threshold is binary and monotone in thresh |
| TiffProcess.ThresholdInvExtremes | tiffprocess.cpp:445 | a negative threshold clears the mask; one of 255 or more fills it |
| TiffProcess.ComponentsFilter | tiffprocess.cpp:460-472 | the filtered mask has the input's size and is CV_8UC1 |
| TiffProcess.ComponentsRow | tiffprocess.cpp:462-472 | one row of the loop over a zero output writes 255 where the label is foreground with area >= minArea, and changes no other byte |
| TiffProcess.RemoveSmallComponents | tiffprocess.cpp:449-474 | the status is `MaskStatus`; on success the output is the filtered mask; on failure the output is untouched |
| TiffProcess.ComponentsKeepOnlyForeground | tiffprocess.cpp:466-470 | background pixels stay 0 |
| TiffProcess.ComponentsSmallMinArea | tiffprocess.cpp:466-470 | with minArea <= 1 the output is the input made binary |
| TiffProcess.ComponentsMonotone | tiffprocess.cpp:468 | raising minArea only removes pixels |
| TiffProcess.WhiteStatus | tiffprocess.cpp:480-490 | generateWhiteCompensation's checks in order: -1 empty, -2 type, -3 size, -4 thresh outside 1..255, 0 exactly when all pass |
| TiffProcess.WhiteImage | tiffprocess.cpp:493-521 | the white image has the blackness image's size and is CV_8UC1 |
| TiffProcess.WhiteRampRange | tiffprocess.cpp:517-519 | below the threshold the ramp (thresh-b)*255/thresh lies in 1..255, so the clamp never applies; blackness 0 gives 255 |
| TiffProcess.WhiteValueZero | tiffprocess.cpp:504-519 | the output is 0 exactly where the mask is 0 or b >= thresh |
| TiffProcess.WhiteValueAntitone | tiffprocess.cpp:509-519 | darker pixels never get more white |
| TiffProcess.WhiteValueIsRamp | tiffprocess.cpp:517-519 | where the mask is set and blackness is below thresh, the white value is (thresh - b) * 255 / thresh truncated: the largest v with v * thresh <= (thresh - b) * 255 |
| TiffProcess.WhiteRow | tiffprocess.cpp:497-521 | one row of the loop writes that row of the white image and changes no other byte |
| TiffProcess.GenerateWhiteCompensation | tiffprocess.cpp:476-523 | the status is `WhiteStatus`; on success the output is the white image; on failure the output is untouched |
| TiffProcess.Complement | tiffprocess.cpp:554 | 255 - m keeps the size and type |
| TiffProcess.ComplementInvolution | tiffprocess.cpp:554 | the complement undoes itself and swaps 0 and 255 |
| ExtraChannels.AsInt32 | tiffprocess.cpp:199-200 | static_cast<int> of a uint32: unchanged below 2^31, negative (minus 2^32) from 2^31 on |
| ExtraChannels.ColorChannels | tiffprocess.cpp:206-213 | 3 for RGB, 4 for Separated (baseColorSamples), -1 exactly for anything else |
| ExtraChannels.InjectStatus | tiffprocess.cpp:186-213 | the checks in order: -1 bits/layout, -2 an empty mask, -3 a non-CV_8UC1 mask, -4 a size mismatch (with the int casts), -5 another photometric; 0 exactly when all pass |
| ExtraChannels.NewExtraSamplesShape | tiffprocess.cpp:216-235 | the new role list is the old list plus [0, 0] when an alpha exists, else [2] plus the old list plus [0, 0]; it always declares an alpha |
| ExtraChannels.NewSppIs | tiffprocess.cpp:238-240 | the new sample count is colour channels plus the old extras plus 3 (2 when an alpha existed) |
| ExtraChannels.Blocks | tiffprocess.cpp:254 | n pixels of w bytes give a buffer of n*w bytes |
| ExtraChannels.BlocksAt | tiffprocess.cpp:259-284 | pixel i's bytes lie at i*w .. i*w+w |
| ExtraChannels.InjectedBuffer | tiffprocess.cpp:252-254 | the rebuilt buffer has width*height*newSpp bytes |
| ExtraChannels.InjectedBufferAt | tiffprocess.cpp:259-284 | pixel i's newSpp bytes sit at i*newSpp |
| ExtraChannels.AcceptedIsReady | tiffprocess.cpp:186-213 | inputs every check accepts give one mask byte per pixel and an RGB/CMYK image |
| ExtraChannels.PixelInside | tiffprocess.cpp:259-284 | every source byte read for pixel i lies inside the buffer and every mask byte inside its mask |
| ExtraChannels.Record | tiffprocess.cpp:261-280 | a rebuilt pixel has colour + old extras + 3 bytes (2 when an alpha is dropped) |
| ExtraChannels.RecordAt | tiffprocess.cpp:261-280 | byte c of a rebuilt pixel, by the part it falls in |
| ExtraChannels.SampleOfRecord | tiffprocess.cpp:261-280 | the per-sample description of the copy agrees with the pixel record |
| ExtraChannels.InjectedBlock | tiffprocess.cpp:259-284 | pixel i of the rebuilt buffer is its colour bytes verbatim, the alpha byte, its old extras in order without the old alpha, then extra1 and extra2 |
| ExtraChannels.InjectedPixelLayout | tiffprocess.cpp:252-284 | the same, read at offset i*newSpp of the rebuilt buffer of a ready image |
| ExtraChannels.RolesMatchIffAlphaFirst | tiffprocess.cpp:222-264 | the declared roles match what the buffer carries iff there is no alpha or it is the first extra; with an alpha at k > 0 the first extra slot holds the mask but is declared non-alpha |
| ExtraChannels.InjectPixel | tiffprocess.cpp:261-280 | one pass of the copy loop writes pixel i's newSpp bytes and nothing else |
| ExtraChannels.RebuildBuffer | tiffprocess.cpp:252-284 | the copy loop, with cursors advancing by oldSpp and newSpp, produces the rebuilt buffer in a fresh array |
| ExtraChannels.UpdateExtraChannels | tiffprocess.cpp:179-292 | the status is `InjectStatus`; on success meta gets the new role list and samplesPerPixel as a uint16, and the buffer is replaced by the rebuilt one; every other field, bytesPerRow included, is kept; on failure the image is untouched |
| TiffPipeline.WriteStatus | tiffprocess.cpp:312-382 | writeTiff's status: -1 exactly for an empty buffer; -10 only for a non-empty template that does not match; -3 only when a scanline write fails |
| TiffPipeline.WriteNeverMismatchesTemplate | tiffprocess.cpp:349-356 | a non-empty template is written only into a file it matches; an empty one never blocks; with the file open and every row written, a match means success |
| TiffPipeline.DisplayMat | tiffprocess.cpp:124 | the display image is height x width, CV_8UC3, non-empty |
| TiffPipeline.BlacknessMat | tiffprocess.cpp:390 | the blackness image is CV_8UC1 of the display image's size |
| TiffPipeline.Analyse | tiffprocess.cpp:531-554 | a failed analysis carries a non-zero status |
| TiffPipeline.AnalyseFailures | tiffprocess.cpp:531-553 | only the display conversion, an unknown method (-2) and a threshold outside 1..255 (-4) can stop the analysis; the other checks never fire |
| TiffPipeline.AnalysedMasks | tiffprocess.cpp:542-554 | the mask passed as alpha is binary and only covers pixels with blackness <= thresh; the white ink is 255 wherever the mask is clear or the pixel is at least thresh black |
| TiffPipeline.Inject | tiffprocess.cpp:555 | the injected buffer has width*height*newSpp bytes |
| TiffPipeline.InjectedThenWritten | tiffprocess.cpp:555-562 | once analysis and injection succeed, the result is the writer's status on the injected image, never -1; with I/O succeeding it is 0 iff there is no template or the template matches the new layout |
| TiffPipeline.Processor.GenerateTiffFile | tiffprocess.cpp:525-563 | returns the first non-zero stage status; the image is replaced by the injection (alpha = the filtered mask, both spots = 255 - white compensation) exactly when analysis and injection succeed, else it is untouched; bytesPerRow is kept |

## Left out

- The rename of the template blob is not part of the pipeline, as its call in
  `PsTemplate::load` is commented out: `TiffPipeline.WriteStatus` and
  `GenerateTiffFile` take the blob as loaded.
- File I/O: `readTiffImage`, `loadTiff`, the tag and scanline writes of
  `writeTiff`, and `PsTemplate::load`. These are libtiff calls. In
  `WriteStatus`, whether the output file opens and whether some scanline
  write fails are boolean parameters. The code opens (and so creates or
  truncates) the output file before it checks the template. The model keeps
  that order: a failed open (-2) takes precedence over a mismatch (-10).
- The floating-point GRAY and DARK_NEUTRAL measures of `calcBlackness`. Their
  per-pixel scores come in as the `floatScore` parameter.
- OpenCV's `connectedComponentsWithStats`. The labelling is a parameter: one
  label per pixel and one area per label, 0 exactly on background. Which
  pixels are grouped together (8-connectivity) is not modelled.
- `TiffPipeline.AnalysedMasks` and `ComponentsFilter` do not prove that the
  components are connected, since the grouping is a parameter.
- Matrix allocation: `create` on a matrix of another size or type yields
  zero bytes in the model, where OpenCV leaves them uninitialised. This
  applies to the output of `generateRgbMat` after -4 and -5, and to the
  output of `calcBlackness` after -2.
- The check `rgbImg.empty()` in `genernateTiffFile` can never fire after a
  successful conversion. The model keeps no separate branch for it, and
  `AnalyseFailures` proves that it and the type/size checks of the later
  stages never fire.
- `whiteInk.clone()` is modelled as the same contents passed twice. Aliasing
  and copying are not modelled.
- `bytesPerRow` is stale after the injection. The model keeps it unchanged,
  as the code does, and the writer uses the codec's own stride.
- `oldAlphaSample` is computed and never used; it has no counterpart.
- `ExtraChannels.UpdateExtraChannels`: the rule "each of the newSpp bytes is
  written exactly once" is stated as each byte's final value, not as a count
  of writes. The buffer is allocated fresh, so no byte is read before it is
  written.
- `ExtraChannels.UpdateExtraChannels`: requires that the old buffer covers
  the copy loop's reads. The code reads the old buffer without checking it.
  `TiffPipeline.Processor.GenerateTiffFile` requires the same, but only when
  the analysis succeeds and the injection's checks pass, since only then does
  it reach the copy loop.
- `TiffProcess.GenerateRgbMat`: once its checks pass, requires that the
  buffer holds `width*height*samplesPerPixel` bytes, as the reader sizes it.
  The code indexes the buffer without checking its length.
- Sizes are unbounded integers. Three 32-bit effects are modelled:
  - the `int` casts of width and height in `updateExtraChannels` (`AsInt32`);
  - the `uint32_t` pixel index `y*width+x` of `generateRgbMat`, reduced
    modulo 2^32 (`PixelOffset`);
  - the `uint16_t` sample count.

  Products past 2^64 (`size_t`) are not modelled.
- `TiffProcess.CreateMat`, `TiffProcess.GenerateRgbMat`: `outRgb.create(height,
  width, CV_8UC3)` passes the `uint32_t` sizes as `int`. For a width or
  height of 2^31 or more, OpenCV throws. The model has no exception: it
  creates the matrix with the unbounded sizes and carries on.
- `PsTemplate.ParseRecord`: an accepted block is at least 12 bytes long, so
  the code's `pos <= blockStart` check never fires and has no branch. Its
  `pos + 1 > size` check in the 1006 walk is likewise dead.
- `readBE16` and `readBE32` are not part of this model's source files. They
  are defined as big-endian reads in `Bytes`.
- `samplesPerPixel` is stored as `uint16_t`. The model stores the new count
  modulo 2^16. The `uint16_t` cast of the ExtraSamples count in `writeTiff`
  is not modelled.
- The `dump*` debug printers, the `getInstance` singleton (the processor is
  an explicit object), the UI, `tiffprocessapi.cpp` and
  `tiffprocesslibrary.cpp` are outside the modelled core.
- The resolution fields (floats) of `TiffMeta` are not used by any modelled
  operation and are left out of the record.
