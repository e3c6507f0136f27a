# Asset compiler model

A Dafny model of `compile_assets.py`, the build-time script that turns a list
of asset files into one binary blob for a game runtime. The script

- classifies every input path by its extension: `.png` images, `name@X,Y.png`
  sprite sheets, `.aseprite` animations and `.opus` sounds;
- packs every image, grid cell and animation frame onto 512x512 texture pages
  with a shelf packer (`Atlas.pack`) and a page-list policy (`atlas_pack`)
  that opens a fresh page once when the current one refuses an item;
- collects named records (images, sheets, animations, sounds) that point at
  `(page, rectangle)` placements;
- writes a header (page count and four name blocks), then two u32 lengths
  and the compressed payload (page pixels, rectangles, frame lists with
  durations, sound data).

The model keeps the script's shape:

- `Packer` holds the shelf packer as a function (`Place`) and as the
  class `Atlas`, whose `Pack` method updates the cursor fields in place.
  It also holds the page-list policy `PackOnto`.
- `Ingest` gives the main loop as functions over a `State`, from one file
  (`Step`) to the whole command line (`Run`). `IngestLemmas` holds what
  the classification, grid, tag and failure rules promise.
- `Compiler` is the step-by-step program. The class `Assets` holds the
  script's globals (`atlases`, `images`, `sheets`, `anims`, `sounds`).
  Each of its methods is proved to leave exactly the state the matching
  `Ingest` function computes.
- `Encoding` and `Output` give the byte format, with a reader for every
  writer and round-trip lemmas up to the whole file. `WriteHeader`,
  `WritePayload` and `CompileAssets` are the script's output loops, proved
  equal to those functions.
- `Names` covers the POSIX `os.path.basename` (splitting on '/' only), `os.path.splitext`, `str.split` with a
  maximum and `int()` on a grid count.
- `Utf8` covers `str.encode()`.
- `BigEndian` covers `struct.pack('>H')` and `struct.pack('>I')`.
- `Sequence` covers concatenated records and reading them back.
- `Fill` proves how the packer fills pages with a run of equal items.

Every abort the script itself decides (`exit(1)` for a missing input file
or after its own checks, or
an exception raised by `int()`, by a zero count or by `struct.pack`) is an
`Err` of `Common.Error`, and nothing is written then. Failures inside the
libraries and tools it calls are not modelled (see "Left out").

Points where the code behaves in a way worth spelling out:

- `Atlas.pack` starts a new row *before* it tests the height, so a refused
  item can leave the cursor wrapped (`Packer.Place`).
- An item wider than a page but not taller is accepted at x = 0 and runs
  past the right edge; only an item taller than a page aborts the build
  (`Packer.PackOnto`, `Ingest.PackAllFails`).
- The script handles no tile maps, so neither does the model.
- A sheet's counts go through `int()`: a negative count gives an empty
  `range` and so no cells, and a zero count is a division by zero.
- With items of one size, the packer fills each page before it opens the
  next: `n` copies of one item of `w` by `h` fill exactly `ceil(n / k)`
  pages, where `k = (512 / w) * (512 / h)` (`Fill`). With mixed sizes it
  can leave gaps: after a 10 by 300 item, a 510 by 300 item wraps to
  y = 300, does not fit and opens a new page beside the free space.

## Model

| member | source | states |
|---|---|---|
| Packer.Place | compile_assets.py:30-44 | an item is refused exactly when, after the row wrap, it would overhang the bottom edge; a refused item leaves the cursor wrapped; an accepted one is placed at the (wrapped) cursor, inside the page or at x = 0 if over-wide, the cursor moves right by its width and the shelf bottom grows to its bottom edge |
| Packer.PackKeepsShelved | compile_assets.py:30-44 | every rectangle the packer hands out lies inside the page and overlaps none handed out before on that page (the shelf invariant `Shelved` is preserved) |
| Packer.Atlas.constructor | compile_assets.py:23-27 | a new page has its cursor and shelf bottom at 0 and nothing placed |
| Packer.Atlas.Pack | compile_assets.py:30-44 | the in-place packer leaves the cursor and returns the rectangle that `Place` computes, records the rectangle it pasted, and keeps the shelf invariant |
| Packer.PackOnto | compile_assets.py:55-67 | `atlas_pack` fails (the "atlas pack failed" exit) exactly for an item taller than a page; otherwise the item lands, at its own size and inside the page, on the last page, after at most one new page; pages are never removed |
| Packer.PackOntoLastFirst | compile_assets.py:59-62 | an item the last page accepts stays on that page, at the place `Place` gives, and no page is opened; a refused item opens exactly one new page, and the refusing page keeps its wrapped cursor |
| Packer.PackOntoKeepsEarlier | compile_assets.py:55-67 | `atlas_pack` changes only the last page and may add one: every earlier page keeps its cursor |
| Ingest.GridKind | compile_assets.py:76-82 | a sheet suffix is an "invalid spritesheet definition" exactly when its split at ',' (at most two splits) does not give two parts; otherwise it is a sheet of X columns and Y rows, the `int()` of the two parts, named by the part before '@', and it fails with a bad count exactly when one of the two parts is not an integer |
| Ingest.PackAll | compile_assets.py:55-67 | packing a run of items one after another keeps every page well formed; the only failure is the atlas-pack failure |
| Ingest.PackAllFails | compile_assets.py:55-67 | a run of `atlas_pack` calls aborts exactly when one of its items is taller than a page |
| Ingest.PackAllPlaces | compile_assets.py:55-67 | a run that succeeds returns one placement per item, in order, each of the item's size and inside an existing page, and loses no page |
| Ingest.SheetStep | compile_assets.py:84-92 | a sprite sheet leaves every record pointing inside an existing page |
| Ingest.TagFrames | compile_assets.py:107-108 | every frame of a tag uses one of the file's packed frame rectangles |
| Ingest.TagAnims | compile_assets.py:107-109 | one animation per tag; the only failure is a frame index past the end; every frame uses a packed rectangle of this file |
| Ingest.AnimStep | compile_assets.py:98-109 | an Aseprite file leaves every record pointing inside an existing page |
| Ingest.ImageStep | compile_assets.py:94-96 | a whole image leaves every record pointing inside an existing page |
| Ingest.Step | compile_assets.py:69-117 | one iteration of the main loop keeps every record pointing inside an existing page |
| Ingest.Run | compile_assets.py:69-117 | after any successful run every image, sheet cell and animation frame refers to an existing page, inside it |
| IngestLemmas.RowCells | compile_assets.py:88-89 | the inner loop crops row `y` at columns 0, 1, ... in order |
| IngestLemmas.GridCellsOrder | compile_assets.py:87-89 | an X by Y sheet yields exactly X*Y cells in row-major order: item k is the cell at column k mod X, row k div X |
| IngestLemmas.TallCellFailsGrid | compile_assets.py:87-89 | a single grid cell taller than a page aborts the whole sheet |
| IngestLemmas.PackAllAppend | compile_assets.py:55-67 | packing two runs in a row is packing the first, then packing the second onto the pages the first left: the page state carries across files |
| IngestLemmas.SheetStepResult | compile_assets.py:84-92 | a successful sheet has non-zero counts; it takes the pages `PackAll` leaves for its grid cells and appends exactly one sheet, under the name before '@', holding the placements `PackAll` returned, one per cell at that cell's size; images, animations and sounds stay as they were |
| IngestLemmas.TagAnimsResult | compile_assets.py:107-109 | the tags fail exactly when one has `from <= to` and `to` past the last frame; otherwise tag i becomes the animation `<file>_<tag>` whose frames are the packed rectangles and durations of frames `from ..= to` (none when `from > to`) |
| IngestLemmas.TagExample | compile_assets.py:107-109 | a tag over frames 2 to 4 of five frames lasting 10 to 50 ms gives one animation `walk_left` of three frames of 30, 40 and 50 ms |
| IngestLemmas.ClassifyExtension | compile_assets.py:70-117 | `Ingest.Classify` aborts with "unknown extension" exactly when the extension of the base name is none of .png, .aseprite and .opus; it is an Aseprite file exactly for .aseprite and a sound exactly for .opus, named by the base name without extension; a .png goes on to `PngKind` |
| IngestLemmas.PngKindResult | compile_assets.py:72-79 | `Ingest.PngKind`: a .png name is a sprite sheet exactly when it holds one '@' (none or several make a plain image); the sheet takes the text before '@' as its name and is invalid exactly when the text after it does not hold one ',' |
| IngestLemmas.ClassifyPng | compile_assets.py:70-79 | the same rule applied to a path: the name is the base name without the .png extension |
| IngestLemmas.ClassifyGridCounts | compile_assets.py:70-82 | a path `base@X,Y.png` with decimal counts, where `base` holds no '@' or '/' (dots allowed), is the sheet `base` with X columns and Y rows |
| IngestLemmas.DottedSheetName | compile_assets.py:70-82 | `hero.v2@4,3.png` is the sheet `hero.v2` of 4 columns and 3 rows: `splitext` cuts only the last extension |
| IngestLemmas.ImageStepResult | compile_assets.py:94-96 | a plain image fails exactly when it is taller than a page; otherwise it appends one image record, under its name, placed at its own size on the last page, takes the pages `atlas_pack` leaves, and leaves sheets, animations and sounds alone |
| IngestLemmas.AnimStepResult | compile_assets.py:98-109 | an Aseprite file fails exactly when one of its frames is taller than a page or one of its tags has `from <= to` and `to` past the last frame; otherwise it packs one item per frame at that frame's size, appends exactly the animations of its tags and leaves images, sheets and sounds alone |
| IngestLemmas.StepByExtension | compile_assets.py:69-117 | an .opus file appends one sound record, its name and bytes, and changes nothing else; an .aseprite file does what `AnimStep` does; a .png without exactly one '@' does what `ImageStep` does; a .png with one '@' that classifies is a grid and does what `SheetStep` does with its name and counts; a path that does not classify fails with its classification error |
| IngestLemmas.StepFailsUnclassified | compile_assets.py:72-117 | an input that cannot be classified fails its step |
| IngestLemmas.StepFailsOnTallImage | compile_assets.py:94-96 | a plain image taller than a page fails its step |
| IngestLemmas.RunStopsAtError | compile_assets.py:69-117 | the first failing input ends the build: the rest of the inputs are never looked at and the error is the build's error |
| IngestLemmas.RunAbortsOnDoomed | compile_assets.py:69-117 | an input that fails in every state aborts the build wherever it stands in the list |
| IngestLemmas.RunAbortsOnUnclassified | compile_assets.py:72-117 | an unknown extension, a malformed sheet name or a bad count anywhere in the inputs aborts the build |
| IngestLemmas.RunAbortsOnTallImage | compile_assets.py:59-65 | an image taller than a page aborts the build, even though a fresh page is tried |
| Compiler.Assets.constructor | compile_assets.py:49-53 | the globals start with no page and four empty collections |
| Compiler.Assets.AddPage | compile_assets.py:57 | appending a fresh `Atlas` adds one empty page and keeps the others |
| Compiler.Assets.PackLast | compile_assets.py:59 | packing on the last page changes that page's cursor as `Place` says and no other page |
| Compiler.Assets.PackOnNewPage | compile_assets.py:61-62 | the retry appends a fresh page and packs the item there |
| Compiler.Assets.PackOpened | compile_assets.py:59-67 | with a page already open, `atlas_pack` leaves the pages and returns the placement `PackOnto` computes, and touches no collection |
| Compiler.Assets.AtlasPack | compile_assets.py:55-67 | the in-place `atlas_pack` agrees with `PackOnto`, keeps every page's shelf invariant and touches no collection |
| Compiler.Assets.PackNext | compile_assets.py:89 | one more item of a run extends the run's pages and placements as `PackAll` does, or fails only on an item taller than a page |
| Compiler.Assets.PackItems | compile_assets.py:87-89 | a loop of `atlas_pack` calls ends with the pages and placements `PackAll` computes, or fails only when some item is taller than a page |
| Compiler.Assets.IngestImage | compile_assets.py:94-96 | ingesting a plain image leaves the state `ImageStep` computes, or its error |
| Compiler.Assets.IngestSheet | compile_assets.py:84-92 | ingesting a sprite sheet leaves the state `SheetStep` computes, or its error |
| Compiler.Assets.AddTagAnims | compile_assets.py:107-109 | the tag loop appends exactly the animations `TagAnims` computes, or stops with the frame-index error, keeping the earlier animations |
| Compiler.Assets.IngestAseprite | compile_assets.py:98-109 | ingesting an Aseprite file leaves the state `AnimStep` computes, or its error |
| Compiler.Assets.IngestFile | compile_assets.py:70-117 | one iteration of the loop leaves the state `Step` computes, or its error |
| Compiler.IngestAll | compile_assets.py:69-117 | the main loop over all inputs leaves the state `Run` computes, or the first error |
| BigEndian.ReadU16OfU16 | compile_assets.py:129 | a u16 written big-endian reads back as itself, whatever follows |
| BigEndian.ReadU32OfU32 | compile_assets.py:176 | a u32 written big-endian reads back as itself, whatever follows |
| BigEndian.U16Injective | compile_assets.py:129 | two different u16 values never share an encoding |
| Sequence.ReadManyFlatten | compile_assets.py:159-160 | records written one after another read back in order, given a reader for each record |
| Utf8.EncodeChar | compile_assets.py:120 | a character takes one to four bytes, one exactly when it is ASCII |
| Utf8.DecodeEncodeChar | compile_assets.py:120 | one encoded character decodes back to itself, whatever follows |
| Utf8.DecodeEncode | compile_assets.py:120 | UTF-8 decoding undoes `str.encode()` |
| Names.LastIndex | compile_assets.py:70 | the last occurrence of a character, or -1 when there is none |
| Names.BasenameParts | compile_assets.py:70 | `os.path.basename` gives a suffix of the path that holds no '/' and is the whole path or starts right after a '/' |
| Names.SplitExtParts | compile_assets.py:70 | name and extension concatenate to the base name; the extension is empty or a '.' followed by no other '.', and is never taken from a name of only dots; conversely it is empty only when the name has no '.' or only dots precede its last '.' |
| Names.SplitN | compile_assets.py:72 | `split(sep, n)` gives between 1 and n + 1 parts, and one part exactly when n is 0 or the text holds no separator |
| Names.SplitNLength | compile_assets.py:72 | `split(sep, n)` gives one more part than the number of separators, capped at n |
| Names.SplitNPartsClean | compile_assets.py:72 | every part of `split(sep, n)` but the last is free of the separator |
| Names.SplitTwoIff | compile_assets.py:72-77 | `split(sep, 2)` has two parts exactly when `sep` occurs once, and they are then the texts before and after it |
| Names.ParseInt | compile_assets.py:81-82 | `int()` accepts only an optional sign followed by digits, at least one; a negative result comes from a '-' sign |
| Names.ParseIntDecimal | compile_assets.py:81-82 | `int()` reads back any decimal count, with or without a minus sign |
| Names.ParseIntSignDigits | compile_assets.py:81-82 | conversely, every optional sign followed by one or more digits is accepted, with the value of the digits, negated behind '-' (leading zeros and '+' included) |
| Names.ParseIntExamples | compile_assets.py:81-82 | `int("+4")` is 4 and `int("007")` is 7 |
| Encoding.StrBytes | compile_assets.py:119-121 | a name is written as the u16 length of its UTF-8 bytes followed by those bytes, and that prefix reads back as the length of what follows |
| Encoding.SpriteBytes | compile_assets.py:123-124 | a placement takes exactly ten bytes |
| Encoding.ReadStrBytes | compile_assets.py:119-121 | a length-prefixed UTF-8 name reads back as itself |
| Encoding.ReadSpriteBytes | compile_assets.py:123-124 | a placement written as five u16 (page, x, y, w, h) reads back as itself |
| Encoding.ReadNames | compile_assets.py:132-134 | a count followed by that many names reads back as the name list |
| Encoding.Header | compile_assets.py:126-149 | the header holds at least the five u16 counts and starts with the page count |
| Encoding.ReadHeaderOf | compile_assets.py:126-149 | the header reads back as the page count and the four name lists it was written from |
| Encoding.PageBytes | compile_assets.py:46-47 | a page is four bytes longer than its pixels, and those bytes read back as width 512 and height 512 |
| Encoding.ReadPageBytes | compile_assets.py:46-47 | a page's bytes (two u16 side lengths, then RGBA pixels) read back as its pixels |
| Encoding.ReadFrameBytes | compile_assets.py:172 | an animation frame (placement and u16 duration) reads back as itself |
| Encoding.ReadCountedOf | compile_assets.py:164-166 | a u16 count followed by that many records reads back as the records |
| Encoding.ReadSoundBytes | compile_assets.py:176 | a u32 length followed by the data reads back as the data |
| Encoding.ReadPages | compile_assets.py:155-156 | the page blocks read back in page order |
| Encoding.ReadImages | compile_assets.py:159-160 | the image placements read back in order |
| Encoding.ReadSheetOf | compile_assets.py:163-166 | one sheet record reads back as its placements |
| Encoding.ReadSheets | compile_assets.py:163-166 | the sheet records read back in order |
| Encoding.ReadAnimOf | compile_assets.py:169-172 | one animation record reads back as its frames |
| Encoding.ReadAnims | compile_assets.py:169-172 | the animation records read back in order |
| Encoding.ReadSounds | compile_assets.py:175-176 | the sound records read back in order |
| Encoding.Payload | compile_assets.py:151-156 | the payload starts with the page blocks, in page order |
| Encoding.ReadPayloadOf | compile_assets.py:151-176 | the payload, read with the counts of its header, gives back every page and record |
| Output.FileBytes | compile_assets.py:126-184 | the file is written exactly when every field fits its `struct` format and both u32 lengths fit, and is otherwise a `struct` range error; it starts with the header and is eight bytes plus the compressed payload longer than the header (what those bytes are is stated by `Output.LengthFields`) |
| Output.Compile | compile_assets.py:13-184 | no input file means the usage message and no file; a failing input means no file and that input's error; a finished run fails only with a `struct` range error; a file starts with the header of the final state |
| Output.ReadFramedPayloadOf | compile_assets.py:178-180 | the two u32 lengths and the compressed payload read back as the payload, given a decompressor that undoes the compressor |
| Output.ReadFramed | compile_assets.py:178-180 | header, uncompressed length, compressed length and compressed payload read back as the header and payload they were written from, given a decompressor that undoes the compressor |
| Output.ReadFileBytes | compile_assets.py:126-184 | whatever file is written reads back as the names, page pixels and records of the final state |
| Output.LengthFields | compile_assets.py:180 | after the header come the uncompressed payload length, then the compressed length, then exactly the compressed bytes |
| Output.AppendAll | compile_assets.py:133-134 | a `for ... : out += enc(x)` loop appends the concatenated encodings |
| Output.AppendCounted | compile_assets.py:132-134 | a count followed by the loop appends the counted record block |
| Output.WriteHeader | compile_assets.py:126-149 | the header loops write exactly `Header` |
| Output.WriteSheets | compile_assets.py:163-166 | the sheet loop writes each sheet's count and placements |
| Output.WriteAnims | compile_assets.py:169-172 | the animation loop writes each animation's count and frames |
| Output.WritePayload | compile_assets.py:151-176 | the payload loops write exactly `Payload` |
| Output.CompileAssets | compile_assets.py:13-184 | the whole script, from the usage check on, returns exactly the bytes `Compile` computes, or its error |
| Fill.NextSlot | compile_assets.py:30-44 | with items of one size, the packer fills a row column by column, then the next row from x = 0, and refuses the item once the last row is full |
| Fill.PackOntoAfter | compile_assets.py:55-67 | `atlas_pack` with equal items puts the next one in the next slot, opening a new page only after the last slot of the page |
| Fill.SlotCount | compile_assets.py:55-67 | every page before the last holds `k` items: the `n`-th item is on page `p` in column `i` of row `j` with `n = (p - 1) * k + j * cols + i + 1` |
| Fill.PackCopies | compile_assets.py:55-67 | `n` equal items packed from no page never fail and leave the page count and last cursor of their slot |
| Fill.PagesForCopies | compile_assets.py:55-67 | `n` equal items of `w` by `h` fill exactly `ceil(n / k)` pages, `k = (512 / w) * (512 / h)` |
| Fill.OnePerPage | compile_assets.py:55-67 | items more than half a page wide and high take one page each |
| Fill.MixedSizesGap | compile_assets.py:30-67 | a 10 by 300 item then a 510 by 300 item take two pages: the second wraps below the first, overhangs the bottom edge and opens a new page |

## Left out

- Pixels are not modelled. A page's pixel block is a parameter `pixels(i)`, and `paste` is recorded only as the rectangle it fills (`Atlas.placed`). `Image.new`, `Image.open`, `crop` and `tobytes` are the image library's.
- The grid crop box is computed in floating point (`img.width / x_count`) and rounded by the image library. The model takes each cell's size as a parameter `cell(x, y)` and keeps only the zero-count division error.
- The Aseprite export (the subprocess, the temporary PNG and the JSON) is given as its frame sizes, durations and tags.
- `zstd -19` is a parameter function `compress`. The round trip assumes a `decompress` that undoes it.
- Reading `sys.argv`, the printed messages, opening and writing files and the exit status are left out: the command line is the list of inputs, and a call with no input file is `Err(Usage)` (lines 13-15); with no argument at all the script also exits there, but the output path is not modelled. Each abort the script decides is an `Err`.
- Failures of the code the script calls are not modelled: `Image.open` on a missing or unreadable file (lines 84, 95, 101), the `aseprite` tool and missing JSON keys (line 100), and `open()` of a sound file (line 112). The model's inputs are the files as those calls would have read them.
- Utf8.Encode: models `str.encode()` on Unicode scalar values; a lone surrogate in a name, on which `str.encode()` raises `UnicodeEncodeError` (line 120), is not modelled.
- Output.ReadFramed: the `zstd` call at line 179 merges the tool's stderr into its output, so the script does not guarantee that the bytes it writes are the compressor's output alone; the round trip assumes a `decompress` that undoes `compress`, which is a stronger assumption than the script ensures.
- Ingest.Classify and Ingest.PngKind carry no contract of their own; what they promise is stated by `IngestLemmas.ClassifyExtension`, `IngestLemmas.PngKindResult` and `Ingest.GridKind`.
- Encoding.Payload: states only that the page blocks come first; the order of the other blocks is stated by `Encoding.ReadPayloadOf`.
- Names.ParseInt: models `int()` on an optional sign and ASCII digits only; Python also accepts surrounding whitespace, underscores between digits and non-ASCII digits.
- Names.SplitN: the parts are proved free of the separator and counted, but only the two-part split is proved to rebuild its input (`SplitTwoIff`).
- `struct.pack` range errors are checked once on the finished state (`Output.Fits`) rather than at each `pack` call. Either way the script aborts before writing anything.
- `Atlas.x` and `y` are unbounded naturals. Python integers do not overflow either.
