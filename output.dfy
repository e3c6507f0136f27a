/** The bytes the compiler writes: the header, then the two u32 lengths
    framing the compressed payload. The writers are the script's loops over
    `output` and `compressed`; `Compile` is the whole run as one function and
    `CompileAssets` the step-by-step program proved equal to it. */
module Output {
  import opened Common
  import opened BigEndian
  import opened Sequence
  import opened Packer
  import opened Ingest
  import opened Encoding
  import Compiler

  // ---- the file as a function ----

  /** Every `struct.pack` of the header and of the payload records accepts its value. */
  predicate Fits(st: State, pixels: nat -> seq<Byte>)
  {
    CatalogFits(CatalogOf(st)) && ContentsFit(ContentsOf(st, pixels))
  }

  /** The file for a finished state, or the `struct.error` of a value out of range. */
  function FileBytes(st: State, pixels: nat -> seq<Byte>, compress: seq<Byte> -> seq<Byte>): (r: Result<seq<Byte>>)
    // the only failure is a value too wide for its field
    ensures r.Err? ==> r.error == StructRange
    ensures r.Ok? <==> Fits(st, pixels) && |Payload(ContentsOf(st, pixels))| < U32Limit
                       && |compress(Payload(ContentsOf(st, pixels)))| < U32Limit
    // the header, then eight bytes of lengths, then the compressed payload
    ensures r.Ok? ==> Header(CatalogOf(st)) <= r.value
                      && |r.value| == |Header(CatalogOf(st))| + 8 + |compress(Payload(ContentsOf(st, pixels)))|
  {
    if !Fits(st, pixels) then Err(StructRange)
    else
      var payload := Payload(ContentsOf(st, pixels));
      var compressed := compress(payload);
      if |payload| >= U32Limit || |compressed| >= U32Limit then Err(StructRange)
      else Ok(Header(CatalogOf(st)) + U32(|payload|) + U32(|compressed|) + compressed)
  }

  /** The whole script: without an input file print the usage; otherwise
      ingest every input, then write the file. */
  function Compile(inputs: seq<Input>, pixels: nat -> seq<Byte>, compress: seq<Byte> -> seq<Byte>): (r: Result<seq<Byte>>)
    // no input file means the usage message and no file
    ensures inputs == [] ==> r == Err(Usage)
    // a failing input means no file, with that input's error
    ensures inputs != [] && Run(inputs).Err? ==> r == Err(Run(inputs).error)
    ensures inputs != [] && r.Err? && Run(inputs).Ok? ==> r.error == StructRange
    // a file starts with the header of the final state
    ensures r.Ok? ==> inputs != [] && Run(inputs).Ok? && Header(CatalogOf(Run(inputs).value)) <= r.value
  {
    if inputs == [] then Err(Usage)
    else
      match Run(inputs)
      case Err(e) => Err(e)
      case Ok(st) => FileBytes(st, pixels, compress)
  }

  // ---- reading the file back ----

  /** Reads a file, given the decompressor: the header, then the framed
      payload. */
  function ReadFile(bs: seq<Byte>, decompress: seq<Byte> -> seq<Byte>): Option<(Catalog, Contents)>
  {
    match ReadHeader(bs)
    case None => None
    case Some((c, tail)) =>
      match ReadFramedPayload(c, tail, decompress)
      case None => None
      case Some(k) => Some((c, k))
  }

  /** What follows the header: the two lengths, the compressed section to
      the end, then the payload it decompresses to, read with the header's counts. */
  function ReadFramedPayload(c: Catalog, bs: seq<Byte>, decompress: seq<Byte> -> seq<Byte>): Option<Contents>
  {
    match ReadU32(bs)
    case None => None
    case Some((n, b1)) =>
      match ReadU32(b1)
      case None => None
      case Some((m, b2)) =>
        if |b2| != m then None
        else
          var payload := decompress(b2);
          if |payload| != n then None
          else match ReadPayload(c, payload)
            case None => None
            case Some((k, rest)) => if rest == [] then Some(k) else None
  }

  /** Catalog and contents of a state agree on every count. */
  lemma DescribesOf(st: State, pixels: nat -> seq<Byte>)
    ensures Describes(CatalogOf(st), ContentsOf(st, pixels))
  {
  }

  /** The two lengths and a compressed payload read back as the contents
      they were written from. */
  lemma ReadFramedPayloadOf(c: Catalog, k: Contents, compressed: seq<Byte>, decompress: seq<Byte> -> seq<Byte>)
    requires Describes(c, k) && ContentsFit(k)
    requires forall i :: 0 <= i < |k.pages| ==> |k.pages[i]| == PixelBytes
    requires |Payload(k)| < U32Limit && |compressed| < U32Limit
    requires decompress(compressed) == Payload(k)
    ensures ReadFramedPayload(c, U32(|Payload(k)|) + U32(|compressed|) + compressed, decompress) == Some(k)
  {
    var payload := Payload(k);
    var b1 := U32(|compressed|) + compressed;
    var b0 := U32(|payload|) + b1;
    assert U32(|payload|) + U32(|compressed|) + compressed == b0;
    assert ReadU32(b0) == Some((|payload|, b1)) by {
      ReadU32OfU32(|payload|, b1);
    }
    assert ReadU32(b1) == Some((|compressed|, compressed)) by {
      ReadU32OfU32(|compressed|, compressed);
    }
    assert ReadPayload(c, payload) == Some((k, [])) by {
      ReadPayloadOf(c, k, []);
      assert payload + [] == payload;
    }
  }

  /** A header, the two lengths and a compressed payload read back as the
      catalog and contents they were written from. */
  lemma ReadFramed(c: Catalog, k: Contents, compressed: seq<Byte>, decompress: seq<Byte> -> seq<Byte>)
    requires CatalogFits(c) && Describes(c, k) && ContentsFit(k)
    requires forall i :: 0 <= i < |k.pages| ==> |k.pages[i]| == PixelBytes
    requires |Payload(k)| < U32Limit && |compressed| < U32Limit
    requires decompress(compressed) == Payload(k)
    ensures ReadFile(Header(c) + U32(|Payload(k)|) + U32(|compressed|) + compressed, decompress) == Some((c, k))
  {
    var tail := U32(|Payload(k)|) + U32(|compressed|) + compressed;
    assert Header(c) + U32(|Payload(k)|) + U32(|compressed|) + compressed == Header(c) + tail;
    ReadHeaderOf(c, tail);
    ReadFramedPayloadOf(c, k, compressed, decompress);
  }

  /** Whatever the file holds reads back: the names, the page pixels and
      every record, provided the decompressor undoes the compressor. */
  lemma ReadFileBytes(st: State, pixels: nat -> seq<Byte>, compress: seq<Byte> -> seq<Byte>,
                      decompress: seq<Byte> -> seq<Byte>)
    requires FileBytes(st, pixels, compress).Ok?
    requires forall i :: 0 <= i < |st.pages| ==> |pixels(i)| == PixelBytes
    requires decompress(compress(Payload(ContentsOf(st, pixels)))) == Payload(ContentsOf(st, pixels))
    ensures ReadFile(FileBytes(st, pixels, compress).value, decompress) == Some((CatalogOf(st), ContentsOf(st, pixels)))
  {
    var c, k := CatalogOf(st), ContentsOf(st, pixels);
    DescribesOf(st, pixels);
    ReadFramed(c, k, compress(Payload(k)), decompress);
  }

  /** The first u32 after the header is the length of the uncompressed payload,
      and the second the length of what follows it. */
  lemma LengthFields(st: State, pixels: nat -> seq<Byte>, compress: seq<Byte> -> seq<Byte>)
    requires FileBytes(st, pixels, compress).Ok?
    ensures var out := FileBytes(st, pixels, compress).value;
      var h := |Header(CatalogOf(st))|;
      var payload := Payload(ContentsOf(st, pixels));
      && |out| == h + 8 + |compress(payload)|
      && ReadU32(out[h..]) == Some((|payload|, out[h + 4..]))
      && ReadU32(out[h + 4..]) == Some((|compress(payload)|, out[h + 8..]))
      && out[h + 8..] == compress(payload)
  {
    var payload := Payload(ContentsOf(st, pixels));
    Framing(Header(CatalogOf(st)), |payload|, compress(payload));
  }

  /** The two u32 lengths after a header read back, and the bytes after them
      are the framed block. */
  lemma Framing(header: seq<Byte>, n: nat, block: seq<Byte>)
    requires n < U32Limit && |block| < U32Limit
    ensures var out := header + U32(n) + U32(|block|) + block;
      var h := |header|;
      && |out| == h + 8 + |block|
      && ReadU32(out[h..]) == Some((n, out[h + 4..]))
      && ReadU32(out[h + 4..]) == Some((|block|, out[h + 8..]))
      && out[h + 8..] == block
  {
    var out := header + U32(n) + U32(|block|) + block;
    assert out[|header|..] == U32(n) + (U32(|block|) + block);
    ReadU32OfU32(n, U32(|block|) + block);
    assert out[|header| + 4..] == U32(|block|) + block;
    ReadU32OfU32(|block|, block);
    assert out[|header| + 8..] == block;
  }

  // ---- the writers ----

  /** `for x in xs: out += enc(x)`. */
  method AppendAll<T>(out: seq<Byte>, xs: seq<T>, enc: T -> seq<Byte>) returns (r: seq<Byte>)
    ensures r == out + Flatten(xs, enc)
  {
    r := out;
    var i := 0;
    while i < |xs|
      invariant i <= |xs|
      invariant r == out + Flatten(xs[..i], enc)
    {
      FlattenSnoc(xs[..i], xs[i], enc);
      assert xs[..i + 1] == xs[..i] + [xs[i]];
      r := r + enc(xs[i]);
      i := i + 1;
    }
    assert xs[..i] == xs;
  }

  /** `out += struct.pack('>H', len(xs))`, then `enc(x)` for each `x` of `xs`. */
  method AppendCounted<T>(out: seq<Byte>, xs: seq<T>, enc: T -> seq<Byte>) returns (r: seq<Byte>)
    ensures r == out + Counted(xs, enc)
  {
    r := out + U16(|xs|);
    r := AppendAll(r, xs, enc);
    assert r == out + (U16(|xs|) + Flatten(xs, enc));
  }

  /** The header: the atlas count, then count and names of each collection. */
  method WriteHeader(c: Catalog) returns (out: seq<Byte>)
    ensures out == Header(c)
  {
    out := U16(c.pageCount);
    out := AppendCounted(out, c.images, StrBytes);
    assert out == U16(c.pageCount) + NameBlock(c.images);
    out := AppendCounted(out, c.sheets, StrBytes);
    assert Counted(c.sheets, StrBytes) == NameBlock(c.sheets);
    out := AppendCounted(out, c.anims, StrBytes);
    assert Counted(c.anims, StrBytes) == NameBlock(c.anims);
    out := AppendCounted(out, c.sounds, StrBytes);
    assert Counted(c.sounds, StrBytes) == NameBlock(c.sounds);
  }

  /** `for sheet in sheets: compressed += count; for sprite in sheet: compressed += sprite_bytes(sprite)`. */
  method WriteSheets(out: seq<Byte>, sheets: seq<seq<Sprite>>) returns (r: seq<Byte>)
    ensures r == out + Flatten(sheets, SheetBytes)
  {
    r := out;
    var i := 0;
    while i < |sheets|
      invariant i <= |sheets|
      invariant r == out + Flatten(sheets[..i], SheetBytes)
    {
      ghost var before := r;
      r := AppendCounted(r, sheets[i], SpriteBytes);
      AppendStep(out, sheets[..i], sheets[i], SheetBytes, before, r);
      assert sheets[..i + 1] == sheets[..i] + [sheets[i]];
      i := i + 1;
    }
    assert sheets[..i] == sheets;
  }

  /** `for anim in anims: compressed += count; for frame in anim: compressed += sprite_bytes + duration`. */
  method WriteAnims(out: seq<Byte>, anims: seq<seq<Frame>>) returns (r: seq<Byte>)
    ensures r == out + Flatten(anims, AnimBytes)
  {
    r := out;
    var i := 0;
    while i < |anims|
      invariant i <= |anims|
      invariant r == out + Flatten(anims[..i], AnimBytes)
    {
      ghost var before := r;
      r := AppendCounted(r, anims[i], FrameBytes);
      AppendStep(out, anims[..i], anims[i], AnimBytes, before, r);
      assert anims[..i + 1] == anims[..i] + [anims[i]];
      i := i + 1;
    }
    assert anims[..i] == anims;
  }

  /** One more item appended after the items written so far. */
  lemma AppendStep<T>(out: seq<Byte>, xs: seq<T>, x: T, enc: T -> seq<Byte>, before: seq<Byte>, after: seq<Byte>)
    requires before == out + Flatten(xs, enc) && after == before + enc(x)
    ensures after == out + Flatten(xs + [x], enc)
  {
    FlattenSnoc(xs, x, enc);
  }

  /** The payload, before compression. */
  method WritePayload(k: Contents) returns (out: seq<Byte>)
    ensures out == Payload(k)
  {
    ghost var pages, images := Flatten(k.pages, PageBytes), Flatten(k.images, SpriteBytes);
    ghost var sheets, anims := Flatten(k.sheets, SheetBytes), Flatten(k.anims, AnimBytes);
    out := AppendAll([], k.pages, PageBytes);
    assert out == pages;
    out := AppendAll(out, k.images, SpriteBytes);
    out := WriteSheets(out, k.sheets);
    out := WriteAnims(out, k.anims);
    assert out == pages + images + sheets + anims;
    out := AppendAll(out, k.sounds, SoundBytes);
  }

  /** The script from the command line to the bytes of the output file.
      `pixels(i)` stands for the pixels of page `i` and `compress` for zstd. */
  method CompileAssets(inputs: seq<Input>, pixels: nat -> seq<Byte>, compress: seq<Byte> -> seq<Byte>)
    returns (r: Result<seq<Byte>>)
    ensures r == Compile(inputs, pixels, compress)
  {
    if inputs == [] {
      return Err(Usage);
    }
    var assets, status := Compiler.IngestAll(inputs);
    if status.Err? {
      return Err(status.error);
    }
    var st := assets.Snapshot();
    if !Fits(st, pixels) {
      return Err(StructRange);
    }
    var header := WriteHeader(CatalogOf(st));
    var payload := WritePayload(ContentsOf(st, pixels));
    var compressed := compress(payload);
    if |payload| >= U32Limit || |compressed| >= U32Limit {
      return Err(StructRange);
    }
    r := Ok(header + U32(|payload|) + U32(|compressed|) + compressed);
  }
}
