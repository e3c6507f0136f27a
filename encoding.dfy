/** The output file: `str_bytes`, `sprite_bytes`, the header of names, the
    payload of records, and the two length fields framing the compressed
    payload. Each writer has a reader, and reading back what was written
    returns what was written. */
module Encoding {
  import opened Common
  import opened BigEndian
  import opened Sequence
  import Utf8
  import opened Packer
  import opened Ingest

  // ---- str_bytes ----

  /** `str_bytes`: the u16 length of the UTF-8 bytes, then the bytes. */
  function StrBytes(s: string): (r: seq<Byte>)
    ensures |r| == 2 + |Utf8.Encode(s)|
    // the prefix gives the length of what follows it
    ensures StrFits(s) ==> ReadU16(r) == Some((|r| - 2, r[2..]))
  {
    var bytes := Utf8.Encode(s);
    if |bytes| < U16Limit then ReadU16OfU16(|bytes|, bytes); U16(|bytes|) + bytes
    else U16(|bytes|) + bytes
  }

  /** `struct.pack('>H', len(bs))` accepts the length. */
  predicate StrFits(s: string)
  {
    |Utf8.Encode(s)| < U16Limit
  }

  function ReadStr(bs: seq<Byte>): Option<(string, seq<Byte>)>
  {
    match ReadU16(bs)
    case None => None
    case Some((n, tail)) =>
      if |tail| < n then None
      else match Utf8.Decode(tail[..n])
        case None => None
        case Some(s) => Some((s, tail[n..]))
  }

  lemma ReadStrBytes(s: string, rest: seq<Byte>)
    requires StrFits(s)
    ensures ReadStr(StrBytes(s) + rest) == Some((s, rest))
  {
    var bytes := Utf8.Encode(s);
    var tail := bytes + rest;
    assert StrBytes(s) + rest == U16(|bytes|) + tail;
    ReadU16OfU16(|bytes|, tail);
    assert tail[..|bytes|] == bytes && tail[|bytes|..] == rest;
    Utf8.DecodeEncode(s);
  }

  // ---- sprite_bytes ----

  /** `sprite_bytes`: page index, x, y, w, h, each a big-endian u16. */
  function SpriteBytes(s: Sprite): (r: seq<Byte>)
    ensures |r| == 10
  {
    U16(s.page) + U16(s.box.x) + U16(s.box.y) + U16(s.box.w) + U16(s.box.h)
  }

  predicate SpriteFits(s: Sprite)
  {
    s.page < U16Limit && s.box.x < U16Limit && s.box.y < U16Limit && s.box.w < U16Limit && s.box.h < U16Limit
  }

  function ReadSprite(bs: seq<Byte>): Option<(Sprite, seq<Byte>)>
  {
    match ReadMany(5, bs, ReadU16)
    case None => None
    case Some((v, rest)) => Some((Sprite(v[0], Box(v[1], v[2], v[3], v[4])), rest))
  }

  lemma ReadU16Undoes(n: nat)
    requires n < U16Limit
    ensures Undoes(ReadU16, U16, n)
  {
    forall rest: seq<Byte> {
      ReadU16OfU16(n, rest);
    }
  }

  lemma ReadSpriteBytes(s: Sprite, rest: seq<Byte>)
    requires SpriteFits(s)
    ensures ReadSprite(SpriteBytes(s) + rest) == Some((s, rest))
  {
    var v := [s.page, s.box.x, s.box.y, s.box.w, s.box.h];
    forall i | 0 <= i < |v|
      ensures Undoes(ReadU16, U16, v[i])
    {
      ReadU16Undoes(v[i]);
    }
    assert Flatten(v[4..], U16) == U16(s.box.h);
    assert Flatten(v[3..], U16) == U16(s.box.w) + U16(s.box.h);
    assert Flatten(v[2..], U16) == U16(s.box.y) + U16(s.box.w) + U16(s.box.h);
    assert Flatten(v[1..], U16) == U16(s.box.x) + U16(s.box.y) + U16(s.box.w) + U16(s.box.h);
    assert Flatten(v, U16) == SpriteBytes(s);
    ReadManyFlatten(v, rest, ReadU16, U16);
  }

  // ---- the header ----

  /** A count, then every name with `str_bytes`. */
  function NameBlock(names: seq<string>): seq<Byte>
  {
    U16(|names|) + Flatten(names, StrBytes)
  }

  predicate NamesFit(names: seq<string>)
  {
    |names| < U16Limit && forall i :: 0 <= i < |names| ==> StrFits(names[i])
  }

  function ReadNameBlock(bs: seq<Byte>): Option<(seq<string>, seq<Byte>)>
  {
    match ReadU16(bs)
    case None => None
    case Some((n, tail)) => ReadMany(n, tail, ReadStr)
  }

  lemma ReadNames(names: seq<string>, rest: seq<Byte>)
    requires NamesFit(names)
    ensures ReadNameBlock(NameBlock(names) + rest) == Some((names, rest))
  {
    forall i | 0 <= i < |names|
      ensures Undoes(ReadStr, StrBytes, names[i])
    {
      forall tail: seq<Byte> {
        ReadStrBytes(names[i], tail);
      }
    }
    var tail := Flatten(names, StrBytes) + rest;
    assert NameBlock(names) + rest == U16(|names|) + tail;
    ReadU16OfU16(|names|, tail);
    ReadManyFlatten(names, rest, ReadStr, StrBytes);
  }

  /** What the header lists: the page count and the names of every image,
      sheet, animation and sound, in the order they were added. */
  datatype Catalog = Catalog(pageCount: nat, images: seq<string>, sheets: seq<string>,
                             anims: seq<string>, sounds: seq<string>)

  function CatalogOf(st: State): (c: Catalog)
    ensures c.pageCount == |st.pages|
    ensures |c.images| == |st.images| && forall i :: 0 <= i < |st.images| ==> c.images[i] == st.images[i].name
    ensures |c.sheets| == |st.sheets| && forall i :: 0 <= i < |st.sheets| ==> c.sheets[i] == st.sheets[i].name
    ensures |c.anims| == |st.anims| && forall i :: 0 <= i < |st.anims| ==> c.anims[i] == st.anims[i].name
    ensures |c.sounds| == |st.sounds| && forall i :: 0 <= i < |st.sounds| ==> c.sounds[i] == st.sounds[i].name
  {
    Catalog(|st.pages|,
            seq(|st.images|, i requires 0 <= i < |st.images| => st.images[i].name),
            seq(|st.sheets|, i requires 0 <= i < |st.sheets| => st.sheets[i].name),
            seq(|st.anims|, i requires 0 <= i < |st.anims| => st.anims[i].name),
            seq(|st.sounds|, i requires 0 <= i < |st.sounds| => st.sounds[i].name))
  }

  /** The uncompressed header: u16 page count, then the four name blocks. */
  function Header(c: Catalog): (r: seq<Byte>)
    // at least the five u16 counts, the page count first
    ensures |r| >= 10
    ensures c.pageCount < U16Limit ==> ReadU16(r) == Some((c.pageCount, r[2..]))
  {
    var rest := NameBlock(c.images) + NameBlock(c.sheets) + NameBlock(c.anims) + NameBlock(c.sounds);
    if c.pageCount < U16Limit then
      ReadU16OfU16(c.pageCount, rest);
      U16(c.pageCount) + NameBlock(c.images) + NameBlock(c.sheets) + NameBlock(c.anims) + NameBlock(c.sounds)
    else U16(c.pageCount) + NameBlock(c.images) + NameBlock(c.sheets) + NameBlock(c.anims) + NameBlock(c.sounds)
  }

  predicate CatalogFits(c: Catalog)
  {
    c.pageCount < U16Limit && NamesFit(c.images) && NamesFit(c.sheets) && NamesFit(c.anims) && NamesFit(c.sounds)
  }

  function ReadHeader(bs: seq<Byte>): Option<(Catalog, seq<Byte>)>
  {
    match ReadU16(bs)
    case None => None
    case Some((pages, b0)) =>
      match ReadNameBlock(b0)
      case None => None
      case Some((images, b1)) =>
        match ReadNameBlock(b1)
        case None => None
        case Some((sheets, b2)) =>
          match ReadNameBlock(b2)
          case None => None
          case Some((anims, b3)) =>
            match ReadNameBlock(b3)
            case None => None
            case Some((sounds, b4)) => Some((Catalog(pages, images, sheets, anims, sounds), b4))
  }

  lemma HeaderSplit(c: Catalog, rest: seq<Byte>)
    ensures Header(c) + rest
      == U16(c.pageCount) + (NameBlock(c.images) + (NameBlock(c.sheets) + (NameBlock(c.anims) + (NameBlock(c.sounds) + rest))))
  {
  }

  lemma ReadHeaderOf(c: Catalog, rest: seq<Byte>)
    requires CatalogFits(c)
    ensures ReadHeader(Header(c) + rest) == Some((c, rest))
  {
    var b4 := rest;
    var b3 := NameBlock(c.sounds) + b4;
    var b2 := NameBlock(c.anims) + b3;
    var b1 := NameBlock(c.sheets) + b2;
    var b0 := NameBlock(c.images) + b1;
    HeaderSplit(c, rest);
    ReadU16OfU16(c.pageCount, b0);
    ReadNames(c.images, b1);
    ReadNames(c.sheets, b2);
    ReadNames(c.anims, b3);
    ReadNames(c.sounds, b4);
    assert ReadU16(Header(c) + rest) == Some((c.pageCount, b0));
    assert ReadNameBlock(b0) == Some((c.images, b1));
    assert ReadNameBlock(b1) == Some((c.sheets, b2));
  }

  // ---- the payload ----

  /** Bytes of one page's pixels: RGBA, four bytes per pixel. */
  const PixelBytes: nat := 4 * TxSize * TxSize

  /** `Atlas.to_bytes`: the two side lengths, then the pixels. */
  function PageBytes(pixels: seq<Byte>): (r: seq<Byte>)
    ensures |r| == 4 + |pixels|
    // the page's width and height, both 512, come first
    ensures ReadU16(r) == Some((TxSize, r[2..])) && ReadU16(r[2..]) == Some((TxSize, r[4..]))
  {
    ReadU16OfU16(TxSize, U16(TxSize) + pixels);
    ReadU16OfU16(TxSize, pixels);
    U16(TxSize) + (U16(TxSize) + pixels)
  }

  function ReadPage(bs: seq<Byte>): Option<(seq<Byte>, seq<Byte>)>
  {
    match ReadU16(bs)
    case None => None
    case Some((w, b0)) =>
      match ReadU16(b0)
      case None => None
      case Some((h, b1)) =>
        var n := 4 * w * h;
        if |b1| < n then None else Some((b1[..n], b1[n..]))
  }

  lemma ReadPageBytes(pixels: seq<Byte>, rest: seq<Byte>)
    requires |pixels| == PixelBytes
    ensures ReadPage(PageBytes(pixels) + rest) == Some((pixels, rest))
  {
    var b1 := pixels + rest;
    var b0 := U16(TxSize) + b1;
    assert PageBytes(pixels) + rest == U16(TxSize) + b0;
    ReadU16OfU16(TxSize, b0);
    ReadU16OfU16(TxSize, b1);
    assert b1[..|pixels|] == pixels && b1[|pixels|..] == rest;
  }

  /** One animation frame: its rectangle, then its duration as a u16. */
  function FrameBytes(f: Frame): (r: seq<Byte>)
    ensures |r| == 12
  {
    SpriteBytes(f.sprite) + U16(f.duration)
  }

  function ReadFrame(bs: seq<Byte>): Option<(Frame, seq<Byte>)>
  {
    match ReadSprite(bs)
    case None => None
    case Some((s, b0)) =>
      match ReadU16(b0)
      case None => None
      case Some((d, b1)) => Some((Frame(s, d), b1))
  }

  predicate FrameFits(f: Frame)
  {
    SpriteFits(f.sprite) && f.duration < U16Limit
  }

  lemma ReadFrameBytes(f: Frame, rest: seq<Byte>)
    requires FrameFits(f)
    ensures ReadFrame(FrameBytes(f) + rest) == Some((f, rest))
  {
    var b0 := U16(f.duration) + rest;
    assert FrameBytes(f) + rest == SpriteBytes(f.sprite) + b0;
    ReadSpriteBytes(f.sprite, b0);
    ReadU16OfU16(f.duration, rest);
  }

  /** A u16 count, then one record per item: the shape of a sheet's
      rectangles and of an animation's frames. */
  function Counted<T>(xs: seq<T>, enc: T -> seq<Byte>): seq<Byte>
  {
    U16(|xs|) + Flatten(xs, enc)
  }

  function ReadCounted<T>(bs: seq<Byte>, read: seq<Byte> -> Option<(T, seq<Byte>)>): Option<(seq<T>, seq<Byte>)>
  {
    match ReadU16(bs)
    case None => None
    case Some((n, tail)) => ReadMany(n, tail, read)
  }

  lemma ReadCountedOf<T>(xs: seq<T>, rest: seq<Byte>, read: seq<Byte> -> Option<(T, seq<Byte>)>, enc: T -> seq<Byte>)
    requires |xs| < U16Limit
    requires forall i :: 0 <= i < |xs| ==> Undoes(read, enc, xs[i])
    ensures ReadCounted(Counted(xs, enc) + rest, read) == Some((xs, rest))
  {
    var tail := Flatten(xs, enc) + rest;
    assert Counted(xs, enc) + rest == U16(|xs|) + tail;
    ReadU16OfU16(|xs|, tail);
    ReadManyFlatten(xs, rest, read, enc);
  }

  function SheetBytes(sprites: seq<Sprite>): seq<Byte>
  {
    Counted(sprites, SpriteBytes)
  }

  function ReadSheet(bs: seq<Byte>): Option<(seq<Sprite>, seq<Byte>)>
  {
    ReadCounted(bs, ReadSprite)
  }

  function AnimBytes(frames: seq<Frame>): seq<Byte>
  {
    Counted(frames, FrameBytes)
  }

  function ReadAnim(bs: seq<Byte>): Option<(seq<Frame>, seq<Byte>)>
  {
    ReadCounted(bs, ReadFrame)
  }

  /** A sound: the u32 length of its data, then the data. */
  function SoundBytes(data: seq<Byte>): seq<Byte>
  {
    U32(|data|) + data
  }

  function ReadSound(bs: seq<Byte>): Option<(seq<Byte>, seq<Byte>)>
  {
    match ReadU32(bs)
    case None => None
    case Some((n, tail)) => if |tail| < n then None else Some((tail[..n], tail[n..]))
  }

  lemma ReadSoundBytes(data: seq<Byte>, rest: seq<Byte>)
    requires |data| < U32Limit
    ensures ReadSound(SoundBytes(data) + rest) == Some((data, rest))
  {
    var tail := data + rest;
    assert SoundBytes(data) + rest == U32(|data|) + tail;
    ReadU32OfU32(|data|, tail);
    assert tail[..|data|] == data && tail[|data|..] == rest;
  }

  /** What the compressed section holds, without the names. */
  datatype Contents = Contents(pages: seq<seq<Byte>>, images: seq<Sprite>, sheets: seq<seq<Sprite>>,
                               anims: seq<seq<Frame>>, sounds: seq<seq<Byte>>)

  /** The records of a state; `pixels(i)` stands for the pixels of page `i`. */
  function ContentsOf(st: State, pixels: nat -> seq<Byte>): (k: Contents)
    ensures |k.pages| == |st.pages| && forall i :: 0 <= i < |st.pages| ==> k.pages[i] == pixels(i)
    ensures |k.images| == |st.images| && forall i :: 0 <= i < |st.images| ==> k.images[i] == st.images[i].sprite
    ensures |k.sheets| == |st.sheets| && forall i :: 0 <= i < |st.sheets| ==> k.sheets[i] == st.sheets[i].sprites
    ensures |k.anims| == |st.anims| && forall i :: 0 <= i < |st.anims| ==> k.anims[i] == st.anims[i].frames
    ensures |k.sounds| == |st.sounds| && forall i :: 0 <= i < |st.sounds| ==> k.sounds[i] == st.sounds[i].data
  {
    Contents(seq(|st.pages|, i requires 0 <= i < |st.pages| => pixels(i)),
             seq(|st.images|, i requires 0 <= i < |st.images| => st.images[i].sprite),
             seq(|st.sheets|, i requires 0 <= i < |st.sheets| => st.sheets[i].sprites),
             seq(|st.anims|, i requires 0 <= i < |st.anims| => st.anims[i].frames),
             seq(|st.sounds|, i requires 0 <= i < |st.sounds| => st.sounds[i].data))
  }

  /** The uncompressed payload: pages, image rectangles, sheets, animations, sounds. */
  function Payload(k: Contents): (r: seq<Byte>)
    // the page pixels come first
    ensures Flatten(k.pages, PageBytes) <= r
  {
    Flatten(k.pages, PageBytes) + Flatten(k.images, SpriteBytes) + Flatten(k.sheets, SheetBytes)
      + Flatten(k.anims, AnimBytes) + Flatten(k.sounds, SoundBytes)
  }

  /** Every field of the payload is in range for its `struct` format. */
  predicate ContentsFit(k: Contents)
  {
    && (forall i :: 0 <= i < |k.images| ==> SpriteFits(k.images[i]))
    && (forall i :: 0 <= i < |k.sheets| ==> |k.sheets[i]| < U16Limit)
    && (forall i, j :: 0 <= i < |k.sheets| && 0 <= j < |k.sheets[i]| ==> SpriteFits(k.sheets[i][j]))
    && (forall i :: 0 <= i < |k.anims| ==> |k.anims[i]| < U16Limit)
    && (forall i, j :: 0 <= i < |k.anims| && 0 <= j < |k.anims[i]| ==> FrameFits(k.anims[i][j]))
    && (forall i :: 0 <= i < |k.sounds| ==> |k.sounds[i]| < U32Limit)
  }

  /** Reads a payload whose record counts the header gave. */
  function ReadPayload(c: Catalog, bs: seq<Byte>): Option<(Contents, seq<Byte>)>
  {
    match ReadMany(c.pageCount, bs, ReadPage)
    case None => None
    case Some((pages, b0)) =>
      match ReadMany(|c.images|, b0, ReadSprite)
      case None => None
      case Some((images, b1)) =>
        match ReadMany(|c.sheets|, b1, ReadSheet)
        case None => None
        case Some((sheets, b2)) =>
          match ReadMany(|c.anims|, b2, ReadAnim)
          case None => None
          case Some((anims, b3)) =>
            match ReadMany(|c.sounds|, b3, ReadSound)
            case None => None
            case Some((sounds, b4)) => Some((Contents(pages, images, sheets, anims, sounds), b4))
  }

  /** The counts of `c` are those of `k`. */
  predicate Describes(c: Catalog, k: Contents)
  {
    c.pageCount == |k.pages| && |c.images| == |k.images| && |c.sheets| == |k.sheets|
      && |c.anims| == |k.anims| && |c.sounds| == |k.sounds|
  }

  lemma ReadPages(pages: seq<seq<Byte>>, rest: seq<Byte>)
    requires forall i :: 0 <= i < |pages| ==> |pages[i]| == PixelBytes
    ensures ReadMany(|pages|, Flatten(pages, PageBytes) + rest, ReadPage) == Some((pages, rest))
  {
    forall i | 0 <= i < |pages|
      ensures Undoes(ReadPage, PageBytes, pages[i])
    {
      forall tail: seq<Byte> {
        ReadPageBytes(pages[i], tail);
      }
    }
    ReadManyFlatten(pages, rest, ReadPage, PageBytes);
  }

  lemma ReadImages(images: seq<Sprite>, rest: seq<Byte>)
    requires forall i :: 0 <= i < |images| ==> SpriteFits(images[i])
    ensures ReadMany(|images|, Flatten(images, SpriteBytes) + rest, ReadSprite) == Some((images, rest))
  {
    forall i | 0 <= i < |images|
      ensures Undoes(ReadSprite, SpriteBytes, images[i])
    {
      forall tail: seq<Byte> {
        ReadSpriteBytes(images[i], tail);
      }
    }
    ReadManyFlatten(images, rest, ReadSprite, SpriteBytes);
  }

  lemma ReadSheetOf(sprites: seq<Sprite>)
    requires |sprites| < U16Limit && forall j :: 0 <= j < |sprites| ==> SpriteFits(sprites[j])
    ensures Undoes(ReadSheet, SheetBytes, sprites)
  {
    forall j | 0 <= j < |sprites|
      ensures Undoes(ReadSprite, SpriteBytes, sprites[j])
    {
      forall tail: seq<Byte> {
        ReadSpriteBytes(sprites[j], tail);
      }
    }
    forall tail: seq<Byte> {
      ReadCountedOf(sprites, tail, ReadSprite, SpriteBytes);
    }
  }

  lemma ReadSheets(sheets: seq<seq<Sprite>>, rest: seq<Byte>)
    requires forall i :: 0 <= i < |sheets| ==> |sheets[i]| < U16Limit
    requires forall i, j :: 0 <= i < |sheets| && 0 <= j < |sheets[i]| ==> SpriteFits(sheets[i][j])
    ensures ReadMany(|sheets|, Flatten(sheets, SheetBytes) + rest, ReadSheet) == Some((sheets, rest))
  {
    forall i | 0 <= i < |sheets|
      ensures Undoes(ReadSheet, SheetBytes, sheets[i])
    {
      ReadSheetOf(sheets[i]);
    }
    ReadManyFlatten(sheets, rest, ReadSheet, SheetBytes);
  }

  lemma ReadAnimOf(frames: seq<Frame>)
    requires |frames| < U16Limit && forall j :: 0 <= j < |frames| ==> FrameFits(frames[j])
    ensures Undoes(ReadAnim, AnimBytes, frames)
  {
    forall j | 0 <= j < |frames|
      ensures Undoes(ReadFrame, FrameBytes, frames[j])
    {
      forall tail: seq<Byte> {
        ReadFrameBytes(frames[j], tail);
      }
    }
    forall tail: seq<Byte> {
      ReadCountedOf(frames, tail, ReadFrame, FrameBytes);
    }
  }

  lemma ReadAnims(anims: seq<seq<Frame>>, rest: seq<Byte>)
    requires forall i :: 0 <= i < |anims| ==> |anims[i]| < U16Limit
    requires forall i, j :: 0 <= i < |anims| && 0 <= j < |anims[i]| ==> FrameFits(anims[i][j])
    ensures ReadMany(|anims|, Flatten(anims, AnimBytes) + rest, ReadAnim) == Some((anims, rest))
  {
    forall i | 0 <= i < |anims|
      ensures Undoes(ReadAnim, AnimBytes, anims[i])
    {
      ReadAnimOf(anims[i]);
    }
    ReadManyFlatten(anims, rest, ReadAnim, AnimBytes);
  }

  lemma ReadSounds(sounds: seq<seq<Byte>>, rest: seq<Byte>)
    requires forall i :: 0 <= i < |sounds| ==> |sounds[i]| < U32Limit
    ensures ReadMany(|sounds|, Flatten(sounds, SoundBytes) + rest, ReadSound) == Some((sounds, rest))
  {
    forall i | 0 <= i < |sounds|
      ensures Undoes(ReadSound, SoundBytes, sounds[i])
    {
      forall tail: seq<Byte> {
        ReadSoundBytes(sounds[i], tail);
      }
    }
    ReadManyFlatten(sounds, rest, ReadSound, SoundBytes);
  }

  lemma PayloadSplit(k: Contents, rest: seq<Byte>)
    ensures Payload(k) + rest
      == Flatten(k.pages, PageBytes) + (Flatten(k.images, SpriteBytes) + (Flatten(k.sheets, SheetBytes)
           + (Flatten(k.anims, AnimBytes) + (Flatten(k.sounds, SoundBytes) + rest))))
  {
    var a, b, c, d, e := Flatten(k.pages, PageBytes), Flatten(k.images, SpriteBytes), Flatten(k.sheets, SheetBytes),
      Flatten(k.anims, AnimBytes), Flatten(k.sounds, SoundBytes);
    Associate5(a, b, c, d, e, rest);
  }

  lemma Associate5(a: seq<Byte>, b: seq<Byte>, c: seq<Byte>, d: seq<Byte>, e: seq<Byte>, rest: seq<Byte>)
    ensures a + b + c + d + e + rest == a + (b + (c + (d + (e + rest))))
  {
  }

  /** The payload reads back, given the counts from the header. */
  lemma ReadPayloadOf(c: Catalog, k: Contents, rest: seq<Byte>)
    requires Describes(c, k) && ContentsFit(k)
    requires forall i :: 0 <= i < |k.pages| ==> |k.pages[i]| == PixelBytes
    ensures ReadPayload(c, Payload(k) + rest) == Some((k, rest))
  {
    var b4 := rest;
    var b3 := Flatten(k.sounds, SoundBytes) + b4;
    var b2 := Flatten(k.anims, AnimBytes) + b3;
    var b1 := Flatten(k.sheets, SheetBytes) + b2;
    var b0 := Flatten(k.images, SpriteBytes) + b1;
    PayloadSplit(k, rest);
    ReadPages(k.pages, b0);
    ReadImages(k.images, b1);
    ReadSheets(k.sheets, b2);
    ReadAnims(k.anims, b3);
    ReadSounds(k.sounds, b4);
  }
}
