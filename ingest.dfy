/** What the compiler makes of its input files, as functions: how a path is
    classified, which items each file hands to `atlas_pack` and in what
    order, and which records it adds to the four collections. The class
    `Assets` (module Compiler) does the same step by step and is proved to agree. */
module Ingest {
  import opened Common
  import opened Packer
  import Names

  // ---- the records the compiler collects ----

  datatype Image = Image(name: string, sprite: Sprite)
  datatype Sheet = Sheet(name: string, sprites: seq<Sprite>)
  datatype Frame = Frame(sprite: Sprite, duration: nat)
  datatype Anim = Anim(name: string, frames: seq<Frame>)
  datatype Sound = Sound(name: string, data: seq<Byte>)

  // ---- what the external readers return for one file ----

  /** The size of an image or of a crop of one. */
  datatype Size = Size(w: nat, h: nat)

  /** One frame of an Aseprite export: its crop size and its duration in ms. */
  datatype AseFrame = AseFrame(size: Size, duration: nat)

  /** A frame tag of an Aseprite export: an inclusive range of frame indices. */
  datatype Tag = Tag(name: string, from: nat, to: nat)

  /** One input file with what the image library, the Aseprite exporter and
      the file system report about it; only the part matching the file's
      kind is used. `cell(x, y)` is the size of the grid crop in column `x`,
      row `y` of a sprite sheet (the crop box is computed in floating point
      and rounded by the image library). */
  datatype Input = Input(path: string, size: Size, cell: (nat, nat) -> Size,
                         frames: seq<AseFrame>, tags: seq<Tag>, bytes: seq<Byte>)

  /** The compiler's global state: the page cursors and the four collections. */
  datatype State = State(pages: seq<Cursor>, images: seq<Image>, sheets: seq<Sheet>,
                         anims: seq<Anim>, sounds: seq<Sound>)

  const Start := State([], [], [], [], [])

  predicate PagesWf(pages: seq<Cursor>)
  {
    forall i :: 0 <= i < |pages| ==> Wf(pages[i])
  }

  /** `s` is a placement on one of `n` pages, inside that page. */
  predicate OnPages(s: Sprite, n: nat)
  {
    s.page < n && InPage(s.box)
  }

  /** Every record of `st` points into an existing page. */
  predicate Consistent(st: State)
  {
    && PagesWf(st.pages)
    && (forall i :: 0 <= i < |st.images| ==> OnPages(st.images[i].sprite, |st.pages|))
    && (forall i, k :: 0 <= i < |st.sheets| && 0 <= k < |st.sheets[i].sprites| ==>
          OnPages(st.sheets[i].sprites[k], |st.pages|))
    && (forall i, k :: 0 <= i < |st.anims| && 0 <= k < |st.anims[i].frames| ==>
          OnPages(st.anims[i].frames[k].sprite, |st.pages|))
  }

  /** Adding or advancing pages keeps every record pointing into one. */
  lemma ConsistentOnMorePages(st: State, pages: seq<Cursor>)
    requires Consistent(st) && PagesWf(pages) && |st.pages| <= |pages|
    ensures Consistent(st.(pages := pages))
  {
  }

  /** Animations whose frames all use packed rectangles `rects` keep the state consistent. */
  lemma ConsistentWithAnims(st: State, rects: seq<Sprite>, extra: seq<Anim>)
    requires Consistent(st) && forall k :: 0 <= k < |rects| ==> OnPages(rects[k], |st.pages|)
    requires forall i, k :: 0 <= i < |extra| && 0 <= k < |extra[i].frames| ==> extra[i].frames[k].sprite in rects
    ensures Consistent(st.(anims := st.anims + extra))
  {
    var anims := st.anims + extra;
    forall i, k | 0 <= i < |anims| && 0 <= k < |anims[i].frames|
      ensures OnPages(anims[i].frames[k].sprite, |st.pages|)
    {
      if i >= |st.anims| {
        assert anims[i] == extra[i - |st.anims|];
      }
    }
  }

  // ---- classification of a path ----

  datatype Kind =
    | Picture(name: string)                           // a .png without a grid suffix
    | Grid(name: string, xCount: int, yCount: int)    // `name@X,Y.png`
    | Aseprite(name: string)
    | Audio(name: string)                             // .opus

  /** The sheet `base@suffix`: the suffix must split once at ',' into two
      integer counts. */
  function GridKind(base: string, suffix: string): (r: Result<Kind>)
    ensures r == Err(InvalidSheetDefinition) <==> |Names.SplitN(suffix, ',', 2)| != 2
    // with two parts, each must parse as an integer: those are the counts
    ensures var p := Names.SplitN(suffix, ',', 2);
      |p| == 2 ==>
        && (r.Ok? <==> Names.ParseInt(p[0]).Some? && Names.ParseInt(p[1]).Some?)
        && (r.Ok? ==> r.value == Grid(base, Names.ParseInt(p[0]).value, Names.ParseInt(p[1]).value))
        && (r.Err? ==> r.error == BadCount(p[0]) || r.error == BadCount(p[1]))
  {
    var counts := Names.SplitN(suffix, ',', 2);
    if |counts| != 2 then Err(InvalidSheetDefinition)
    else
      match Names.ParseInt(counts[0])
      case None => Err(BadCount(counts[0]))
      case Some(xc) =>
        match Names.ParseInt(counts[1])
        case None => Err(BadCount(counts[1]))
        case Some(yc) => Ok(Grid(base, xc, yc))
  }

  /** A `.png` named `name`: a sheet when the name splits once at '@'. */
  function PngKind(name: string): Result<Kind>
  {
    var parts := Names.SplitN(name, '@', 2);
    if |parts| == 2 then GridKind(parts[0], parts[1]) else Ok(Picture(name))
  }

  /** How the main loop treats `path`: by the extension of its base name,
      then, for a .png, by splitting the name on '@' (at most twice) and
      the part after it on ',' (at most twice). */
  function Classify(path: string): Result<Kind>
  {
    var (name, ext) := Names.SplitExt(Names.Basename(path));
    if ext == ".png" then PngKind(name)
    else if ext == ".aseprite" then Ok(Aseprite(name))
    else if ext == ".opus" then Ok(Audio(name))
    else Err(UnknownExtension(ext))
  }


  // ---- packing a run of items ----

  /** `atlas_pack` applied to each item of `sizes` in turn; the first refusal
      aborts. What it promises is `PackAllFails` and `PackAllPlaces`. */
  function PackAll(pages: seq<Cursor>, sizes: seq<Size>): (r: Result<(seq<Cursor>, seq<Sprite>)>)
    requires PagesWf(pages)
    ensures r.Ok? ==> PagesWf(r.value.0)
    ensures r.Err? ==> r.error == AtlasPackFailed
  {
    if sizes == [] then Ok((pages, []))
    else
      var n := |sizes| - 1;
      match PackAll(pages, sizes[..n])
      case Err(e) => Err(e)
      case Ok((ps, sprites)) =>
        var (ps', res) := PackOnto(ps, sizes[n].w, sizes[n].h);
        match res
        case Err(e) => Err(e)
        case Ok(s) => Ok((ps', sprites + [s]))
  }

  /** A run fails exactly when one of its items is taller than a page. */
  lemma {:induction false} PackAllFails(pages: seq<Cursor>, sizes: seq<Size>)
    requires PagesWf(pages)
    ensures PackAll(pages, sizes).Err? <==> exists k :: 0 <= k < |sizes| && sizes[k].h > TxSize
  {
    if sizes != [] {
      var n := |sizes| - 1;
      var front := sizes[..n];
      PackAllFails(pages, front);
      var rf := PackAll(pages, front);
      if rf.Ok? {
        var (ps, res) := PackOnto(rf.value.0, sizes[n].w, sizes[n].h);
        if res.Ok? {
          assert PackAll(pages, sizes).Ok?;
          assert forall k :: 0 <= k < n ==> sizes[k] == front[k];
        } else {
          assert PackAll(pages, sizes).Err?;
        }
      } else {
        assert PackAll(pages, sizes).Err?;
        var k :| 0 <= k < |front| && front[k].h > TxSize;
        assert sizes[k].h > TxSize;
      }
    }
  }

  /** A run that succeeds places every item, at its own size, inside one of
      the resulting pages, and loses no page. */
  lemma {:induction false} PackAllPlaces(pages: seq<Cursor>, sizes: seq<Size>)
    requires PagesWf(pages)
    ensures var r := PackAll(pages, sizes);
      r.Ok? ==>
        && |pages| <= |r.value.0| && |r.value.1| == |sizes|
        && forall k :: 0 <= k < |sizes| ==>
             && OnPages(r.value.1[k], |r.value.0|)
             && r.value.1[k].box.w == sizes[k].w && r.value.1[k].box.h == sizes[k].h
  {
    if sizes != [] {
      var n := |sizes| - 1;
      var front := sizes[..n];
      PackAllPlaces(pages, front);
      var rf := PackAll(pages, front);
      if rf.Ok? {
        var (ps, sprites) := rf.value;
        var (ps', res) := PackOnto(ps, sizes[n].w, sizes[n].h);
        if res.Ok? {
          var all := sprites + [res.value];
          assert PackAll(pages, sizes) == Ok((ps', all));
          assert |ps| <= |ps'| && OnPages(res.value, |ps'|);
          forall k | 0 <= k < |sizes|
            ensures OnPages(all[k], |ps'|) && all[k].box.w == sizes[k].w && all[k].box.h == sizes[k].h
          {
            if k < n {
              assert all[k] == sprites[k] && sizes[k] == front[k];
              assert OnPages(sprites[k], |ps|);
            } else {
              assert all[k] == res.value;
            }
          }
        }
      }
    }
  }

  // ---- sprite sheets ----

  /** The cells of row `y`, columns `0 .. x - 1`, left to right. */
  function Row(cell: (nat, nat) -> Size, y: nat, x: nat): (r: seq<Size>)
    ensures |r| == x
  {
    if x == 0 then [] else Row(cell, y, x - 1) + [cell(x - 1, y)]
  }

  /** The cells of rows `0 .. y - 1`: the order of the nested `for y` /
      `for x` loops. */
  function GridCells(cell: (nat, nat) -> Size, xCount: nat, y: nat): seq<Size>
  {
    if y == 0 then [] else GridCells(cell, xCount, y - 1) + Row(cell, y - 1, xCount)
  }

  /** `range(n)` is empty for a negative `n`. */
  function Clamp(n: int): nat { if n < 0 then 0 else n }

  /** A sheet `name@X,Y.png`: a zero count fails the cell-size division;
      otherwise the `X*Y` cells are packed row by row. */
  function SheetStep(st: State, name: string, xCount: int, yCount: int, cell: (nat, nat) -> Size): (r: Result<State>)
    requires Consistent(st)
    ensures r.Ok? ==> Consistent(r.value)
  {
    if xCount == 0 || yCount == 0 then Err(ZeroDivision)
    else
      PackAllPlaces(st.pages, GridCells(cell, Clamp(xCount), Clamp(yCount)));
      match PackAll(st.pages, GridCells(cell, Clamp(xCount), Clamp(yCount)))
      case Err(e) => Err(e)
      case Ok((ps, sprites)) => Ok(st.(pages := ps, sheets := st.sheets + [Sheet(name, sprites)]))
  }

  // ---- Aseprite animations ----

  function FrameSizes(frames: seq<AseFrame>): (r: seq<Size>)
    ensures |r| == |frames| && forall k :: 0 <= k < |frames| ==> r[k] == frames[k].size
  {
    seq(|frames|, k requires 0 <= k < |frames| => frames[k].size)
  }

  /** The frames of one tag: the packed rectangle and duration of each frame
      in `from ..= to` (empty when `from > to`). */
  function TagFrames(rects: seq<Sprite>, frames: seq<AseFrame>, from: nat, to: nat): (r: seq<Frame>)
    requires |rects| == |frames|
    requires from <= to ==> to < |frames|
    ensures forall k :: 0 <= k < |r| ==> r[k].sprite in rects
  {
    if from <= to then seq(to - from + 1, k requires 0 <= k <= to - from => Frame(rects[from + k], frames[from + k].duration))
    else []
  }

  /** The animation of one tag, or the IndexError of a range past the last frame. */
  function TagAnim(name: string, rects: seq<Sprite>, frames: seq<AseFrame>, tag: Tag): Result<Anim>
    requires |rects| == |frames|
  {
    if tag.from <= tag.to && tag.to >= |frames| then Err(FrameIndex)
    else Ok(Anim(name + "_" + tag.name, TagFrames(rects, frames, tag.from, tag.to)))
  }

  /** One animation per tag, in tag order. */
  function TagAnims(name: string, rects: seq<Sprite>, frames: seq<AseFrame>, tags: seq<Tag>): (r: Result<seq<Anim>>)
    requires |rects| == |frames|
    ensures r.Err? ==> r.error == FrameIndex
    ensures r.Ok? ==> |r.value| == |tags|
    ensures r.Ok? ==> forall i, k :: 0 <= i < |r.value| && 0 <= k < |r.value[i].frames| ==> r.value[i].frames[k].sprite in rects
  {
    if tags == [] then Ok([])
    else
      match TagAnims(name, rects, frames, tags[..|tags| - 1])
      case Err(e) => Err(e)
      case Ok(anims) =>
        match TagAnim(name, rects, frames, tags[|tags| - 1])
        case Err(e) => Err(e)
        case Ok(a) => Ok(anims + [a])
  }

  /** An Aseprite file: every frame is packed once, then each tag becomes an
      animation over the shared frame rectangles. */
  function AnimStep(st: State, name: string, frames: seq<AseFrame>, tags: seq<Tag>): (r: Result<State>)
    requires Consistent(st)
    ensures r.Ok? ==> Consistent(r.value)
  {
    PackAllPlaces(st.pages, FrameSizes(frames));
    match PackAll(st.pages, FrameSizes(frames))
    case Err(e) => Err(e)
    case Ok((ps, rects)) =>
      match TagAnims(name, rects, frames, tags)
      case Err(e) => Err(e)
      case Ok(anims) => Ok(st.(pages := ps, anims := st.anims + anims))
  }

  // ---- one file, and the main loop ----

  /** A whole .png image packed as one item. */
  function ImageStep(st: State, name: string, size: Size): (r: Result<State>)
    requires Consistent(st)
    ensures r.Ok? ==> Consistent(r.value)
  {
    var (ps, res) := PackOnto(st.pages, size.w, size.h);
    match res
    case Err(e) => Err(e)
    case Ok(s) => Ok(st.(pages := ps, images := st.images + [Image(name, s)]))
  }

  /** One iteration of the main loop. */
  function Step(st: State, input: Input): (r: Result<State>)
    requires Consistent(st)
    ensures r.Ok? ==> Consistent(r.value)
  {
    match Classify(input.path)
    case Err(e) => Err(e)
    case Ok(Picture(name)) => ImageStep(st, name, input.size)
    case Ok(Grid(name, xc, yc)) => SheetStep(st, name, xc, yc, input.cell)
    case Ok(Aseprite(name)) => AnimStep(st, name, input.frames, input.tags)
    case Ok(Audio(name)) => Ok(st.(sounds := st.sounds + [Sound(name, input.bytes)]))
  }

  /** The main loop over every input, in command-line order; the first error
      aborts the build. */
  function Run(inputs: seq<Input>): (r: Result<State>)
    ensures r.Ok? ==> Consistent(r.value)
  {
    if inputs == [] then Ok(Start)
    else
      match Run(inputs[..|inputs| - 1])
      case Err(e) => Err(e)
      case Ok(st) => Step(st, inputs[|inputs| - 1])
  }
}
