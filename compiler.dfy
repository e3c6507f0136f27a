/** The compiler's global state and main loop, step by step: the list of
    `Atlas` pages, the four collections, `atlas_pack` and the ingestion of
    each input file. Every method is proved to agree with the functions of
    `Ingest`. */
module Compiler {
  import opened Common
  import opened Packer
  import opened Ingest
  import opened IngestLemmas

  /** What a step left behind, read as the result of its specification. */
  function After(status: Result<()>, st: State): Result<State>
  {
    if status.Ok? then Ok(st) else Err(status.error)
  }

  /** The script's globals `atlases`, `images`, `sheets`, `anims`, `sounds`. */
  class Assets {
    var atlases: seq<Atlas>
    var images: seq<Image>
    var sheets: seq<Sheet>
    var anims: seq<Anim>
    var sounds: seq<Sound>
    /** The cursor of each page, in page order. */
    ghost var pages: seq<Cursor>
    /** This object and every page it owns. */
    ghost var Repr: set<object>

    ghost function State(): Ingest.State
      reads this
    {
      Ingest.State(pages, images, sheets, anims, sounds)
    }

    /** The pages are distinct objects, each keeping its shelf invariant,
        and `pages` holds their cursors. */
    ghost predicate PagesValid()
      reads this, atlases
    {
      && |pages| == |atlases|
      && (forall i :: 0 <= i < |atlases| ==> atlases[i].Valid() && pages[i] == atlases[i].Cur())
      && (forall i, j :: 0 <= i < j < |atlases| ==> atlases[i] != atlases[j])
    }

    /** `Repr` holds this object and every page. */
    ghost predicate Owned()
      reads this
    {
      this in Repr && forall i :: 0 <= i < |atlases| ==> atlases[i] in Repr
    }

    /** What `atlas_pack` needs and keeps: owned, distinct, valid pages. */
    ghost predicate Paged()
      reads this, Repr
    {
      Owned() && PagesValid()
    }

    ghost predicate Valid()
      reads this, Repr
    {
      Paged() && Consistent(State())
    }

    constructor ()
      ensures Valid() && fresh(Repr) && State() == Start
    {
      atlases, images, sheets, anims, sounds := [], [], [], [], [];
      pages := [];
      Repr := {this};
    }

    /** `atlases.append(Atlas())`. */
    method AddPage()
      requires Paged()
      modifies this`atlases, this`pages, this`Repr
      ensures Paged() && pages == old(pages) + [Empty]
      ensures |atlases| == |old(atlases)| + 1 && atlases[..|old(atlases)|] == old(atlases)
      ensures fresh(atlases[|atlases| - 1]) && Repr == old(Repr) + {atlases[|atlases| - 1]}
    {
      var a := new Atlas();
      atlases := atlases + [a];
      pages := pages + [Empty];
      Repr := Repr + {a};
    }

    /** `atlases[-1].pack(img)`. */
    method PackLast(w: nat, h: nat) returns (res: Option<Box>)
      requires PagesValid() && atlases != []
      modifies this`pages, atlases[|atlases| - 1]
      ensures PagesValid()
      ensures var n := |atlases| - 1;
        && (pages[n], res) == Place(old(pages)[n], w, h)
        && pages == old(pages)[n := pages[n]]
    {
      var last := atlases[|atlases| - 1];
      res := last.Pack(w, h);
      pages := pages[|atlases| - 1 := last.Cur()];
      assert forall i :: 0 <= i < |atlases| - 1 ==> atlases[i] != last;
    }

    /** The fallback of `atlas_pack`: a new page, and the image packed onto it. */
    method PackOnNewPage(w: nat, h: nat) returns (res: Option<Box>)
      requires Paged()
      modifies this`atlases, this`pages, this`Repr
      ensures Paged()
      ensures (pages, res) == (old(pages) + [Place(Empty, w, h).0], Place(Empty, w, h).1)
      ensures |atlases| == |old(atlases)| + 1 && atlases[..|old(atlases)|] == old(atlases)
      ensures fresh(atlases[|atlases| - 1]) && Repr == old(Repr) + {atlases[|atlases| - 1]}
    {
      AddPage();
      ghost var ps := pages;
      res := PackLast(w, h);
      assert ps[|ps| - 1] == Empty;
      assert pages == old(pages) + [pages[|ps| - 1]];
    }

    /** `atlas_pack` once a page exists: the last page, else a new one. */
    method PackOpened(w: nat, h: nat) returns (r: Result<Sprite>)
      requires Paged() && atlases != []
      modifies Repr
      ensures Paged() && fresh(Repr - old(Repr)) && |old(atlases)| <= |atlases|
      ensures (pages, r) == PackOnto(old(pages), w, h)
      ensures images == old(images) && sheets == old(sheets) && anims == old(anims) && sounds == old(sounds)
    {
      var res := PackLast(w, h);
      if res.Some? {
        return Ok(Sprite(|atlases| - 1, res.value));
      }
      res := PackOnNewPage(w, h);
      if res.None? {
        r := Err(AtlasPackFailed);
      } else {
        r := Ok(Sprite(|atlases| - 1, res.value));
      }
    }

    /** `atlas_pack`: the first page is created on demand. */
    method AtlasPack(w: nat, h: nat) returns (r: Result<Sprite>)
      requires Paged()
      modifies Repr
      ensures Paged() && fresh(Repr - old(Repr)) && |old(atlases)| <= |atlases|
      ensures (pages, r) == PackOnto(old(pages), w, h)
      ensures images == old(images) && sheets == old(sheets) && anims == old(anims) && sounds == old(sounds)
    {
      if atlases == [] {
        AddPage();
      }
      assert pages == Opened(old(pages));
      r := PackOpened(w, h);
    }

    /** A regular `.png`: the whole image packed as one item. */
    method IngestImage(name: string, size: Size) returns (status: Result<()>)
      requires Valid()
      modifies Repr
      ensures Valid() && fresh(Repr - old(Repr))
      ensures After(status, State()) == ImageStep(old(State()), name, size)
    {
      ghost var st := State();
      var r := AtlasPack(size.w, size.h);
      if r.Err? {
        assert PackOnto(st.pages, size.w, size.h).1 == r;
        assert ImageStep(st, name, size) == Err(r.error);
        return Err(r.error);
      }
      assert PackOnto(st.pages, size.w, size.h) == (pages, r);
      images := images + [Ingest.Image(name, r.value)];
      status := Ok(());
      assert State() == st.(pages := pages, images := st.images + [Ingest.Image(name, r.value)]);
      assert ImageStep(st, name, size) == Ok(st.(pages := pages, images := st.images + [Ingest.Image(name, r.value)]));
    }

    /** `atlas_pack` of item `i` of a run whose first `i` items were packed
        from `start` into the sprites `packed`. */
    method PackNext(ghost start: seq<Cursor>, sizes: seq<Size>, i: nat, packed: seq<Sprite>)
      returns (r: Result<seq<Sprite>>)
      requires Paged() && PagesWf(start) && i < |sizes| && PackAll(start, sizes[..i]) == Ok((pages, packed))
      modifies Repr
      ensures Paged() && fresh(Repr - old(Repr)) && |old(atlases)| <= |atlases|
      ensures images == old(images) && sheets == old(sheets) && anims == old(anims) && sounds == old(sounds)
      ensures r.Ok? ==> PackAll(start, sizes[..i + 1]) == Ok((pages, r.value))
      ensures r.Err? ==> r.error == AtlasPackFailed && sizes[i].h > TxSize
    {
      assert sizes[..i + 1] == sizes[..i] + [sizes[i]];
      PackAllSnoc(start, sizes[..i], sizes[i]);
      var p := AtlasPack(sizes[i].w, sizes[i].h);
      if p.Err? {
        return Err(p.error);
      }
      r := Ok(packed + [p.value]);
    }

    /** `atlas_pack` of each item of `sizes` in turn, stopping at the first
        refusal: the body of the `for x` loop of a sheet row, and of the
        `for frame` loop of an Aseprite file. */
    method PackItems(sizes: seq<Size>) returns (r: Result<seq<Sprite>>)
      requires Paged()
      modifies Repr
      ensures Paged() && fresh(Repr - old(Repr)) && |old(atlases)| <= |atlases|
      ensures images == old(images) && sheets == old(sheets) && anims == old(anims) && sounds == old(sounds)
      ensures r.Ok? ==> PackAll(old(pages), sizes) == Ok((pages, r.value))
      ensures r.Err? ==> r.error == AtlasPackFailed && exists k :: 0 <= k < |sizes| && sizes[k].h > TxSize
    {
      ghost var start := pages;
      var packed: seq<Sprite> := [];
      var i := 0;
      assert sizes[..0] == [];
      while i < |sizes|
        invariant i <= |sizes|
        invariant Paged() && fresh(Repr - old(Repr)) && |old(atlases)| <= |atlases|
        invariant images == old(images) && sheets == old(sheets) && anims == old(anims) && sounds == old(sounds)
        invariant PackAll(start, sizes[..i]) == Ok((pages, packed))
      {
        var p := PackNext(start, sizes, i, packed);
        if p.Err? {
          return p;
        }
        packed := p.value;
        i := i + 1;
      }
      assert sizes[..i] == sizes;
      r := Ok(packed);
    }

    /** A sheet `name@X,Y.png`: both cell sizes are divided out first, then the
        outer `for y` loop packs the rows. */
    method IngestSheet(name: string, xCount: int, yCount: int, cell: (nat, nat) -> Size) returns (status: Result<()>)
      requires Valid()
      modifies Repr
      ensures Valid() && fresh(Repr - old(Repr))
      ensures After(status, State()) == SheetStep(old(State()), name, xCount, yCount, cell)
    {
      if xCount == 0 || yCount == 0 {
        return Err(ZeroDivision);
      }
      var columns, rows := Clamp(xCount), Clamp(yCount);
      ghost var st := State();
      ghost var cells: seq<Size> := [];
      var sprites: seq<Sprite> := [];
      var y: nat := 0;
      while y < rows
        invariant y <= rows
        invariant Paged() && fresh(Repr - old(Repr)) && |st.pages| <= |atlases|
        invariant images == st.images && sheets == st.sheets && anims == st.anims && sounds == st.sounds
        invariant cells == GridCells(cell, columns, y)
        invariant PackAll(st.pages, cells) == Ok((pages, sprites))
      {
        var row := Row(cell, y, columns);
        ghost var before := pages;
        var r := PackItems(row);
        if r.Err? {
          assert PackAll(st.pages, GridCells(cell, columns, rows)).Err? by {
            var x: nat :| x < |row| && row[x].h > TxSize;
            RowCells(cell, y, columns);
            TallCellFailsGrid(st.pages, cell, columns, rows, x, y);
          }
          StillConsistent(st);
          return Err(r.error);
        }
        assert PackAll(st.pages, cells + row) == Ok((pages, sprites + r.value)) by {
          PackAllAppend(st.pages, cells, row);
        }
        sprites := sprites + r.value;
        cells := cells + row;
        y := y + 1;
      }
      ghost var done := st.(pages := pages, sheets := st.sheets + [Sheet(name, sprites)]);
      assert SheetStep(st, name, xCount, yCount, cell) == Ok(done);
      sheets := sheets + [Sheet(name, sprites)];
      status := Ok(());
      assert State() == done;
    }

    /** Pages only added to or advanced keep every record of `st` on a page. */
    lemma StillConsistent(st: Ingest.State)
      requires Paged() && Consistent(st) && |st.pages| <= |atlases|
      requires images == st.images && sheets == st.sheets && anims == st.anims && sounds == st.sounds
      ensures Valid()
    {
      assert PagesWf(pages);
      ConsistentOnMorePages(st, pages);
      assert State() == st.(pages := pages);
    }

    /** The page cursors read off the page objects, with the four collections. */
    method Snapshot() returns (st: Ingest.State)
      requires Paged()
      ensures st == State()
    {
      var cursors: seq<Cursor> := [];
      var i := 0;
      while i < |atlases|
        invariant i <= |atlases|
        invariant cursors == pages[..i]
      {
        cursors := cursors + [atlases[i].Cur()];
        i := i + 1;
      }
      assert pages[..i] == pages;
      st := Ingest.State(cursors, images, sheets, anims, sounds);
    }

    /** The `for anim` loop of an Aseprite file: one animation per tag. */
    method AddTagAnims(name: string, rects: seq<Sprite>, frames: seq<AseFrame>, tags: seq<Tag>) returns (status: Result<()>)
      requires |rects| == |frames|
      modifies this`anims
      ensures status.Ok? <==> TagAnims(name, rects, frames, tags).Ok?
      ensures status.Ok? ==> anims == old(anims) + TagAnims(name, rects, frames, tags).value
      ensures status.Err? ==> status.error == FrameIndex
      ensures |old(anims)| <= |anims| && anims[..|old(anims)|] == old(anims)
      ensures forall i, k :: |old(anims)| <= i < |anims| && 0 <= k < |anims[i].frames| ==> anims[i].frames[k].sprite in rects
    {
      ghost var made: seq<Anim> := [];
      var t := 0;
      while t < |tags|
        invariant t <= |tags|
        invariant anims == old(anims) + made
        invariant TagAnims(name, rects, frames, tags[..t]) == Ok(made)
      {
        var tag := tags[t];
        TagAnimsSnoc(name, rects, frames, tags[..t], tag);
        assert tags[..t] + [tag] == tags[..t + 1];
        if tag.from <= tag.to && tag.to >= |frames| {
          TagAnimsResult(name, rects, frames, tags);
          return Err(FrameIndex);
        }
        var anim := Anim(name + "_" + tag.name, TagFrames(rects, frames, tag.from, tag.to));
        anims := anims + [anim];
        made := made + [anim];
        t := t + 1;
      }
      assert tags[..t] == tags;
      status := Ok(());
    }

    /** An `.aseprite` file: its frames, then its tags. */
    method IngestAseprite(name: string, frames: seq<AseFrame>, tags: seq<Tag>) returns (status: Result<()>)
      requires Valid()
      modifies Repr
      ensures Valid() && fresh(Repr - old(Repr))
      ensures After(status, State()) == AnimStep(old(State()), name, frames, tags)
    {
      ghost var st := State();
      var r := PackItems(FrameSizes(frames));
      if r.Err? {
        PackAllFails(st.pages, FrameSizes(frames));
        StillConsistent(st);
        return Err(r.error);
      }
      var rects := r.value;
      PackAllPlaces(st.pages, FrameSizes(frames));
      StillConsistent(st);
      ghost var st1 := State();
      status := AddTagAnims(name, rects, frames, tags);
      ConsistentWithAnims(st1, rects, anims[|st1.anims|..]);
      assert State() == st1.(anims := st1.anims + anims[|st1.anims|..]);
    }

    /** One iteration of `for filename in filenames`: the file is classified by
        its name, then handled by its kind. */
    method IngestFile(input: Input) returns (status: Result<()>)
      requires Valid()
      modifies Repr
      ensures Valid() && fresh(Repr - old(Repr))
      ensures After(status, State()) == Step(old(State()), input)
    {
      var kind := Classify(input.path);
      if kind.Err? {
        return Err(kind.error);
      }
      ghost var st := State();
      match kind.value
      case Picture(name) =>
        assert Step(st, input) == ImageStep(st, name, input.size);
        status := IngestImage(name, input.size);
      case Grid(name, xCount, yCount) =>
        assert Step(st, input) == SheetStep(st, name, xCount, yCount, input.cell);
        status := IngestSheet(name, xCount, yCount, input.cell);
      case Aseprite(name) =>
        assert Step(st, input) == AnimStep(st, name, input.frames, input.tags);
        status := IngestAseprite(name, input.frames, input.tags);
      case Audio(name) =>
        assert Step(st, input) == Ok(st.(sounds := st.sounds + [Sound(name, input.bytes)]));
        sounds := sounds + [Sound(name, input.bytes)];
        status := Ok(());
    }
  }

  /** The whole ingestion: empty globals, then every input in command-line
      order, stopping at the first error. */
  method IngestAll(inputs: seq<Input>) returns (assets: Assets, status: Result<()>)
    ensures fresh(assets.Repr) && assets.Valid()
    ensures After(status, assets.State()) == Run(inputs)
  {
    assets := new Assets();
    var i := 0;
    assert inputs[..0] == [];
    while i < |inputs|
      invariant i <= |inputs|
      invariant fresh(assets.Repr) && assets.Valid()
      invariant Run(inputs[..i]) == Ok(assets.State())
    {
      assert inputs[..i + 1][..i] == inputs[..i];
      status := assets.IngestFile(inputs[i]);
      if status.Err? {
        RunStopsAtError(inputs, i + 1);
        return;
      }
      i := i + 1;
    }
    assert inputs[..i] == inputs;
    status := Ok(());
  }
}
