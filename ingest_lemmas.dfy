/** What the ingestion rules promise, proved about the functions of `Ingest`. */
module IngestLemmas {
  import opened Common
  import opened Packer
  import opened Ingest
  import Names

  // ---- grid sheets ----

  lemma DivModOfRow(q: nat, r: nat, n: nat)
    requires r < n
    ensures (q * n + r) / n == q && (q * n + r) % n == r
  {
    var k := q * n + r;
    var q', r' := k / n, k % n;
    assert k == q' * n + r' && 0 <= r' < n;
    assert q' * n + r' < (q' + 1) * n;
    assert q * n + r < (q + 1) * n;
  }

  lemma {:induction false} RowCells(cell: (nat, nat) -> Size, y: nat, x: nat)
    ensures forall i :: 0 <= i < x ==> Row(cell, y, x)[i] == cell(i, y)
  {
    if x > 0 {
      RowCells(cell, y, x - 1);
    }
  }

  /** Cell `k` of the grid after row `y` has been appended to the rows above it. */
  lemma GridCellAt(cell: (nat, nat) -> Size, xCount: nat, y: nat, before: seq<Size>, k: nat)
    requires |before| == y * xCount
    requires forall j :: 0 <= j < |before| ==> before[j] == cell(j % xCount, j / xCount)
    requires k < |before| + xCount
    ensures (before + Row(cell, y, xCount))[k] == cell(k % xCount, k / xCount)
  {
    RowCells(cell, y, xCount);
    if k < |before| {
      assert (before + Row(cell, y, xCount))[k] == before[k];
    } else {
      var i := k - |before|;
      DivModOfRow(y, i, xCount);
      assert k == y * xCount + i;
    }
  }

  /** A sheet of `X` by `Y` cells yields exactly `X*Y` items, row after
      row (`y` outer, `x` inner). */
  lemma {:induction false} GridCellsOrder(cell: (nat, nat) -> Size, xCount: nat, yCount: nat)
    ensures |GridCells(cell, xCount, yCount)| == xCount * yCount
    ensures forall k :: 0 <= k < xCount * yCount ==>
      GridCells(cell, xCount, yCount)[k] == cell(k % xCount, k / xCount)
  {
    if yCount > 0 {
      GridCellsOrder(cell, xCount, yCount - 1);
      RowCells(cell, yCount - 1, xCount);
      var before := GridCells(cell, xCount, yCount - 1);
      var all := GridCells(cell, xCount, yCount);
      assert all == before + Row(cell, yCount - 1, xCount);
      var n := |before| + xCount;
      assert |before| == (yCount - 1) * xCount && xCount * yCount == n by {
        assert xCount * yCount == xCount * (yCount - 1) + xCount;
      }
      forall k | 0 <= k < n
        ensures all[k] == cell(k % xCount, k / xCount)
      {
        GridCellAt(cell, xCount, yCount - 1, before, k);
      }
    }
  }

  lemma CellIndexBound(x: nat, y: nat, xCount: nat, yCount: nat)
    requires x < xCount && y < yCount
    ensures y * xCount + x < xCount * yCount
  {
    assert y * xCount + x < (y + 1) * xCount;
    assert (y + 1) * xCount <= yCount * xCount;
  }

  /** A cell taller than a page anywhere in the grid makes the whole sheet fail. */
  lemma TallCellFailsGrid(pages: seq<Cursor>, cell: (nat, nat) -> Size, xCount: nat, yCount: nat, x: nat, y: nat)
    requires PagesWf(pages) && x < xCount && y < yCount && cell(x, y).h > TxSize
    ensures PackAll(pages, GridCells(cell, xCount, yCount)).Err?
  {
    GridCellsOrder(cell, xCount, yCount);
    DivModOfRow(y, x, xCount);
    CellIndexBound(x, y, xCount, yCount);
    var k := y * xCount + x;
    assert GridCells(cell, xCount, yCount)[k].h > TxSize;
    PackAllFails(pages, GridCells(cell, xCount, yCount));
  }

  /** Packing one more item is packing the others, then that one. */
  lemma PackAllSnoc(pages: seq<Cursor>, sizes: seq<Size>, z: Size)
    requires PagesWf(pages)
    ensures PackAll(pages, sizes + [z]) ==
      match PackAll(pages, sizes)
      case Err(e) => Err(e)
      case Ok((ps, sprites)) =>
        var (ps', res) := PackOnto(ps, z.w, z.h);
        match res
        case Err(e) => Err(e)
        case Ok(s) => Ok((ps', sprites + [s]))
  {
    assert (sizes + [z])[..|sizes|] == sizes;
  }

  /** Packing `b` after a run that ended in `r`. */
  function PackThen(r: Result<(seq<Cursor>, seq<Sprite>)>, b: seq<Size>): Result<(seq<Cursor>, seq<Sprite>)>
    requires r.Ok? ==> PagesWf(r.value.0)
  {
    match r
    case Err(e) => Err(e)
    case Ok((ps, sprites)) =>
      match PackAll(ps, b)
      case Err(e) => Err(e)
      case Ok((ps', more)) => Ok((ps', sprites + more))
  }

  /** Packing `a + b` is packing `a`, then packing `b` onto the pages `a` left. */
  lemma {:induction false} PackAllAppend(pages: seq<Cursor>, a: seq<Size>, b: seq<Size>)
    requires PagesWf(pages)
    ensures PackAll(pages, a + b) == PackThen(PackAll(pages, a), b)
  {
    if b == [] {
      assert a + b == a;
      var ra := PackAll(pages, a);
      if ra.Ok? {
        assert ra.value.1 + [] == ra.value.1;
      }
    } else {
      var front, z := b[..|b| - 1], b[|b| - 1];
      assert b == front + [z];
      PackAllAppend(pages, a, front);
      PackAllAppendStep(pages, a, front, z);
    }
  }

  lemma PackAllAppendStep(pages: seq<Cursor>, a: seq<Size>, front: seq<Size>, z: Size)
    requires PagesWf(pages)
    requires PackAll(pages, a + front) == PackThen(PackAll(pages, a), front)
    ensures PackAll(pages, a + (front + [z])) == PackThen(PackAll(pages, a), front + [z])
  {
    assert a + (front + [z]) == (a + front) + [z];
    var ra := PackAll(pages, a);
    if ra.Err? {
      assert PackAll(pages, (a + front) + [z]) == Err(ra.error) by { PackAllSnoc(pages, a + front, z); }
    } else {
      var (ps, sprites) := ra.value;
      var rf := PackAll(ps, front);
      if rf.Err? {
        assert PackAll(pages, (a + front) + [z]) == Err(rf.error) by { PackAllSnoc(pages, a + front, z); }
        assert PackAll(ps, front + [z]) == Err(rf.error) by { PackAllSnoc(ps, front, z); }
      } else {
        var (qs, more) := rf.value;
        var (qs', res) := PackOnto(qs, z.w, z.h);
        if res.Err? {
          assert PackAll(pages, (a + front) + [z]) == Err(res.error) by { PackAllSnoc(pages, a + front, z); }
          assert PackAll(ps, front + [z]) == Err(res.error) by { PackAllSnoc(ps, front, z); }
        } else {
          assert PackAll(pages, (a + front) + [z]) == Ok((qs', (sprites + more) + [res.value])) by {
            PackAllSnoc(pages, a + front, z);
          }
          assert PackAll(ps, front + [z]) == Ok((qs', more + [res.value])) by { PackAllSnoc(ps, front, z); }
          assert sprites + (more + [res.value]) == (sprites + more) + [res.value];
        }
      }
    }
  }

  /** Appending one more tag is making the earlier ones, then that one. */
  lemma TagAnimsSnoc(name: string, rects: seq<Sprite>, frames: seq<AseFrame>, tags: seq<Tag>, tag: Tag)
    requires |rects| == |frames|
    ensures TagAnims(name, rects, frames, tags + [tag]) ==
      match TagAnims(name, rects, frames, tags)
      case Err(e) => Err(e)
      case Ok(anims) =>
        match TagAnim(name, rects, frames, tag)
        case Err(e) => Err(e)
        case Ok(a) => Ok(anims + [a])
  {
    assert (tags + [tag])[..|tags|] == tags;
  }

  /** A sheet step appends one sheet holding the placements `atlas_pack`
      returned for its grid cells, one per cell at that cell's size, and takes
      the pages packing leaves; `GridCellsOrder` says which cell is which. */
  lemma SheetStepResult(st: State, name: string, xCount: int, yCount: int, cell: (nat, nat) -> Size)
    requires Consistent(st)
    requires SheetStep(st, name, xCount, yCount, cell).Ok?
    ensures var st' := SheetStep(st, name, xCount, yCount, cell).value;
      var cells := GridCells(cell, Clamp(xCount), Clamp(yCount));
      && xCount != 0 && yCount != 0
      && st'.images == st.images && st'.anims == st.anims && st'.sounds == st.sounds
      && |st'.sheets| == |st.sheets| + 1 && st'.sheets[..|st.sheets|] == st.sheets
      && st'.sheets[|st.sheets|].name == name
      && |st'.sheets[|st.sheets|].sprites| == |cells|
      && (forall k :: 0 <= k < |cells| ==>
           st'.sheets[|st.sheets|].sprites[k].box.w == cells[k].w && st'.sheets[|st.sheets|].sprites[k].box.h == cells[k].h)
      && PackAll(st.pages, cells).Ok?
      && st' == st.(pages := PackAll(st.pages, cells).value.0,
                    sheets := st.sheets + [Sheet(name, PackAll(st.pages, cells).value.1)])
  {
    PackAllPlaces(st.pages, GridCells(cell, Clamp(xCount), Clamp(yCount)));
  }

  /** A plain image appends exactly one image record under its name, placed
      by `atlas_pack` at the image's size on the last page; it fails exactly
      when the image is taller than a page. Nothing else changes. */
  lemma ImageStepResult(st: State, name: string, size: Size)
    requires Consistent(st)
    ensures ImageStep(st, name, size).Err? <==> size.h > TxSize
    ensures var (ps, res) := PackOnto(st.pages, size.w, size.h);
      ImageStep(st, name, size).Ok? ==>
        && res.Ok?
        && ImageStep(st, name, size).value == st.(pages := ps, images := st.images + [Image(name, res.value)])
        && res.value.page == |ps| - 1 && res.value.box.w == size.w && res.value.box.h == size.h
  {
  }

  /** An Aseprite file packs one item per frame, at the frame's size, and
      appends exactly the animations of its tags over those placements;
      it fails exactly when a frame is taller than a page or a tag runs past
      the last frame. Images, sheets and sounds do not change. */
  lemma AnimStepResult(st: State, name: string, frames: seq<AseFrame>, tags: seq<Tag>)
    requires Consistent(st)
    ensures AnimStep(st, name, frames, tags).Err? <==>
      || (exists k :: 0 <= k < |frames| && frames[k].size.h > TxSize)
      || (exists i :: 0 <= i < |tags| && tags[i].from <= tags[i].to && tags[i].to >= |frames|)
    ensures var packed := PackAll(st.pages, FrameSizes(frames));
      AnimStep(st, name, frames, tags).Ok? ==>
        && packed.Ok? && |packed.value.1| == |frames|
        && (forall k :: 0 <= k < |frames| ==>
              packed.value.1[k].box.w == frames[k].size.w && packed.value.1[k].box.h == frames[k].size.h)
        && TagAnims(name, packed.value.1, frames, tags).Ok?
        && AnimStep(st, name, frames, tags).value
             == st.(pages := packed.value.0, anims := st.anims + TagAnims(name, packed.value.1, frames, tags).value)
  {
    var sizes := FrameSizes(frames);
    PackAllFails(st.pages, sizes);
    PackAllPlaces(st.pages, sizes);
    var packed := PackAll(st.pages, sizes);
    var tall := exists k :: 0 <= k < |frames| && frames[k].size.h > TxSize;
    assert tall <==> exists k :: 0 <= k < |sizes| && sizes[k].h > TxSize by {
      if tall {
        var k :| 0 <= k < |frames| && frames[k].size.h > TxSize;
        assert sizes[k].h > TxSize;
      }
    }
    if packed.Ok? {
      TagAnimsResult(name, packed.value.1, frames, tags);
    }
  }

  // ---- Aseprite tags ----

  /** Each tag becomes, in order, an animation named `<file>_<tag>` whose
      frames are the shared rectangles and durations of `from ..= to`;
      the tags are refused exactly when one of them runs past the last frame. */
  lemma {:induction false} TagAnimsResult(name: string, rects: seq<Sprite>, frames: seq<AseFrame>, tags: seq<Tag>)
    requires |rects| == |frames|
    ensures TagAnims(name, rects, frames, tags).Err? <==>
      exists i :: 0 <= i < |tags| && tags[i].from <= tags[i].to && tags[i].to >= |frames|
    ensures TagAnims(name, rects, frames, tags).Ok? ==>
      var anims := TagAnims(name, rects, frames, tags).value;
      forall i :: 0 <= i < |tags| ==>
        && anims[i].name == name + "_" + tags[i].name
        && |anims[i].frames| == (if tags[i].from <= tags[i].to then tags[i].to - tags[i].from + 1 else 0)
        && forall k :: 0 <= k < |anims[i].frames| ==>
             anims[i].frames[k] == Frame(rects[tags[i].from + k], frames[tags[i].from + k].duration)
  {
    if tags != [] {
      var n := |tags| - 1;
      var front := tags[..n];
      TagAnimsResult(name, rects, frames, front);
      var r := TagAnims(name, rects, frames, front);
      var t := TagAnim(name, rects, frames, tags[n]);
      if r.Err? {
        assert TagAnims(name, rects, frames, tags).Err?;
        var i :| 0 <= i < |front| && front[i].from <= front[i].to && front[i].to >= |frames|;
        assert tags[i] == front[i];
      } else if t.Err? {
        assert TagAnims(name, rects, frames, tags).Err?;
      } else {
        var anims := r.value + [t.value];
        assert TagAnims(name, rects, frames, tags) == Ok(anims);
        forall i | 0 <= i < |tags|
          ensures !(tags[i].from <= tags[i].to && tags[i].to >= |frames|)
          ensures anims[i].name == name + "_" + tags[i].name
          ensures |anims[i].frames| == (if tags[i].from <= tags[i].to then tags[i].to - tags[i].from + 1 else 0)
          ensures forall k :: 0 <= k < |anims[i].frames| ==>
            anims[i].frames[k] == Frame(rects[tags[i].from + k], frames[tags[i].from + k].duration)
        {
          if i < n {
            assert anims[i] == r.value[i] && tags[i] == front[i];
          } else {
            assert anims[i] == t.value;
          }
        }
      }
    }
  }

  /** The example of a tag over frames 2 to 4 of five frames lasting 10, 20,
      30, 40 and 50 ms: three frames, of 30, 40 and 50 ms. */
  lemma TagExample(rects: seq<Sprite>, sizes: seq<Size>)
    requires |rects| == 5 && |sizes| == 5
    ensures var frames := seq(5, k requires 0 <= k < 5 => AseFrame(sizes[k], 10 * (k + 1)));
      TagAnims("walk", rects, frames, [Tag("left", 2, 4)])
        == Ok([Anim("walk_left", [Frame(rects[2], 30), Frame(rects[3], 40), Frame(rects[4], 50)])])
  {
    var frames := seq(5, k requires 0 <= k < 5 => AseFrame(sizes[k], 10 * (k + 1)));
    var tags := [Tag("left", 2, 4)];
    assert tags[..0] == [];
    assert frames[2].duration == 30 && frames[3].duration == 40 && frames[4].duration == 50;
    var expected := [Frame(rects[2], 30), Frame(rects[3], 40), Frame(rects[4], 50)];
    assert TagFrames(rects, frames, 2, 4) == expected;
    assert "walk" + "_" + "left" == "walk_left";
    assert TagAnim("walk", rects, frames, tags[0]) == Ok(Anim("walk_left", expected));
    assert TagAnims("walk", rects, frames, tags[..0]) == Ok([]);
    assert TagAnims("walk", rects, frames, tags) == Ok([] + [Anim("walk_left", expected)]);
    assert [] + [Anim("walk_left", expected)] == [Anim("walk_left", expected)];
  }

  // ---- classification ----

  /** The extension of the base name alone decides how a file is handled:
      any extension other than .png, .aseprite and .opus aborts the build,
      and every record is named by the base name without its extension. */
  lemma ClassifyExtension(path: string)
    ensures var (name, ext) := Names.SplitExt(Names.Basename(path));
      && (Classify(path) == Err(UnknownExtension(ext)) <==> ext != ".png" && ext != ".aseprite" && ext != ".opus")
      && (ext == ".aseprite" <==> Classify(path) == Ok(Aseprite(name)))
      && (ext == ".opus" <==> Classify(path) == Ok(Audio(name)))
      && (ext == ".png" ==> Classify(path) == PngKind(name))
  {
  }

  /** A .png is a sprite sheet exactly when its name holds one '@': the sheet
      is named by what precedes it, and what follows must hold one ','. A
      name with no '@' or with two or more is an ordinary image. */
  lemma PngKindResult(name: string)
    ensures Names.Count(name, '@') != 1 ==> PngKind(name) == Ok(Picture(name))
    ensures Names.Count(name, '@') == 1 ==>
      exists base, suffix ::
        && name == base + "@" + suffix && '@' !in base && '@' !in suffix
        && (PngKind(name) == Err(InvalidSheetDefinition) <==> Names.Count(suffix, ',') != 1)
        && (PngKind(name).Ok? ==> PngKind(name).value.Grid? && PngKind(name).value.name == base)
  {
    var parts := Names.SplitN(name, '@', 2);
    Names.SplitTwoIff(name, '@');
    if |parts| == 2 {
      var base, suffix := parts[0], parts[1];
      assert PngKind(name) == GridKind(base, suffix);
      assert |Names.SplitN(suffix, ',', 2)| != 2 <==> Names.Count(suffix, ',') != 1 by {
        Names.SplitTwoIff(suffix, ',');
      }
      assert name == base + "@" + suffix;
    }
  }

  /** A `.png` path is classified by its name without the extension. */
  lemma ClassifyPng(path: string)
    requires Names.SplitExt(Names.Basename(path)).1 == ".png"
    ensures var name := Names.SplitExt(Names.Basename(path)).0;
      && (Names.Count(name, '@') != 1 ==> Classify(path) == Ok(Picture(name)))
      && (Names.Count(name, '@') == 1 ==>
            exists base, suffix ::
              && name == base + "@" + suffix && '@' !in base && '@' !in suffix
              && (Classify(path) == Err(InvalidSheetDefinition) <==> Names.Count(suffix, ',') != 1)
              && (Classify(path).Ok? ==> Classify(path).value.Grid? && Classify(path).value.name == base))
  {
    var name := Names.SplitExt(Names.Basename(path)).0;
    assert Classify(path) == PngKind(name);
    PngKindResult(name);
  }


  lemma DecimalIsDigits(n: nat, c: char)
    requires !Names.IsDigit(c)
    ensures c !in Names.Decimal(n)
  {
  }

  /** The extension of a name that holds a character other than '.' (at
      `j`), before an extension `ext` with a single '.'. */
  lemma SplitExtOf(name: string, ext: string, j: nat)
    requires j < |name| && name[j] != '.'
    requires |ext| >= 1 && ext[0] == '.' && '.' !in ext[1..]
    ensures Names.SplitExt(name + ext) == (name, ext)
  {
    var p := name + ext;
    assert p[|name|] == '.';
    assert forall k :: |name| < k < |p| ==> p[k] == ext[1..][k - |name| - 1];
    assert Names.LastIndex(p, '.') == |name|;
    assert p[j] == name[j];
    assert p[..|name|] == name && p[|name|..] == ext;
  }

  /** Splitting `a + [sep] + b` in two gives `a` and `b` back. */
  lemma SplitTwoOf(a: string, sep: char, b: string)
    requires sep !in a && sep !in b
    ensures Names.SplitN(a + [sep] + b, sep, 2) == [a, b]
  {
    var s := a + [sep] + b;
    assert s[|a|] == sep;
    var i := Names.FirstIndex(s, sep);
    assert i == |a|;
    assert s[..i] == a && s[i + 1..] == b;
    assert sep !in s[i + 1..];
  }

  /** The grid counts are the decimal numbers between '@' and ".png"; the
      sheet is named by everything before the '@', dots included. */
  lemma ClassifyGridCounts(base: string, x: nat, y: nat)
    requires '@' !in base && '/' !in base
    ensures Classify(base + "@" + Names.Decimal(x) + "," + Names.Decimal(y) + ".png")
      == Ok(Grid(base, x, y))
  {
    var dx, dy := Names.Decimal(x), Names.Decimal(y);
    DecimalIsDigits(x, '@'); DecimalIsDigits(x, '.'); DecimalIsDigits(x, '/'); DecimalIsDigits(x, ',');
    DecimalIsDigits(y, '@'); DecimalIsDigits(y, '.'); DecimalIsDigits(y, '/'); DecimalIsDigits(y, ',');
    var suffix := dx + [','] + dy;
    var name := base + ['@'] + suffix;
    var path := name + ".png";
    assert path == base + "@" + dx + "," + dy + ".png";
    assert '/' !in path && '@' !in suffix && name[|base|] == '@';
    assert Classify(path) == PngKind(name) by {
      assert Names.LastIndex(path, '/') == -1;
      assert Names.Basename(path) == path;
      SplitExtOf(name, ".png", |base|);
    }
    assert PngKind(name) == GridKind(base, suffix) by {
      SplitTwoOf(base, '@', suffix);
    }
    assert GridKind(base, suffix) == Ok(Grid(base, x, y)) by {
      SplitTwoOf(dx, ',', dy);
      Names.ParseIntDecimal(x);
      Names.ParseIntDecimal(y);
    }
  }

  /** `hero.v2@4,3.png` is the sheet `hero.v2` of 4 columns and 3 rows. */
  lemma DottedSheetName()
    ensures Classify("hero.v2@4,3.png") == Ok(Grid("hero.v2", 4, 3))
  {
    var dx, dy := Names.Decimal(4), Names.Decimal(3);
    assert dx == "4" && dy == "3";
    assert "hero.v2@4,3.png" == "hero.v2" + "@" + dx + "," + dy + ".png";
    ClassifyGridCounts("hero.v2", 4, 3);
  }

  // ---- the main loop ----

  lemma StepFailsUnclassified(st: State, input: Input)
    requires Consistent(st) && Classify(input.path).Err?
    ensures Step(st, input).Err?
  {
  }

  lemma StepFailsOnTallImage(st: State, input: Input)
    requires Consistent(st) && Classify(input.path).Ok? && Classify(input.path).value.Picture?
    requires input.size.h > TxSize
    ensures Step(st, input).Err?
  {
  }

  /** What one input adds, by the extension of its base name: a `.opus` file
      appends one sound holding the file's bytes, an `.aseprite` file its
      animations, a `.png` without '@' one image; nothing else changes. */
  lemma StepByExtension(st: State, input: Input)
    requires Consistent(st)
    ensures var (name, ext) := Names.SplitExt(Names.Basename(input.path));
      && (ext == ".opus" ==> Step(st, input) == Ok(st.(sounds := st.sounds + [Sound(name, input.bytes)])))
      && (ext == ".aseprite" ==> Step(st, input) == AnimStep(st, name, input.frames, input.tags))
      && (ext == ".png" && Names.Count(name, '@') != 1 ==> Step(st, input) == ImageStep(st, name, input.size))
      && (ext == ".png" && Names.Count(name, '@') == 1 && Classify(input.path).Ok? ==>
            var k := Classify(input.path).value;
            k.Grid? && Step(st, input) == SheetStep(st, k.name, k.xCount, k.yCount, input.cell))
      && (Classify(input.path).Err? ==> Step(st, input) == Err(Classify(input.path).error))
  {
    var (name, ext) := Names.SplitExt(Names.Basename(input.path));
    ClassifyExtension(input.path);
    if ext == ".png" {
      PngKindResult(name);
    }
  }

  /** A run whose prefix failed has failed. */
  lemma RunFailsAfterPrefix(inputs: seq<Input>)
    requires inputs != [] && Run(inputs[..|inputs| - 1]).Err?
    ensures Run(inputs).Err?
  {
  }

  /** The first error ends the build: once a prefix of the inputs has failed,
      the rest is never looked at and the error is the build's error. */
  lemma {:induction false} RunStopsAtError(inputs: seq<Input>, n: nat)
    requires n <= |inputs| && Run(inputs[..n]).Err?
    ensures Run(inputs) == Run(inputs[..n])
  {
    if n < |inputs| {
      var prefix := inputs[..|inputs| - 1];
      assert prefix[..n] == inputs[..n];
      RunStopsAtError(prefix, n);
    } else {
      assert inputs[..n] == inputs;
    }
  }

  /** A run whose last step failed has failed. */
  lemma RunFailsAtStep(inputs: seq<Input>)
    requires inputs != [] && Run(inputs[..|inputs| - 1]).Ok?
    requires Step(Run(inputs[..|inputs| - 1]).value, inputs[|inputs| - 1]).Err?
    ensures Run(inputs).Err?
  {
  }

  /** `input` fails whatever the state the loop reaches it in. */
  ghost predicate Doomed(input: Input)
  {
    forall st :: Consistent(st) ==> Step(st, input).Err?
  }

  /** A doomed input `d` aborts the whole build, wherever it stands in the list. */
  lemma {:induction false} RunAbortsOnDoomed(inputs: seq<Input>, i: nat, d: Input)
    requires i < |inputs| && inputs[i] == d && Doomed(d)
    ensures Run(inputs).Err?
  {
    if i == |inputs| - 1 {
      RunAbortsOnDoomedLast(inputs, d);
    } else {
      var prefix := inputs[..|inputs| - 1];
      assert prefix[i] == d;
      RunAbortsOnDoomed(prefix, i, d);
      RunFailsAfterPrefix(inputs);
    }
  }

  lemma RunAbortsOnDoomedLast(inputs: seq<Input>, d: Input)
    requires inputs != [] && inputs[|inputs| - 1] == d && Doomed(d)
    ensures Run(inputs).Err?
  {
    if Run(inputs[..|inputs| - 1]).Ok? {
      RunFailsAtStep(inputs);
    } else {
      RunFailsAfterPrefix(inputs);
    }
  }

  /** A file the loop cannot classify (unknown extension, malformed sheet
      name, unparsable count) aborts the whole build. */
  lemma RunAbortsOnUnclassified(inputs: seq<Input>, i: nat)
    requires i < |inputs| && Classify(inputs[i].path).Err?
    ensures Run(inputs).Err?
  {
    forall st | Consistent(st) ensures Step(st, inputs[i]).Err? {
      StepFailsUnclassified(st, inputs[i]);
    }
    RunAbortsOnDoomed(inputs, i, inputs[i]);
  }

  /** An image taller than a page aborts the build, even as the first item
      on a fresh page. */
  lemma RunAbortsOnTallImage(inputs: seq<Input>, i: nat)
    requires i < |inputs| && Classify(inputs[i].path).Ok? && Classify(inputs[i].path).value.Picture?
    requires inputs[i].size.h > TxSize
    ensures Run(inputs).Err?
  {
    forall st | Consistent(st) ensures Step(st, inputs[i]).Err? {
      StepFailsOnTallImage(st, inputs[i]);
    }
    RunAbortsOnDoomed(inputs, i, inputs[i]);
  }
}
