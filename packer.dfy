/** The shelf packer of `Atlas.pack` and the page-list policy of
    `atlas_pack`: where each image lands on which 512x512 texture page. */
module Packer {
  import opened Common

  /** Side of every texture page (`Atlas.TX_SIZE`). */
  const TxSize: nat := 512

  /** A rectangle placed on a page: `(x, y, width, height)`. */
  datatype Box = Box(x: nat, y: nat, w: nat, h: nat)

  /** A placement as `atlas_pack` returns it: page index and rectangle. */
  datatype Sprite = Sprite(page: nat, box: Box)

  /** The packing state of one page: the cursor `(x, y)` and the bottom of
      the tallest item placed so far (`largestY`). */
  datatype Cursor = Cursor(x: nat, y: nat, largestY: nat)

  /** The state of a new page. */
  const Empty := Cursor(0, 0, 0)

  /** What every reachable cursor satisfies. `x` has no bound: an item wider
      than the page is placed at x = 0 and moves the cursor past the edge. */
  predicate Wf(c: Cursor)
  {
    c.y <= c.largestY <= TxSize
  }

  /** The cursor after the wrap test: a new row starts at `largestY` when
      the item does not fit in what is left of the current row. */
  function Wrap(c: Cursor, w: nat): Cursor
  {
    if c.x + w > TxSize then Cursor(0, c.largestY, c.largestY) else c
  }

  /** One call of `Atlas.pack` on an item of `w` by `h`: the new cursor, and
      the rectangle, or `None` when the item does not fit below the current
      row. A rejected item still leaves the cursor wrapped. */
  function Place(c: Cursor, w: nat, h: nat): (r: (Cursor, Option<Box>))
    requires Wf(c)
    ensures Wf(r.0)
    // rejected exactly when it would overhang the bottom edge after the wrap
    ensures r.1.None? <==> Wrap(c, w).y + h > TxSize
    ensures r.1.None? ==> r.0 == Wrap(c, w) && r.0.largestY == c.largestY
    // placed at the cursor, which moved to a new row only if the row was too full
    ensures r.1.Some? ==> r.1.value == Box(Wrap(c, w).x, Wrap(c, w).y, w, h)
    ensures r.1.Some? ==> r.1.value.y + h <= TxSize
    ensures r.1.Some? ==> (r.1.value.x + w <= TxSize || (r.1.value.x == 0 && w > TxSize))
    ensures r.1.Some? ==> r.0.x == r.1.value.x + w && r.0.y == r.1.value.y
    // the shelf bottom only grows, to the bottom of the new item
    ensures r.1.Some? ==> r.0.largestY == (if c.largestY < r.1.value.y + h then r.1.value.y + h else c.largestY)
    ensures c.largestY <= r.0.largestY
  {
    var s := Wrap(c, w);
    if s.y + h > TxSize then (s, None)
    else
      var largest := if s.y + h > s.largestY then s.y + h else s.largestY;
      (Cursor(s.x + w, s.y, largest), Some(Box(s.x, s.y, w, h)))
  }

  // ---- what the shelf discipline guarantees about everything placed ----

  /** `b` lies inside the page, except to the right for an over-wide item
      placed at the left edge. */
  predicate InPage(b: Box)
  {
    b.y + b.h <= TxSize && (b.x + b.w <= TxSize || (b.x == 0 && b.w > TxSize))
  }

  /** `a` and `b` share no pixel. */
  predicate Apart(a: Box, b: Box)
  {
    a.x + a.w <= b.x || b.x + b.w <= a.x || a.y + a.h <= b.y || b.y + b.h <= a.y
  }

  /** `b` is behind the cursor: above the current row, or in it and to the left. */
  predicate Behind(b: Box, c: Cursor)
  {
    b.y + b.h <= c.largestY && (b.y + b.h <= c.y || (b.y == c.y && b.x + b.w <= c.x))
  }

  /** The invariant of a page that has had `placed` pasted on it, in order. */
  predicate Shelved(c: Cursor, placed: seq<Box>)
  {
    && Wf(c)
    && (forall i :: 0 <= i < |placed| ==> InPage(placed[i]) && Behind(placed[i], c))
    && (forall i, j :: 0 <= i < j < |placed| ==> Apart(placed[i], placed[j]))
  }

  /** Placing keeps the invariant: the new rectangle is inside the page and
      overlaps nothing pasted before. */
  lemma PackKeepsShelved(c: Cursor, placed: seq<Box>, w: nat, h: nat)
    requires Shelved(c, placed)
    ensures var (c', r) := Place(c, w, h);
      Shelved(c', if r.Some? then placed + [r.value] else placed)
  {
    var (c', r) := Place(c, w, h);
    var s := Wrap(c, w);
    assert forall i :: 0 <= i < |placed| ==> Behind(placed[i], s);
    if r.Some? {
      var b := r.value;
      var placed' := placed + [b];
      forall i | 0 <= i < |placed|
        ensures Apart(placed'[i], b) && Behind(placed'[i], c')
      {
        assert placed'[i] == placed[i];
      }
    }
  }

  // ---- atlas_pack: the list of pages ----

  /** The pages `atlas_pack` works on: the first page is created on demand. */
  function Opened(pages: seq<Cursor>): (r: seq<Cursor>)
    ensures r != [] && (pages != [] ==> r == pages)
  {
    if pages == [] then [Empty] else pages
  }

  /** `atlas_pack` on the page cursors `pages`: create the first page when
      there is none, try the last page, and on refusal append a fresh page
      and try once more; a second refusal aborts the build. */
  function PackOnto(pages: seq<Cursor>, w: nat, h: nat): (r: (seq<Cursor>, Result<Sprite>))
    requires forall i :: 0 <= i < |pages| ==> Wf(pages[i])
    ensures forall i :: 0 <= i < |r.0| ==> Wf(r.0[i])
    // the build aborts exactly for an item taller than a page; an over-wide item is never refused
    ensures r.1.Err? <==> h > TxSize
    ensures r.1.Err? ==> r.1.error == AtlasPackFailed
    // the item goes to the last page, and at most one page is added besides the first one
    ensures r.1.Ok? ==> r.1.value.page == |r.0| - 1
    ensures r.1.Ok? ==> |r.0| == (if pages == [] then 1 else |pages|) || |r.0| == |pages| + 1
    ensures r.1.Ok? ==> r.1.value.box.w == w && r.1.value.box.h == h && InPage(r.1.value.box)
    // pages are never removed
    ensures |pages| <= |r.0|
  {
    var ps := Opened(pages);
    var last := |ps| - 1;
    var (c, res) := Place(ps[last], w, h);
    var ps' := ps[last := c];
    if res.Some? then (ps', Ok(Sprite(last, res.value)))
    else
      var (c2, res2) := Place(Empty, w, h);
      var ps2 := ps' + [c2];
      if res2.Some? then (ps2, Ok(Sprite(last + 1, res2.value)))
      else (ps2, Err(AtlasPackFailed))
  }

  /** An item the last page accepts stays on that page and no page is
      opened; a refused item opens exactly one page, and the page that
      refused it keeps its wrapped cursor. */
  lemma PackOntoLastFirst(pages: seq<Cursor>, w: nat, h: nat)
    requires forall i :: 0 <= i < |pages| ==> Wf(pages[i])
    ensures var ps := Opened(pages); var P := Place(ps[|ps| - 1], w, h);
      && (P.1.Some? ==> PackOnto(pages, w, h) == (ps[|ps| - 1 := P.0], Ok(Sprite(|ps| - 1, P.1.value))))
      && (P.1.None? && PackOnto(pages, w, h).1.Ok? ==>
            |PackOnto(pages, w, h).0| == |ps| + 1 && PackOnto(pages, w, h).0[..|ps|] == ps[|ps| - 1 := P.0])
  {
  }

  /** Only the last page and a new one change: every earlier page keeps its cursor. */
  lemma PackOntoKeepsEarlier(pages: seq<Cursor>, w: nat, h: nat)
    requires forall i :: 0 <= i < |pages| ==> Wf(pages[i])
    ensures forall i :: 0 <= i < |pages| - 1 ==> PackOnto(pages, w, h).0[i] == pages[i]
  {
  }

  // ---- the page object ----

  /** One texture page (`class Atlas`). Its pixels are not modelled; the
      ghost list `placed` records every rectangle pasted onto it. */
  class Atlas {
    var x: nat
    var y: nat
    var largestY: nat
    ghost var placed: seq<Box>

    function Cur(): Cursor
      reads this
    {
      Cursor(x, y, largestY)
    }

    ghost predicate Valid()
      reads this
    {
      Shelved(Cur(), placed)
    }

    constructor ()
      ensures Valid() && Cur() == Empty && placed == []
    {
      x, y, largestY := 0, 0, 0;
      placed := [];
    }

    /** Places an item of `w` by `h`; see `Place`, whose
        invariant `Shelved` this keeps. */
    method Pack(w: nat, h: nat) returns (r: Option<Box>)
      requires Valid()
      modifies this
      ensures Valid()
      ensures (Cur(), r) == Place(old(Cur()), w, h)
      ensures placed == old(placed) + (if r.Some? then [r.value] else [])
    {
      PackKeepsShelved(Cur(), placed, w, h);
      if x + w > TxSize {
        x := 0;
        y := largestY;
      }
      if y + h > TxSize {
        return None;
      }
      if y + h > largestY {
        largestY := y + h;
      }
      r := Some(Box(x, y, w, h));
      placed := placed + [r.value];
      x := x + w;
    }
  }
}
