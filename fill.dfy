/** How many pages a run of identical items fills. An item of `w` by `h`
    fits `TxSize / w` times in a row and `TxSize / h` rows fit on a page, so
    a page holds `k = (TxSize / w) * (TxSize / h)` of them, and `n` of them
    packed from no page fill exactly `ceil(n / k)` pages. */
module Fill {
  import opened Common
  import opened Packer
  import opened Ingest
  import IngestLemmas

  /** `n` copies of the item `z`. */
  function Copies(z: Size, n: nat): seq<Size>
  {
    seq(n, _ => z)
  }

  lemma MulLe(a: nat, b: nat, m: nat)
    requires a <= b
    ensures a * m <= b * m
  {
    assert b * m == a * m + (b - a) * m;
  }

  /** `q = TxSize / d` items of size `d` fit in a page side, `q + 1` do not. */
  lemma PerSide(d: nat)
    requires 1 <= d <= TxSize
    ensures 1 <= TxSize / d && (TxSize / d) * d <= TxSize < (TxSize / d + 1) * d
  {
    var q, r := TxSize / d, TxSize % d;
    assert TxSize == q * d + r && r < d;
    assert (q + 1) * d == q * d + d;
  }

  /** The cursor of a page whose last item went to column `i` of row `j`. */
  function CursorAfter(w: nat, h: nat, i: nat, j: nat): Cursor
  {
    Cursor((i + 1) * w, j * h, (j + 1) * h)
  }

  /** Packing one more item: the next column of the row, else the first
      column of the next row, else the page refuses it. */
  lemma NextSlot(w: nat, h: nat, i: nat, j: nat)
    requires 1 <= w <= TxSize && 1 <= h <= TxSize
    requires i < TxSize / w && j < TxSize / h
    ensures Wf(CursorAfter(w, h, i, j))
    ensures var p := Place(CursorAfter(w, h, i, j), w, h);
      && (i + 1 < TxSize / w ==> p == (CursorAfter(w, h, i + 1, j), Some(Box((i + 1) * w, j * h, w, h))))
      && (i + 1 == TxSize / w && j + 1 < TxSize / h ==> p == (CursorAfter(w, h, 0, j + 1), Some(Box(0, (j + 1) * h, w, h))))
      && (i + 1 == TxSize / w && j + 1 == TxSize / h ==> p.1.None?)
  {
    var cols, rows := TxSize / w, TxSize / h;
    PerSide(w);
    PerSide(h);
    MulLe(j + 1, rows, h);
    assert (j + 1) * h == j * h + h;
    assert (i + 2) * w == (i + 1) * w + w;
    assert (j + 2) * h == (j + 1) * h + h;
    if i + 1 < cols {
      MulLe(i + 2, cols, w);
    } else if j + 1 < rows {
      MulLe(j + 2, rows, h);
      assert 0 + w == (0 + 1) * w;
    }
  }

  /** The first item on a fresh page goes to its top-left corner. */
  lemma FirstSlot(w: nat, h: nat)
    requires 1 <= w <= TxSize && 1 <= h <= TxSize
    ensures Place(Empty, w, h) == (CursorAfter(w, h, 0, 0), Some(Box(0, 0, w, h)))
  {
  }

  /** Where the `n`-th item (from 1) lands: on page `P` (counting from 1), in
      column `i` of row `j`. */
  function Slot(cols: nat, rows: nat, n: nat): (nat, nat, nat)
    requires n >= 1
  {
    if n == 1 then (1, 0, 0) else Next(cols, rows, Slot(cols, rows, n - 1))
  }

  /** The slot after column `i` of row `j` on page `p`: the next column, else
      the first column of the next row, else the top-left of a new page. */
  function Next(cols: nat, rows: nat, s: (nat, nat, nat)): (nat, nat, nat)
  {
    var (p, i, j) := s;
    if i + 1 < cols then (p, i + 1, j)
    else if j + 1 < rows then (p, 0, j + 1)
    else (p + 1, 0, 0)
  }

  /** The slot is a column and row of the page, on page 1 or later. */
  lemma {:induction false} SlotInRange(cols: nat, rows: nat, n: nat)
    requires cols >= 1 && rows >= 1 && n >= 1
    ensures var (p, i, j) := Slot(cols, rows, n);
      p >= 1 && i < cols && j < rows
  {
    if n > 1 {
      SlotInRange(cols, rows, n - 1);
    }
  }

  /** The slot of every copy of an item of `w` by `h` lies on its page. */
  lemma SlotFits(w: nat, h: nat, n: nat)
    requires 1 <= w <= TxSize && 1 <= h <= TxSize && n >= 1
    ensures var (p, i, j) := Slot(TxSize / w, TxSize / h, n);
      p >= 1 && i < TxSize / w && j < TxSize / h
  {
    PerSide(w);
    PerSide(h);
    SlotInRange(TxSize / w, TxSize / h, n);
  }

  /** Every page before the last is full: `n` counts `k` items per earlier page
      and the items of the last page, row by row. */
  lemma {:induction false} SlotCount(cols: nat, rows: nat, n: nat)
    requires cols >= 1 && rows >= 1 && n >= 1
    ensures var (p, i, j) := Slot(cols, rows, n);
      p >= 1 && i < cols && j < rows && n == (p - 1) * (cols * rows) + j * cols + i + 1
  {
    if n > 1 {
      SlotCount(cols, rows, n - 1);
      var (p, i, j) := Slot(cols, rows, n - 1);
      assert Slot(cols, rows, n) == Next(cols, rows, (p, i, j));
      var k := cols * rows;
      if i + 1 < cols {
      } else if j + 1 < rows {
        assert (j + 1) * cols == j * cols + cols;
      } else {
        assert (rows - 1) * cols + cols == k;
        assert p * k == (p - 1) * k + k;
      }
    }
  }

  /** `atlas_pack` on `p` pages whose last one has its cursor after column
      `i` of row `j`: the item goes to the next slot, on the same page or on a
      new one. */
  lemma PackOntoAfter(ps: seq<Cursor>, w: nat, h: nat, p: nat, i: nat, j: nat)
    requires 1 <= w <= TxSize && 1 <= h <= TxSize
    requires i < TxSize / w && j < TxSize / h
    requires PagesWf(ps) && |ps| == p >= 1 && ps[p - 1] == CursorAfter(w, h, i, j)
    ensures var (ps', r) := PackOnto(ps, w, h);
      var (p', i', j') := Next(TxSize / w, TxSize / h, (p, i, j));
      r.Ok? && |ps'| == p' && ps'[p' - 1] == CursorAfter(w, h, i', j')
  {
    NextSlot(w, h, i, j);
    FirstSlot(w, h);
    assert Opened(ps) == ps;
  }

  lemma CopiesSnoc(z: Size, n: nat)
    requires n >= 1
    ensures Copies(z, n) == Copies(z, n - 1) + [z]
  {
  }

  /** Packing one more copy packs it onto the pages the others left. */
  lemma PackOneMore(z: Size, n: nat)
    requires n >= 1
    ensures var before := PackAll([], Copies(z, n - 1));
      before.Ok? && PackOnto(before.value.0, z.w, z.h).1.Ok? ==>
        var r := PackAll([], Copies(z, n));
        r.Ok? && r.value.0 == PackOnto(before.value.0, z.w, z.h).0
  {
    CopiesSnoc(z, n);
    IngestLemmas.PackAllSnoc([], Copies(z, n - 1), z);
  }

  /** Packing `n` copies of `w` by `h` from no page succeeds and leaves the
      pages of slot `s`: `s.0` pages, the last with its cursor after column
      `s.1` of row `s.2`. */
  predicate Reached(w: nat, h: nat, n: nat, s: (nat, nat, nat))
  {
    var r := PackAll([], Copies(Size(w, h), n));
    r.Ok? && |r.value.0| == s.0 && s.0 >= 1 && r.value.0[s.0 - 1] == CursorAfter(w, h, s.1, s.2)
  }

  /** The place of the `n`-th copy follows from the place of the one before. */
  lemma PackCopyStep(w: nat, h: nat, n: nat, s: (nat, nat, nat))
    requires 1 <= w <= TxSize && 1 <= h <= TxSize && n >= 2
    requires s.1 < TxSize / w && s.2 < TxSize / h
    requires Reached(w, h, n - 1, s)
    ensures Reached(w, h, n, Next(TxSize / w, TxSize / h, s))
  {
    var z := Size(w, h);
    var ps := PackAll([], Copies(z, n - 1)).value.0;
    PackOntoAfter(ps, w, h, s.0, s.1, s.2);
    PackOneMore(z, n);
  }

  /** The first copy opens the first page at its top-left corner. */
  lemma PackOneCopy(w: nat, h: nat)
    requires 1 <= w <= TxSize && 1 <= h <= TxSize
    ensures var r := PackAll([], Copies(Size(w, h), 1));
      r.Ok? && |r.value.0| == 1 && r.value.0[0] == CursorAfter(w, h, 0, 0)
  {
    var z := Size(w, h);
    CopiesSnoc(z, 1);
    assert Copies(z, 0) == [];
    IngestLemmas.PackAllSnoc([], [], z);
    FirstSlot(w, h);
  }

  /** Packing `n >= 1` copies from no page gives `P` pages, the last one with
      its cursor after column `i` of row `j`, where `(P, i, j) = Slot(n)`. */
  lemma {:induction false} PackCopies(w: nat, h: nat, n: nat)
    requires 1 <= w <= TxSize && 1 <= h <= TxSize && n >= 1
    ensures Reached(w, h, n, Slot(TxSize / w, TxSize / h, n))
  {
    if n == 1 {
      PackOneCopy(w, h);
    } else {
      var s := Slot(TxSize / w, TxSize / h, n - 1);
      PackCopies(w, h, n - 1);
      SlotFits(w, h, n - 1);
      PackCopyStep(w, h, n, s);
    }
  }

  /** The `n`-th item lies on page `p` exactly when `n` is in `((p - 1) * k, p * k]`. */
  lemma SlotBounds(cols: nat, rows: nat, n: nat, p: nat, i: nat, j: nat)
    requires cols >= 1 && rows >= 1 && p >= 1 && i < cols && j < rows
    requires n == (p - 1) * (cols * rows) + j * cols + i + 1
    ensures (p - 1) * (cols * rows) < n <= p * (cols * rows)
  {
    var k := cols * rows;
    MulLe(j, rows - 1, cols);
    assert (rows - 1) * cols + cols == k;
    assert p * k == (p - 1) * k + k;
  }

  /** `a` lies in `((p - 1) * k, p * k]` exactly when `p = ceil(a / k)`. */
  lemma CeilOfBounds(a: nat, k: nat, p: nat)
    requires k >= 1 && p >= 1 && (p - 1) * k < a <= p * k
    ensures (a + k - 1) / k == p
  {
    var b := a + k - 1;
    assert p * k == (p - 1) * k + k;
    var rem := b - p * k;
    assert 0 <= rem < k;
    IngestLemmas.DivModOfRow(p, rem, k);
  }

  /** `n` copies of one item of `w` by `h`, packed from no page, fill exactly
      `ceil(n / k)` pages, where a page holds `k = (512 / w) * (512 / h)` of them:
      the packer never leaves a page before it is full and never fails. */
  lemma PagesForCopies(w: nat, h: nat, n: nat)
    requires 1 <= w <= TxSize && 1 <= h <= TxSize
    ensures var k := (TxSize / w) * (TxSize / h);
      var r := PackAll([], Copies(Size(w, h), n));
      && k >= 1 && r.Ok? && |r.value.0| == (n + k - 1) / k
  {
    var cols, rows := TxSize / w, TxSize / h;
    PerSide(w);
    PerSide(h);
    var k := cols * rows;
    MulLe(1, cols, rows);
    if n == 0 {
      assert Copies(Size(w, h), 0) == [];
      assert (k - 1) / k == 0;
    } else {
      PackCopies(w, h, n);
      SlotCount(cols, rows, n);
      var (p, i, j) := Slot(cols, rows, n);
      SlotBounds(cols, rows, n, p, i, j);
      CeilOfBounds(n, k, p);
    }
  }

  /** Items more than half a page wide and high take a page each. */
  lemma OnePerPage(w: nat, h: nat, n: nat)
    requires TxSize / 2 < w <= TxSize && TxSize / 2 < h <= TxSize
    ensures var r := PackAll([], Copies(Size(w, h), n));
      r.Ok? && |r.value.0| == n
  {
    PerSide(w);
    PerSide(h);
    assert TxSize / w == 1 && TxSize / h == 1;
    PagesForCopies(w, h, n);
  }

  /** With mixed sizes a page can be left with free space: after a 10 by 300
      item, a 510 by 300 item wraps below it, overhangs the bottom edge and
      goes to a second page, although 502 by 300 is free beside the first. */
  lemma MixedSizesGap()
    ensures var r := PackAll([], [Size(10, 300), Size(510, 300)]);
      r.Ok? && |r.value.0| == 2 && r.value.1[1].page == 1
  {
    assert [Size(10, 300), Size(510, 300)][..1] == [Size(10, 300)];
    assert [Size(10, 300)][..0] == [];
  }
}
