/** How a frame lays its cells out in one buffer, and the order in which its
    iterator visits them.

    The frame stores cell (x, y) at offset y * height + x: the row stride is the
    HEIGHT, while the iterator (and so the stepping pass) bounds both x and y by
    the WIDTH. The lemmas below say exactly when the two agree. */
module Layout {
  import opened Toroidal

  /** Buffer offset of cell (x, y) in a frame of the given height. */
  function Offset(x: nat, y: nat, height: nat): nat {
    y * height + x
  }

  /** With x below the stride and y below the width, the offset lies in a
      buffer of width * height cells. */
  lemma OffsetInRange(x: nat, y: nat, width: nat, height: nat)
    requires x < height && y < width
    ensures Offset(x, y, height) < width * height
  {
    MulAtLeast(width - y, height);
    assert width * height == (width - y) * height + y * height;
  }

  /** A row at or past the width starts at or past the end of a buffer of
      width * height cells. */
  lemma OffsetPastRows(x: nat, y: nat, width: nat, height: nat)
    requires width <= y
    ensures Offset(x, y, height) >= width * height
  {
    assert y * height == (y - width) * height + width * height;
    if y > width && height > 0 {
      MulAtLeast(y - width, height);
    }
  }

  /** An offset gives back its coordinates by division by the stride. */
  lemma OffsetDecode(x: nat, y: nat, height: nat)
    requires x < height
    ensures Offset(x, y, height) % height == x
    ensures Offset(x, y, height) / height == y
  {
    DivModUnique(Offset(x, y, height), height, y, x);
  }

  /** Two coordinates below the stride share an offset only if they are equal. */
  lemma OffsetInjective(x1: nat, y1: nat, x2: nat, y2: nat, height: nat)
    requires x1 < height && x2 < height
    requires Offset(x1, y1, height) == Offset(x2, y2, height)
    ensures x1 == x2 && y1 == y2
  {
    OffsetDecode(x1, y1, height);
    OffsetDecode(x2, y2, height);
  }

  /** Every slot of a width * height buffer is the offset of one coordinate
      with x below the height and y below the width. */
  lemma OffsetOnto(k: nat, width: nat, height: nat)
    requires k < width * height
    ensures height > 0 && k % height < height && k / height < width
    ensures Offset(k % height, k / height, height) == k
  {
    if k / height >= width {
      MulAtLeast(k / height - width + 1, height);
    }
  }

  /** On a square frame, a coordinate below the side on each axis has a slot. */
  lemma SquareOffsetInRange(x: nat, y: nat, width: nat, height: nat)
    requires x < width && y < height
    ensures width == height ==> Offset(x, y, height) < width * height
  {
    if width == height {
      OffsetInRange(x, y, width, height);
    }
  }

  /** For a square frame of side n the layout is a bijection from
      [0, n) x [0, n) onto the buffer slots [0, n * n): every coordinate has a
      slot (SquareLayoutInRange), distinct coordinates have distinct slots
      (SquareLayoutInjective), and every slot belongs to a coordinate
      (SquareLayoutOnto). */
  lemma SquareLayoutInRange(n: nat)
    ensures forall x: nat, y: nat :: x < n && y < n ==> Offset(x, y, n) < n * n
  {
    forall x: nat, y: nat | x < n && y < n
      ensures Offset(x, y, n) < n * n
    {
      OffsetInRange(x, y, n, n);
    }
  }

  lemma SquareLayoutInjective(n: nat)
    ensures forall x1: nat, y1: nat, x2: nat, y2: nat ::
      (x1 < n && x2 < n && Offset(x1, y1, n) == Offset(x2, y2, n)) ==> x1 == x2 && y1 == y2
  {
    forall x1: nat, y1: nat, x2: nat, y2: nat | x1 < n && x2 < n && Offset(x1, y1, n) == Offset(x2, y2, n)
      ensures x1 == x2 && y1 == y2
    {
      OffsetInjective(x1, y1, x2, y2, n);
    }
  }

  lemma SquareLayoutOnto(n: nat)
    ensures forall k: nat :: 0 < n && k < n * n ==> k % n < n && k / n < n && Offset(k % n, k / n, n) == k
  {
    forall k: nat | 0 < n && k < n * n
      ensures k % n < n && k / n < n && Offset(k % n, k / n, n) == k
    {
      OffsetOnto(k, n, n);
    }
  }

  /** When the frame is wider than it is high (1 < height < width), the two
      distinct in-frame coordinates (height, 0) and (0, 1) share one buffer slot,
      so a write to one is read back through the other. */
  lemma WideFrameAliases(width: nat, height: nat)
    requires 1 < height < width
    ensures Offset(height, 0, height) == Offset(0, 1, height) < width * height
  {
    OffsetInRange(0, 1, width, height);
  }

  /** The iterator's move from one coordinate to the next: along the row while
      x + 1 is below the width, otherwise to the start of the next row. */
  function Successor(p: (nat, nat), width: nat): (s: (nat, nat))
    ensures Before(p, s)
    ensures p.0 < width ==> s.0 < width
  {
    if p.0 + 1 < width then (p.0 + 1, p.1) else (0, p.1 + 1)
  }

  /** Where the iterator stands after yielding k items from (0, 0). */
  function Cursor(k: nat, width: nat): (nat, nat) {
    if k == 0 then (0, 0) else Successor(Cursor(k - 1, width), width)
  }

  /** p comes strictly before the cursor c in row-major order. */
  predicate Before(p: (nat, nat), c: (nat, nat)) {
    p.1 < c.1 || (p.1 == c.1 && p.0 < c.0)
  }

  /** The cursor runs through the frame in row-major order: after k items it
      stands at (k % width, k / width). */
  lemma {:induction false} CursorRowMajor(k: nat, width: nat)
    requires width > 0
    ensures Cursor(k, width) == (k % width, k / width)
  {
    if k == 0 {
      DivModUnique(0, width, 0, 0);
    } else {
      CursorRowMajor(k - 1, width);
      SuccessorRowMajor(k - 1, width);
    }
  }

  /** One move of the iterator takes item k's coordinate to item k + 1's. */
  lemma SuccessorRowMajor(k: nat, width: nat)
    requires width > 0
    ensures Successor((k % width, k / width), width) == ((k + 1) % width, (k + 1) / width)
  {
    var (x, y) := (k % width, k / width);
    assert k + 1 == y * width + x + 1 by {
      assert k == k / width * width + k % width;
    }
    if x + 1 < width {
      DivModUnique(k + 1, width, y, x + 1);
    } else {
      assert k + 1 == (y + 1) * width + 0;
      DivModUnique(k + 1, width, y + 1, 0);
    }
  }

  /** The iterator yields its k-th item (it still has y below the width) exactly
      when k < width * width: so nothing for width 0 and width * width items otherwise. */
  lemma {:induction false} CursorYields(k: nat, width: nat)
    ensures Cursor(k, width).1 < width <==> k < width * width
  {
    if width > 0 {
      CursorRowMajor(k, width);
      if k < width * width {
        OffsetOnto(k, width, width);
      } else {
        if k / width < width {
          MulAtLeast(width - k / width, width);
        }
      }
    }
  }

  /** Distinct yields are distinct coordinates: the iterator never repeats one. */
  lemma {:induction false} CursorDistinct(k1: nat, k2: nat, width: nat)
    requires k1 < width * width && k2 < width * width && k1 != k2
    ensures Cursor(k1, width) != Cursor(k2, width)
  {
    CursorRowMajor(k1, width);
    CursorRowMajor(k2, width);
    OffsetOnto(k1, width, width);
    OffsetOnto(k2, width, width);
  }

  /** Cells visited before cursor Successor(c) are those visited before c plus c
      itself, for any x below the width. */
  lemma SuccessorExtendsBefore(p: (nat, nat), c: (nat, nat), width: nat)
    requires c.0 < width && p.0 < width
    ensures Before(p, Successor(c, width)) <==> Before(p, c) || p == c
  {
  }
}
