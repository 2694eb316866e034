/** The relative offsets that `within_ortholinear(r)` visits, in visiting order:
    rows i = -r ..= r, within a row j = -r ..= r, the anchor (0, 0) left out. */
module Neighbourhood {

  /** (i, j) lies in the (2r+1) x (2r+1) box around the anchor and is not the anchor. */
  predicate IsNeighbourOffset(p: (int, int), r: int) {
    -r <= p.0 <= r && -r <= p.1 <= r && p != (0, 0)
  }

  /** Strict row-major (lexicographic) order on offsets: first i, then j. */
  predicate LexLess(p: (int, int), q: (int, int)) {
    p.0 < q.0 || (p.0 == q.0 && p.1 < q.1)
  }

  predicate StrictlyOrdered(s: seq<(int, int)>) {
    forall a, b :: 0 <= a < b < |s| ==> LexLess(s[a], s[b])
  }

  /** Offsets (i, j) for lo <= j < hi, in increasing j, skipping (0, 0). */
  function Row(i: int, lo: int, hi: int): seq<(int, int)>
    decreases hi - lo
  {
    if hi <= lo then []
    else Row(i, lo, hi - 1) + (if i != 0 || hi - 1 != 0 then [(i, hi - 1)] else [])
  }

  /** The rows lo <= i < hi, each over j in [-r, r], in increasing i. */
  function Rows(lo: int, hi: int, r: int): seq<(int, int)>
    decreases hi - lo
  {
    if hi <= lo then []
    else Rows(lo, hi - 1, r) + Row(hi - 1, -r, r + 1)
  }

  /** Every offset within_ortholinear(r) reads, in the order it reads them. */
  function NeighbourOffsets(r: int): (s: seq<(int, int)>)
    ensures forall k :: 0 <= k < |s| ==> IsNeighbourOffset(s[k], r)
  {
    RowsInBox(-r, r + 1, r);
    Rows(-r, r + 1, r)
  }

  lemma {:induction false} RowInBox(i: int, lo: int, hi: int)
    ensures forall k :: 0 <= k < |Row(i, lo, hi)| ==>
      Row(i, lo, hi)[k].0 == i && lo <= Row(i, lo, hi)[k].1 < hi && Row(i, lo, hi)[k] != (0, 0)
    decreases hi - lo
  {
    if lo < hi {
      RowInBox(i, lo, hi - 1);
    }
  }

  lemma {:induction false} RowsInBox(lo: int, hi: int, r: int)
    ensures forall k :: 0 <= k < |Rows(lo, hi, r)| ==>
      lo <= Rows(lo, hi, r)[k].0 < hi && -r <= Rows(lo, hi, r)[k].1 <= r && Rows(lo, hi, r)[k] != (0, 0)
    decreases hi - lo
  {
    if lo < hi {
      RowsInBox(lo, hi - 1, r);
      RowInBox(hi - 1, -r, r + 1);
    }
  }

  lemma {:induction false} RowHasAll(i: int, lo: int, hi: int, j: int)
    requires lo <= j < hi && (i, j) != (0, 0)
    ensures (i, j) in Row(i, lo, hi)
    decreases hi - lo
  {
    if j < hi - 1 {
      RowHasAll(i, lo, hi - 1, j);
    }
  }

  lemma {:induction false} RowsHasAll(lo: int, hi: int, r: int, p: (int, int))
    requires lo <= p.0 < hi && -r <= p.1 <= r && p != (0, 0)
    ensures p in Rows(lo, hi, r)
    decreases hi - lo
  {
    if p.0 < hi - 1 {
      RowsHasAll(lo, hi - 1, r, p);
    } else {
      RowHasAll(p.0, -r, r + 1, p.1);
    }
  }

  /** The offsets read are exactly the box around the anchor without the anchor. */
  lemma NeighbourOffsetsExact(r: int, p: (int, int))
    ensures p in NeighbourOffsets(r) <==> IsNeighbourOffset(p, r)
  {
    if IsNeighbourOffset(p, r) {
      RowsHasAll(-r, r + 1, r, p);
    }
  }

  lemma {:induction false} RowOrdered(i: int, lo: int, hi: int)
    ensures StrictlyOrdered(Row(i, lo, hi))
    decreases hi - lo
  {
    if lo < hi {
      RowOrdered(i, lo, hi - 1);
      RowInBox(i, lo, hi - 1);
    }
  }

  lemma {:induction false} RowsOrdered(lo: int, hi: int, r: int)
    ensures StrictlyOrdered(Rows(lo, hi, r))
    decreases hi - lo
  {
    if lo < hi {
      RowsOrdered(lo, hi - 1, r);
      RowOrdered(hi - 1, -r, r + 1);
      RowsInBox(lo, hi - 1, r);
      RowInBox(hi - 1, -r, r + 1);
      var s, t := Rows(lo, hi - 1, r), Row(hi - 1, -r, r + 1);
      forall a, b | 0 <= a < b < |s + t|
        ensures LexLess((s + t)[a], (s + t)[b])
      {
        if b < |s| {
          assert LexLess(s[a], s[b]);
        } else if a >= |s| {
          assert LexLess(t[a - |s|], t[b - |s|]);
        }
      }
    }
  }

  /** The offsets come in strict row-major order, so none is read twice. */
  lemma NeighbourOffsetsOrdered(r: int)
    ensures StrictlyOrdered(NeighbourOffsets(r))
  {
    RowsOrdered(-r, r + 1, r);
  }

  lemma {:induction false} RowLength(i: int, lo: int, hi: int)
    requires lo <= hi
    ensures |Row(i, lo, hi)| == hi - lo - (if i == 0 && lo <= 0 < hi then 1 else 0)
    decreases hi - lo
  {
    if lo < hi {
      RowLength(i, lo, hi - 1);
    }
  }

  lemma {:induction false} RowsLength(lo: int, hi: int, r: int)
    requires lo <= hi && r >= 0
    ensures |Rows(lo, hi, r)| == (hi - lo) * (2 * r + 1) - (if lo <= 0 < hi then 1 else 0)
    decreases hi - lo
  {
    if lo < hi {
      RowsLength(lo, hi - 1, r);
      RowLength(hi - 1, -r, r + 1);
      assert (hi - lo) * (2 * r + 1) == (hi - 1 - lo) * (2 * r + 1) + (2 * r + 1);
    }
  }

  /** A radius r >= 0 reads (2r+1)^2 - 1 offsets; a negative radius reads none. */
  lemma NeighbourCount(r: int)
    ensures r >= 0 ==> |NeighbourOffsets(r)| == (2 * r + 1) * (2 * r + 1) - 1
    ensures r <= 0 ==> NeighbourOffsets(r) == []
  {
    if r >= 0 {
      RowsLength(-r, r + 1, r);
    }
  }

  /** Radius 1 reads the eight Moore neighbours in this exact order. */
  lemma MooreOrder()
    ensures NeighbourOffsets(1) ==
      [(-1, -1), (-1, 0), (-1, 1), (0, -1), (0, 1), (1, -1), (1, 0), (1, 1)]
  {
    MooreRow(-1);
    MooreRow(1);
    assert Row(0, -1, 1) == [(0, -1)];
    assert Row(0, -1, 2) == [(0, -1), (0, 1)];
    assert Rows(-1, 0, 1) == Row(-1, -1, 2);
    assert Rows(-1, 1, 1) == Row(-1, -1, 2) + Row(0, -1, 2);
  }

  /** A row of radius 1 away from the anchor's row holds all three offsets. */
  lemma MooreRow(i: int)
    requires i != 0
    ensures Row(i, -1, 2) == [(i, -1), (i, 0), (i, 1)]
  {
    assert Row(i, -1, 0) == [(i, -1)];
    assert Row(i, -1, 1) == [(i, -1), (i, 0)];
  }
}
