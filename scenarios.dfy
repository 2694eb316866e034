/** The unit tests that accompany frame.rs (frame_init, frame_mut, frame_next),
    and the synchronous-update property on a rule that reads a neighbour. */
module Scenarios {
  import opened Layout
  import opened Simulation

  /** The rule of the frame_next test: one more than the cell's own value. The
      source closure panics where get(0, 0) would; this total rule yields 0 there,
      but on every Square that next_frame builds the read succeeds. */
  function Increment(sq: Square<int>): (v: int)
    ensures sq.CanGet(0, 0) ==> v == sq.Get(0, 0) + 1
    ensures sq.Visited() ==>
      sq.CanGet(0, 0) && Offset(sq.point.0, sq.point.1, sq.frame.height) < |sq.frame.data| &&
      v == sq.frame.Get(sq.point.0, sq.point.1) + 1
  {
    SquareGetAnchor(sq);
    if sq.CanGet(0, 0) then sq.Get(0, 0) + 1 else 0
  }

  /** A rule that reads the left neighbour (wrapping at the left edge) and adds one. */
  function LeftPlusOne(sq: Square<int>): int {
    if sq.CanGet(-1, 0) then sq.Get(-1, 0) + 1 else 0
  }

  /** Advancing a 2x2 frame of defaults with Increment gives a frame of ones. */
  lemma IncrementAllDefault()
    ensures Advance(Snapshot([0, 0, 0, 0], 2, 2), Increment) == Snapshot([1, 1, 1, 1], 2, 2)
  {
    var s := Snapshot([0, 0, 0, 0], 2, 2);
    var n := Advance(s, Increment);
    IncrementCell(s, 0, 0);
    IncrementCell(s, 1, 0);
    IncrementCell(s, 0, 1);
    IncrementCell(s, 1, 1);
    FourCells(n.data, 1, 1, 1, 1);
  }

  /** At every cell the stepping pass visits, Increment makes it one more than
      its old value. */
  lemma IncrementCell(s: Snapshot<int>, x: nat, y: nat)
    requires s.Valid() && s.width <= s.height && x < s.width && y < s.width
    ensures Offset(x, y, s.height) < |s.data|
    ensures Advance(s, Increment).Get(x, y) == s.Get(x, y) + 1
  {
    AdvanceVisited(s, Increment, x, y);
  }

  /** Every cell reads its left neighbour from the frame BEFORE the step: cell
      (1, 0) becomes a + 1 (the old value of (0, 0)), not the new value of (0, 0)
      plus one, as an in-place left-to-right update would give. Cell (0, 0) wraps
      around to read (1, 0). */
  lemma LeftPlusOneReadsSnapshot(a: int, b: int, c: int, d: int)
    ensures Advance(Snapshot([a, b, c, d], 2, 2), LeftPlusOne) == Snapshot([b + 1, a + 1, d + 1, c + 1], 2, 2)
  {
    var s := Snapshot([a, b, c, d], 2, 2);
    var n := Advance(s, LeftPlusOne);
    LeftNeighbour(s, 0, 0);
    LeftNeighbour(s, 1, 0);
    LeftNeighbour(s, 0, 1);
    LeftNeighbour(s, 1, 1);
    FourCells(n.data, b + 1, a + 1, d + 1, c + 1);
  }

  /** A sequence of four is determined by its four cells. */
  lemma FourCells(q: seq<int>, e0: int, e1: int, e2: int, e3: int)
    requires |q| == 4 && q[0] == e0 && q[1] == e1 && q[2] == e2 && q[3] == e3
    ensures q == [e0, e1, e2, e3]
  {
  }

  /** In a 2x2 frame, LeftPlusOne at (x, y) is one more than the old (1 - x, y). */
  lemma LeftNeighbour(s: Snapshot<int>, x: nat, y: nat)
    requires s.width == s.height == 2 && |s.data| == 4 && x < 2 && y < 2
    ensures Offset(x, y, 2) < 4 && Offset(1 - x, y, 2) < 4
    ensures Advance(s, LeftPlusOne).data[Offset(x, y, 2)] == s.data[Offset(1 - x, y, 2)] + 1
  {
    AdvanceVisited(s, LeftPlusOne, x, y);
    var sq := Square(s, (x, y));
    assert sq.CanGet(-1, 0);
    assert (x + -1) % 2 == 1 - x && (y + 0) % 2 == y;
  }

  /** frame_init: a new 10x10 frame has those dimensions and default cells. */
  method FrameInit() returns (frame: Frame<int>)
    ensures frame.Valid() && frame.Width() == 10 && frame.Height() == 10
    ensures forall x: nat, y: nat :: x < 9 && y < 9 ==> Offset(x, y, 10) < frame.data.Length && frame.Get(x, y) == 0
  {
    frame := new Frame<int>(10, 10, 0);
    forall x: nat, y: nat | x < 9 && y < 9
      ensures Offset(x, y, 10) < frame.data.Length && frame.Get(x, y) == 0
    {
      OffsetInRange(x, y, 10, 10);
    }
  }

  /** frame_mut: writing 1 through get_mut(1, 1) is read back by get(1, 1). */
  method FrameMut() returns (frame: Frame<int>)
    ensures frame.Valid() && Offset(1, 1, frame.height) < frame.data.Length
    ensures frame.Get(1, 1) == 1
  {
    frame := new Frame<int>(2, 2, 0);
    frame.GetMut(1, 1, 1);
  }

  /** frame_next: stepping a 2x2 frame of defaults with Increment equals setting
      all four cells of the original to default + 1; the original is untouched
      by the step. */
  method FrameNext() returns (frame1: Frame<int>, frame2: Frame<int>)
    ensures frame1.View() == frame2.View()
  {
    frame1 := new Frame<int>(2, 2, 0);
    assert frame1.View() == Snapshot([0, 0, 0, 0], 2, 2);
    frame2 := frame1.NextFrame(Increment);
    IncrementAllDefault();
    assert frame1.View() == Snapshot([0, 0, 0, 0], 2, 2);
    frame1.GetMut(0, 0, 1);
    frame1.GetMut(0, 1, 1);
    frame1.GetMut(1, 0, 1);
    assert frame1.data[0] == 1 && frame1.data[1] == 1 && frame1.data[2] == 1;
    frame1.GetMut(1, 1, 1);
    assert frame1.data[..] == [1, 1, 1, 1];
  }
}
