/** A fixed-size toroidal grid of cells (Frame), the read-only neighbourhood view a
    transition rule receives (Square), the frame's cell iterator, and the
    synchronous advance of the whole grid (next_frame). */
module Simulation {
  import opened Toroidal
  import opened Layout
  import opened Neighbourhood

  datatype Option<T> = None | Some(value: T)

  /** The contents of a frame at one moment: its buffer and its dimensions.
      A Square borrows a frame immutably, so it sees exactly such a value. */
  datatype Snapshot<T> = Snapshot(data: seq<T>, width: nat, height: nat) {

    predicate Valid() {
      |data| == width * height
    }

    /** The cell at (x, y): buffer slot y * height + x, which must exist. */
    function Get(x: nat, y: nat): T
      requires Offset(x, y, height) < |data|
    {
      data[Offset(x, y, height)]
    }
  }

  /** A neighbourhood view anchored at `point` in `frame`. */
  datatype Square<T> = Square(frame: Snapshot<T>, point: (nat, nat)) {

    /** get(i, j) neither trips the offset assertion of add_modulo on either axis
        nor indexes past the buffer. */
    predicate CanGet(i: int, j: int): (ok: bool)
      ensures ok ==> Abs(i) < frame.width && Abs(j) < frame.height
      ensures frame.Valid() && frame.width == frame.height ==>
        (ok <==> Abs(i) < frame.width && Abs(j) < frame.height)
    {
      Abs(i) < frame.width && Abs(j) < frame.height &&
      var x, y := AddModulo(point.0, i, frame.width), AddModulo(point.1, j, frame.height);
      SquareOffsetInRange(x, y, frame.width, frame.height);
      Offset(x, y, frame.height) < |frame.data|
    }

    /** The cell at offset (i, j) from the anchor, each axis wrapping around:
        the Euclidean remainders of the anchor plus the offset. */
    function Get(i: int, j: int): (v: T)
      requires CanGet(i, j)
      ensures Offset((point.0 + i) % frame.width, (point.1 + j) % frame.height, frame.height) < |frame.data|
      ensures v == frame.Get((point.0 + i) % frame.width, (point.1 + j) % frame.height)
    {
      frame.Get(AddModulo(point.0, i, frame.width), AddModulo(point.1, j, frame.height))
    }

    /** The view is one next_frame builds: over a valid frame no wider than it is
        high, anchored at a coordinate the iterator yields (both below the width). */
    predicate Visited() {
      frame.Valid() && frame.width <= frame.height && point.0 < frame.width && point.1 < frame.width
    }

    /** The anchor of the view. */
    function Coordinate(): (c: (nat, nat))
      ensures c == point
    {
      point
    }

    /** nodes holds the values read at the offsets in read, one for one. */
    ghost predicate Collected(nodes: seq<T>, read: seq<(int, int)>) {
      |nodes| == |read| &&
      forall k :: 0 <= k < |read| ==> CanGet(read[k].0, read[k].1) && nodes[k] == Get(read[k].0, read[k].1)
    }

    /** Reading one more offset extends the values read by its value. */
    lemma CollectedAppend(nodes: seq<T>, read: seq<(int, int)>, i: int, j: int)
      requires Collected(nodes, read) && CanGet(i, j)
      ensures Collected(nodes + [Get(i, j)], read + [(i, j)])
    {
    }

    /** The values of the cells around the anchor within radius r, in row-major
        order of the offsets (i outer, j inner, both from -r to r), the anchor
        itself left out. */
    method WithinOrtholinear(r: int) returns (nodes: seq<T>)
      requires forall i, j :: -r <= i <= r && -r <= j <= r && (i != 0 || j != 0) ==> CanGet(i, j)
      ensures |nodes| == |NeighbourOffsets(r)|
      ensures forall k :: 0 <= k < |nodes| ==>
        nodes[k] == Get(NeighbourOffsets(r)[k].0, NeighbourOffsets(r)[k].1)
      ensures r >= 0 ==> |nodes| == (2 * r + 1) * (2 * r + 1) - 1
      ensures r <= 0 ==> nodes == []
    {
      nodes := [];
      ghost var read: seq<(int, int)> := [];
      var i := -r;
      while i < r + 1
        invariant (r < 0 && i == -r) || -r <= i <= r + 1
        invariant read == Rows(-r, i, r)
        invariant Collected(nodes, read)
      {
        var j := -r;
        while j < r + 1
          invariant -r <= j <= r + 1
          invariant read == Rows(-r, i, r) + Row(i, -r, j)
          invariant Collected(nodes, read)
        {
          if i != 0 || j != 0 {
            assert Row(i, -r, j + 1) == Row(i, -r, j) + [(i, j)];
            CollectedAppend(nodes, read, i, j);
            nodes := nodes + [Get(i, j)];
            read := read + [(i, j)];
          } else {
            assert Row(i, -r, j + 1) == Row(i, -r, j);
          }
          j := j + 1;
        }
        assert Rows(-r, i + 1, r) == Rows(-r, i, r) + Row(i, -r, r + 1);
        i := i + 1;
      }
      NeighbourCount(r);
    }
  }

  /** The frame after one synchronous step: every cell (x, y) that the iterator
      visits (x and y below the width) becomes `step` of the Square anchored at
      (x, y) over the UNCHANGED snapshot `s`; every other slot keeps its value. */
  function Advance<T>(s: Snapshot<T>, step: Square<T> -> T): Snapshot<T>
    requires s.Valid() && s.width <= s.height
  {
    Snapshot(
      seq(|s.data|, k requires 0 <= k < |s.data| =>
        if k % s.height < s.width && k / s.height < s.width
        then step(Square(s, (k % s.height, k / s.height)))
        else s.data[k]),
      s.width, s.height)
  }

  /** Advancing keeps the dimensions and the buffer length. */
  lemma AdvanceKeepsShape<T>(s: Snapshot<T>, step: Square<T> -> T)
    requires s.Valid() && s.width <= s.height
    ensures Advance(s, step).Valid()
    ensures Advance(s, step).width == s.width && Advance(s, step).height == s.height
  {
  }

  /** A visited cell holds the rule applied at that cell to the pre-advance frame. */
  lemma AdvanceVisited<T>(s: Snapshot<T>, step: Square<T> -> T, x: nat, y: nat)
    requires s.Valid() && s.width <= s.height
    requires x < s.width && y < s.width
    ensures Offset(x, y, s.height) < |s.data|
    ensures Advance(s, step).Get(x, y) == step(Square(s, (x, y)))
  {
    OffsetInRange(x, y, s.width, s.height);
    OffsetDecode(x, y, s.height);
  }

  /** In a frame higher than wide, the cells with x in [width, height) are never
      visited and keep their old value. */
  lemma AdvanceUnvisited<T>(s: Snapshot<T>, step: Square<T> -> T, x: nat, y: nat)
    requires s.Valid() && s.width <= s.height
    requires s.width <= x < s.height && y < s.width
    ensures Offset(x, y, s.height) < |s.data|
    ensures Advance(s, step).Get(x, y) == s.Get(x, y)
  {
    OffsetInRange(x, y, s.width, s.height);
    OffsetDecode(x, y, s.height);
  }

  /** For a square frame, every cell of the result is the rule applied to a Square
      over the pre-advance frame: no cell sees another cell's new value. */
  lemma AdvanceSquareFrame<T>(s: Snapshot<T>, step: Square<T> -> T)
    requires s.Valid() && s.width == s.height
    ensures forall x: nat, y: nat :: x < s.width && y < s.height ==>
      Offset(x, y, s.height) < |s.data| && Advance(s, step).Get(x, y) == step(Square(s, (x, y)))
  {
    forall x: nat, y: nat | x < s.width && y < s.height
      ensures Offset(x, y, s.height) < |s.data| && Advance(s, step).Get(x, y) == step(Square(s, (x, y)))
    {
      AdvanceVisited(s, step, x, y);
    }
  }

  /** A rule that reads only the anchor's position sees, at each cell, that
      cell's own coordinate. */
  lemma AdvanceSeesCoordinate<T>(s: Snapshot<T>, step: Square<T> -> T, f: ((nat, nat)) -> T, x: nat, y: nat)
    requires s.Valid() && s.width == s.height
    requires forall sq :: step(sq) == f(sq.Coordinate())
    requires x < s.width && y < s.height
    ensures Offset(x, y, s.height) < |s.data|
    ensures Advance(s, step).Get(x, y) == f((x, y))
  {
    AdvanceVisited(s, step, x, y);
  }

  /** Progress of the stepping pass: the slots of the cells visited before
      cursor c hold their advanced value, all others their old value. */
  ghost predicate AdvancedBefore<T>(s: Snapshot<T>, step: Square<T> -> T, cells: seq<T>, c: (nat, nat))
    requires s.Valid() && s.width <= s.height
  {
    |cells| == |s.data| &&
    forall k {:trigger cells[k]} :: 0 <= k < |cells| ==>
      cells[k] == if s.height > 0 && Before((k % s.height, k / s.height), c) then Advance(s, step).data[k] else s.data[k]
  }

  /** Before the first cell nothing has been advanced. */
  lemma AdvancedBeforeStart<T>(s: Snapshot<T>, step: Square<T> -> T)
    requires s.Valid() && s.width <= s.height
    ensures AdvancedBefore(s, step, s.data, (0, 0))
  {
  }

  /** Writing the advanced value of the cell under the cursor moves the progress
      on to the cursor's successor. */
  lemma AdvancedBeforeStep<T>(s: Snapshot<T>, step: Square<T> -> T, cells: seq<T>, c: (nat, nat))
    requires s.Valid() && s.width <= s.height
    requires c.0 < s.width && c.1 < s.width
    requires AdvancedBefore(s, step, cells, c)
    ensures Offset(c.0, c.1, s.height) < |cells|
    ensures AdvancedBefore(s, step, cells[Offset(c.0, c.1, s.height) := step(Square(s, c))], Successor(c, s.width))
  {
    OffsetInRange(c.0, c.1, s.width, s.height);
    var cells' := cells[Offset(c.0, c.1, s.height) := step(Square(s, c))];
    forall k | 0 <= k < |cells'|
      ensures cells'[k] == if s.height > 0 && Before((k % s.height, k / s.height), Successor(c, s.width))
        then Advance(s, step).data[k] else s.data[k]
    {
      AdvancedBeforeStepAt(s, step, cells, c, k);
    }
  }

  /** The same, for one buffer slot k. */
  lemma AdvancedBeforeStepAt<T>(s: Snapshot<T>, step: Square<T> -> T, cells: seq<T>, c: (nat, nat), k: nat)
    requires s.Valid() && s.width <= s.height
    requires c.0 < s.width && c.1 < s.width
    requires AdvancedBefore(s, step, cells, c)
    requires k < |cells|
    ensures Offset(c.0, c.1, s.height) < |cells|
    ensures s.height > 0
    ensures cells[Offset(c.0, c.1, s.height) := step(Square(s, c))][k] ==
      if Before((k % s.height, k / s.height), Successor(c, s.width)) then Advance(s, step).data[k] else s.data[k]
  {
    OffsetInRange(c.0, c.1, s.width, s.height);
    OffsetOnto(k, s.width, s.height);
    var o := Offset(c.0, c.1, s.height);
    var p: (nat, nat) := (k % s.height, k / s.height);
    var next := Advance(s, step).data;
    if k == o {
      assert p == c by {
        OffsetDecode(c.0, c.1, s.height);
      }
      assert next[k] == step(Square(s, c));
    } else {
      assert cells[k] == if Before(p, c) then next[k] else s.data[k];
      if p.0 < s.width {
        assert p != c;
        SuccessorExtendsBefore(p, c, s.width);
      } else {
        assert next[k] == s.data[k];
      }
    }
  }

  /** Once the cursor has left the rows below the width, the pass is complete. */
  lemma AdvancedBeforeDone<T>(s: Snapshot<T>, step: Square<T> -> T, cells: seq<T>, c: (nat, nat))
    requires s.Valid() && s.width <= s.height
    requires c.1 >= s.width
    requires AdvancedBefore(s, step, cells, c)
    ensures cells == Advance(s, step).data
  {
    forall k | 0 <= k < |cells|
      ensures cells[k] == Advance(s, step).data[k]
    {
      OffsetOnto(k, s.width, s.height);
    }
  }

  /** On a square frame, reading at offset (0, 0) is reading the anchor's cell. */
  lemma SquareGetAnchor<T>(sq: Square<T>)
    ensures sq.Visited() ==>
      Offset(sq.point.0, sq.point.1, sq.frame.height) < |sq.frame.data| &&
      sq.CanGet(0, 0) && sq.Get(0, 0) == sq.frame.Get(sq.point.0, sq.point.1)
  {
    if sq.Visited() {
      var (x, y) := sq.point;
      AddModuloZero(x, sq.frame.width);
      AddModuloZero(y, sq.frame.height);
      OffsetInRange(x, y, sq.frame.width, sq.frame.height);
    }
  }

  /** Left edge is adjacent to the right edge: one step left from x = 0 reads the
      last column, and one step up from y = 0 reads the last row. */
  lemma SquareWraps<T>(sq: Square<T>)
    requires sq.frame.Valid() && sq.frame.width == sq.frame.height > 1
    requires sq.point.0 < sq.frame.width && sq.point.1 < sq.frame.height
    ensures Offset(sq.frame.width - 1, sq.point.1, sq.frame.height) < |sq.frame.data|
    ensures Offset(sq.point.0, sq.frame.height - 1, sq.frame.height) < |sq.frame.data|
    ensures sq.point.0 == 0 ==> sq.CanGet(-1, 0) && sq.Get(-1, 0) == sq.frame.Get(sq.frame.width - 1, sq.point.1)
    ensures sq.point.1 == 0 ==> sq.CanGet(0, -1) && sq.Get(0, -1) == sq.frame.Get(sq.point.0, sq.frame.height - 1)
  {
    OffsetInRange(sq.frame.width - 1, sq.point.1, sq.frame.width, sq.frame.height);
    OffsetInRange(sq.point.0, sq.frame.height - 1, sq.frame.width, sq.frame.height);
    AddModuloWrapsBack(sq.frame.width);
    AddModuloZero(sq.point.0, sq.frame.width);
    AddModuloZero(sq.point.1, sq.frame.height);
  }

  /** On a frame higher than it is wide, rows y >= width have no slot: one step up
      from y = 0 wraps to row height - 1, whose offset lies past the buffer, so
      get(i, -1) panics there for every horizontal offset i that add_modulo accepts. */
  lemma TallFrameTopWrapEscapes<T>(sq: Square<T>, i: int)
    requires sq.frame.Valid() && sq.frame.width < sq.frame.height
    requires sq.point.1 == 0 && Abs(i) < sq.frame.width
    ensures !sq.CanGet(i, -1)
  {
    AddModuloWrapsBack(sq.frame.height);
    OffsetPastRows(AddModulo(sq.point.0, i, sq.frame.width), sq.frame.height - 1, sq.frame.width, sq.frame.height);
  }

  /** Frame<T>: a dense buffer of width * height cells. */
  class Frame<T> {
    const data: array<T>
    const width: nat
    const height: nat

    predicate Valid() {
      data.Length == width * height
    }

    /** `new(x, y)`: an x-wide, y-high frame with every cell the default value. */
    constructor (x: nat, y: nat, default: T)
      ensures Valid() && fresh(data)
      ensures Width() == x && Height() == y
      ensures forall k :: 0 <= k < data.Length ==> data[k] == default
    {
      data := new T[x * y](_ => default);
      width, height := x, y;
    }

    /** The width of the frame: with the height, it sizes the buffer. */
    function Width(): (w: nat)
      ensures w == width
    {
      width
    }

    /** The height of the frame: with the width, it sizes the buffer. */
    function Height(): (h: nat)
      ensures h == height
    {
      height
    }

    /** The current contents as a value. */
    function View(): Snapshot<T>
      reads data
    {
      Snapshot(data[..], width, height)
    }

    /** The cell at (x, y): slot y * height + x, which must exist. */
    function Get(x: nat, y: nat): (v: T)
      reads data
      requires Offset(x, y, height) < data.Length
      ensures v == View().Get(x, y)
    {
      data[Offset(x, y, height)]
    }

    /** `*get_mut(x, y) = v`: overwrite the cell that get(x, y) reads. Reading it
        back gives v; no other buffer slot changes. */
    method GetMut(x: nat, y: nat, v: T)
      requires Offset(x, y, height) < data.Length
      modifies data
      ensures Get(x, y) == v
      ensures forall k :: 0 <= k < data.Length && k != Offset(x, y, height) ==> data[k] == old(data[k])
      ensures forall x': nat, y': nat {:trigger Get(x', y')} ::
        x < height && x' < height && Offset(x', y', height) < data.Length && (x', y') != (x, y) ==>
        Get(x', y') == old(Get(x', y'))
    {
      data[Offset(x, y, height)] := v;
      forall x': nat, y': nat |
        x < height && x' < height && Offset(x', y', height) < data.Length && (x', y') != (x, y)
        ensures Get(x', y') == old(Get(x', y'))
      {
        if Offset(x', y', height) == Offset(x, y, height) {
          OffsetInjective(x', y', x, y, height);
        }
      }
    }

    /** `enumerate_squares`: an iterator standing at (0, 0). */
    method EnumerateSquares() returns (it: FrameIterator<T>)
      ensures fresh(it) && it.frame == this && it.Valid()
      ensures it.nextIndex == (0, 0) && it.count == 0
    {
      it := new FrameIterator(this);
    }

    /** `next_frame(step)`: clone the buffer, then for every (x, y) the iterator
        yields overwrite slot height * y + x with step applied to the Square at
        (x, y) over this (unchanged) frame. The iterator bounds y by the width,
        so the last slot written is (width-1) * height + width-1: the source
        panics unless width <= height. */
    method NextFrame(step: Square<T> -> T) returns (next: Frame<T>)
      requires Valid() && width <= height
      ensures fresh(next) && fresh(next.data) && next.Valid()
      ensures next.width == width && next.height == height
      ensures next.View() == Advance(View(), step)
      ensures View() == old(View())
    {
      var snapshot := View();
      var cells := new T[data.Length](k requires 0 <= k < |snapshot.data| => snapshot.data[k]);
      var it := EnumerateSquares();
      AdvancedBeforeStart(snapshot, step);
      while true
        invariant fresh(it) && it.frame == this && it.Valid()
        invariant it.nextIndex.1 < width ==> it.nextIndex.0 < width
        invariant cells.Length == data.Length && snapshot == View()
        invariant AdvancedBefore(snapshot, step, cells[..], it.nextIndex)
        decreases width - it.nextIndex.1, width - it.nextIndex.0
      {
        if it.nextIndex.1 < width {
          OffsetInRange(it.nextIndex.0, it.nextIndex.1, width, height);
        }
        var item := it.Next();
        if item.None? {
          break;
        }
        var (x, y, _) := item.value;
        ghost var before := cells[..];
        AdvancedBeforeStep(snapshot, step, before, (x, y));
        cells[Offset(x, y, height)] := step(Square(snapshot, (x, y)));
        assert cells[..] == before[Offset(x, y, height) := step(Square(snapshot, (x, y)))];
      }
      AdvancedBeforeDone(snapshot, step, cells[..], it.nextIndex);
      next := new Frame.FromBuffer(cells, width, height);
    }

    /** The Frame literal at the end of next_frame. */
    constructor FromBuffer(cells: array<T>, w: nat, h: nat)
      requires cells.Length == w * h
      ensures Valid() && data == cells && width == w && height == h
    {
      data := cells;
      width, height := w, h;
    }
  }

  /** FrameIterator: walks a frame in row-major order, bounding y by the width.
      `count` is the number of items yielded so far. */
  class FrameIterator<T> {
    const frame: Frame<T>
    var nextIndex: (nat, nat)
    ghost var count: nat

    ghost predicate Valid()
      reads this
    {
      nextIndex == Cursor(count, frame.width)
    }

    constructor (f: Frame<T>)
      ensures frame == f && nextIndex == (0, 0) && count == 0 && Valid()
    {
      frame := f;
      nextIndex := (0, 0);
      count := 0;
    }

    /** `next`: while y is below the width, yield (x, y, get(x, y)) and move to
        the successor; afterwards yield nothing and stay put. The item yielded
        k-th is at Cursor(k, width). */
    method Next() returns (item: Option<(nat, nat, T)>)
      requires Valid()
      requires nextIndex.1 < frame.width ==> Offset(nextIndex.0, nextIndex.1, frame.height) < frame.data.Length
      modifies this
      ensures Valid()
      ensures old(nextIndex).1 < frame.width ==>
        item == Some((old(nextIndex).0, old(nextIndex).1, frame.Get(old(nextIndex).0, old(nextIndex).1))) &&
        nextIndex == Successor(old(nextIndex), frame.width) && count == old(count) + 1
      ensures old(nextIndex).1 >= frame.width ==> item == None && nextIndex == old(nextIndex) && count == old(count)
      ensures item.Some? <==> old(count) < frame.width * frame.width
    {
      CursorYields(count, frame.width);
      var (x, y) := nextIndex;
      if y < frame.width {
        var val := frame.Get(x, y);
        nextIndex := if x + 1 < frame.width then (x + 1, y) else (0, y + 1);
        count := count + 1;
        item := Some((x, y, val));
      } else {
        item := None;
      }
    }
  }
}
