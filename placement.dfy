/** Piece frames and the two ways the game writes a frame onto the board:
    `pastePiece`, a checked all-or-nothing write, and `fillShape`, an unchecked
    paint or erase (src/main.js:45-88). The methods that perform these writes are
    in module Game; this module holds the functions they are specified by and
    the facts proved about those functions. */
module Placement {
  import opened Geometry

  /** A rotation frame: a 4x4 mask in row-major order, row 0 at the top of the
      piece; the character '.' marks an empty cell. */
  type Frame = seq<char>
  /** A piece type: its rotation frames in order. */
  type PieceType = seq<Frame>

  const MaskSide := 4
  const MaskCells := 16
  /** Largest fill value: piece indices 0..6 are written as 1..7. */
  const MaxFill := 7

  predicate WellFormedFrame(f: Frame)
  {
    |f| == MaskCells && exists k :: 0 <= k < MaskCells && f[k] != '.'
  }

  predicate WellFormedPiece(p: PieceType)
  {
    |p| > 0 && forall r :: 0 <= r < |p| ==> WellFormedFrame(p[r])
  }

  predicate WellFormedCatalog(c: seq<PieceType>)
  {
    forall n :: 0 <= n < |c| ==> WellFormedPiece(c[n])
  }

  /** Board column and row of mask cell k when the mask's top-left cell is at t:
      mask column x = k % 4 goes right, mask row y = k / 4 goes down the board. */
  function CellX(t: Vec, k: int): int { t.x + k % 4 }
  function CellY(t: Vec, k: int): int { t.y - k / 4 }
  function CellIndex(t: Vec, k: int): int { Index(CellX(t, k), CellY(t, k)) }

  predicate InBounds(x: int, y: int)
  {
    0 <= x < Width && 0 <= y < Height
  }

  /** The board offsets of the occupied cells among the first k mask cells, in
      the order the nested loops of `pastePiece` and `fillShape` visit them. */
  function Staged(f: Frame, t: Vec, k: nat): (s: seq<int>)
    requires k <= |f|
    ensures |s| <= k
  {
    if k == 0 then []
    else Staged(f, t, k - 1) + (if f[k - 1] == '.' then [] else [CellIndex(t, k - 1)])
  }

  /** Write `fill` at each offset of s in turn; an offset outside the buffer is
      ignored, as a typed-array store out of range is. */
  function PaintList(b: seq<int>, s: seq<int>, fill: int): (r: seq<int>)
    ensures |r| == |b|
    ensures forall i :: 0 <= i < |r| ==> r[i] == b[i] || r[i] == fill
  {
    if s == [] then b
    else
      var c := PaintList(b, s[..|s| - 1], fill);
      var i := s[|s| - 1];
      if 0 <= i < |c| then c[i := fill] else c
  }

  /** The board after frame f is painted with `fill` at cell t. */
  function Paint(b: seq<int>, f: Frame, t: Vec, fill: int): seq<int>
    requires |f| == MaskCells
  {
    PaintList(b, Staged(f, t, MaskCells), fill)
  }

  /** Mask cell k is empty, or lands inside the board on a cell that is not > 0. */
  predicate CellFits(b: seq<int>, f: Frame, t: Vec, k: int)
    requires |b| == Size && 0 <= k < |f|
  {
    f[k] == '.' || (InBounds(CellX(t, k), CellY(t, k)) && b[CellIndex(t, k)] <= 0)
  }

  predicate FitsUpTo(b: seq<int>, f: Frame, t: Vec, k: int)
    requires |b| == Size && k <= |f|
  {
    forall j :: 0 <= j < k ==> CellFits(b, f, t, j)
  }

  /** The condition under which `pastePiece` returns true. */
  predicate Fits(b: seq<int>, f: Frame, t: Vec)
    requires |b| == Size && |f| == MaskCells
  {
    FitsUpTo(b, f, t, MaskCells)
  }

  predicate AllInBounds(f: Frame, t: Vec)
    requires |f| == MaskCells
  {
    forall k :: 0 <= k < MaskCells && f[k] != '.' ==> InBounds(CellX(t, k), CellY(t, k))
  }

  /** The mask cell that lies over board offset i when the mask's top-left cell
      is at t, or -1 when offset i is outside the 4x4 square. */
  function MaskOf(t: Vec, i: int): (k: int)
    ensures -1 <= k < MaskCells
  {
    var x := i % 10 - t.x;
    var y := t.y - i / 10;
    if 0 <= x < MaskSide && 0 <= y < MaskSide then 4 * y + x else -1
  }

  /** Board offset i lies under an occupied cell of frame f placed at t. */
  predicate Covered(f: Frame, t: Vec, i: int)
    requires |f| == MaskCells
  {
    MaskOf(t, i) >= 0 && f[MaskOf(t, i)] != '.'
  }

  /** Covered, and by one of the first k mask cells. */
  predicate CoveredBelow(f: Frame, t: Vec, i: int, k: int)
    requires |f| == MaskCells
  {
    Covered(f, t, i) && MaskOf(t, i) < k
  }

  /** Every cell under frame f at t holds `fill`. */
  predicate Painted(b: seq<int>, f: Frame, t: Vec, fill: int)
    requires |f| == MaskCells
  {
    forall i {:trigger Covered(f, t, i)} :: 0 <= i < |b| && Covered(f, t, i) ==> b[i] == fill
  }

  /** The board invariant: every cell is empty (0) or a fill value 1..7. */
  predicate CellsInRange(b: seq<int>)
  {
    forall i :: 0 <= i < |b| ==> 0 <= b[i] <= MaxFill
  }

  /** Fitting the first k + 1 cells is fitting the first k and cell k. */
  lemma FitsUpToStep(b: seq<int>, f: Frame, t: Vec, k: nat)
    requires |b| == Size && k < |f|
    ensures FitsUpTo(b, f, t, k + 1) <==> FitsUpTo(b, f, t, k) && CellFits(b, f, t, k)
  {
  }

  /** Mask cell k = 4 * y + x sits in mask column x and mask row y. */
  lemma MaskCell(x: int, y: int)
    requires 0 <= x < MaskSide && 0 <= y < MaskSide
    ensures (4 * y + x) % 4 == x && (4 * y + x) / 4 == y
  {
  }

  lemma StagedStep(f: Frame, t: Vec, k: nat)
    requires k < |f|
    ensures Staged(f, t, k + 1) == Staged(f, t, k) + (if f[k] == '.' then [] else [CellIndex(t, k)])
  {
  }

  lemma PaintListSnoc(b: seq<int>, s: seq<int>, i: int, fill: int)
    ensures PaintList(b, s + [i], fill) ==
      var c := PaintList(b, s, fill); if 0 <= i < |c| then c[i := fill] else c
  {
    assert (s + [i])[..|s|] == s;
  }

  /** Painting the first k + 1 mask cells is painting the first k, then cell k. */
  lemma PaintStep(b: seq<int>, f: Frame, t: Vec, fill: int, k: nat)
    requires k < |f|
    ensures PaintList(b, Staged(f, t, k + 1), fill) ==
      var p := PaintList(b, Staged(f, t, k), fill);
      var i := CellIndex(t, k);
      if f[k] == '.' || !(0 <= i < |p|) then p else p[i := fill]
  {
    StagedStep(f, t, k);
    if f[k] != '.' {
      PaintListSnoc(b, Staged(f, t, k), CellIndex(t, k), fill);
    } else {
      assert Staged(f, t, k) + [] == Staged(f, t, k);
    }
  }

  /** The offset of mask cell k is i exactly when i lies under mask cell k. */
  lemma CellMatch(t: Vec, k: int, i: int)
    requires 0 <= k < MaskCells && InBounds(CellX(t, k), CellY(t, k)) && 0 <= i < Size
    ensures CellIndex(t, k) == i <==> MaskOf(t, i) == k
  {
    IndexParts(CellX(t, k), CellY(t, k));
    var x := i % 10 - t.x;
    var y := t.y - i / 10;
    if 0 <= x < MaskSide && 0 <= y < 4 && 4 * y + x == k {
      assert k % 4 == x && k / 4 == y;
      assert i == (i / 10) * 10 + i % 10;
    }
  }

  lemma {:induction false} PaintListStagedAt(b: seq<int>, f: Frame, t: Vec, fill: int, k: nat, i: int)
    requires |b| == Size && |f| == MaskCells && k <= MaskCells
    requires AllInBounds(f, t) && 0 <= i < Size
    ensures PaintList(b, Staged(f, t, k), fill)[i] == if CoveredBelow(f, t, i, k) then fill else b[i]
  {
    if k > 0 {
      PaintListStagedAt(b, f, t, fill, k - 1, i);
      var s := Staged(f, t, k - 1);
      var p := PaintList(b, s, fill);
      if f[k - 1] == '.' {
        assert Staged(f, t, k) == s;
        assert CoveredBelow(f, t, i, k) == CoveredBelow(f, t, i, k - 1);
      } else {
        var c := CellIndex(t, k - 1);
        var s' := s + [c];
        assert Staged(f, t, k) == s';
        assert s'[..|s'| - 1] == s;
        assert InBounds(CellX(t, k - 1), CellY(t, k - 1));
        CellMatch(t, k - 1, i);
        assert PaintList(b, s', fill) == p[c := fill];
        assert CoveredBelow(f, t, i, k) == (CoveredBelow(f, t, i, k - 1) || c == i);
      }
    }
  }

  /** Painting a frame that lies inside the board writes `fill` exactly under its
      occupied cells and leaves every other cell as it was. */
  lemma PaintAt(b: seq<int>, f: Frame, t: Vec, fill: int, i: int)
    requires |b| == Size && |f| == MaskCells && AllInBounds(f, t) && 0 <= i < Size
    ensures |Paint(b, f, t, fill)| == Size
    ensures Paint(b, f, t, fill)[i] == if Covered(f, t, i) then fill else b[i]
  {
    PaintListStagedAt(b, f, t, fill, MaskCells, i);
  }

  /** `pastePiece`'s condition, stated over board cells: every occupied mask cell
      is inside the board, and no cell under the frame is > 0. */
  lemma FitsIff(b: seq<int>, f: Frame, t: Vec)
    requires |b| == Size && |f| == MaskCells
    ensures Fits(b, f, t) <==>
      AllInBounds(f, t) && forall i :: 0 <= i < Size && Covered(f, t, i) ==> b[i] <= 0
  {
    if Fits(b, f, t) {
      forall k | 0 <= k < MaskCells && f[k] != '.'
        ensures InBounds(CellX(t, k), CellY(t, k))
      {
        assert CellFits(b, f, t, k);
      }
      forall i | 0 <= i < Size && Covered(f, t, i)
        ensures b[i] <= 0
      {
        var k := MaskOf(t, i);
        assert CellFits(b, f, t, k);
        CellMatch(t, k, i);
      }
    }
    if AllInBounds(f, t) && forall i :: 0 <= i < Size && Covered(f, t, i) ==> b[i] <= 0 {
      forall k | 0 <= k < MaskCells
        ensures CellFits(b, f, t, k)
      {
        if f[k] != '.' {
          var i := CellIndex(t, k);
          CellMatch(t, k, i);
          assert Covered(f, t, i);
        }
      }
    }
  }

  /** After painting, the cells under the frame hold the fill value. */
  lemma PaintPainted(b: seq<int>, f: Frame, t: Vec, fill: int)
    requires |b| == Size && |f| == MaskCells && AllInBounds(f, t)
    ensures Painted(Paint(b, f, t, fill), f, t, fill)
  {
    forall i | 0 <= i < Size && Covered(f, t, i)
      ensures Paint(b, f, t, fill)[i] == fill
    {
      PaintAt(b, f, t, fill, i);
    }
  }

  /** Erasing a painted frame and painting it again restores the board exactly. */
  lemma EraseRestore(b: seq<int>, f: Frame, t: Vec, fill: int)
    requires |b| == Size && |f| == MaskCells && AllInBounds(f, t) && Painted(b, f, t, fill)
    ensures Paint(Paint(b, f, t, 0), f, t, fill) == b
  {
    var e := Paint(b, f, t, 0);
    forall i | 0 <= i < Size
      ensures Paint(e, f, t, fill)[i] == b[i]
    {
      PaintAt(b, f, t, 0, i);
      PaintAt(e, f, t, fill, i);
    }
  }

  /** Painting a frame over cells that are all 0 and erasing it again restores the
      board, so the intermediate cells of a drop cancel. */
  lemma PaintErase(b: seq<int>, f: Frame, t: Vec, fill: int)
    requires |b| == Size && |f| == MaskCells && AllInBounds(f, t) && CellsInRange(b)
    requires forall i :: 0 <= i < Size && Covered(f, t, i) ==> b[i] <= 0
    ensures Paint(Paint(b, f, t, fill), f, t, 0) == b
  {
    var p := Paint(b, f, t, fill);
    forall i | 0 <= i < Size
      ensures Paint(p, f, t, 0)[i] == b[i]
    {
      PaintAt(b, f, t, fill, i);
      PaintAt(p, f, t, 0, i);
    }
  }

  /** Painting with a fill value in range keeps every cell in range. */
  lemma PaintInRange(b: seq<int>, f: Frame, t: Vec, fill: int)
    requires |f| == MaskCells && CellsInRange(b) && 0 <= fill <= MaxFill
    ensures CellsInRange(Paint(b, f, t, fill))
  {
  }

  /** Any 4x4 mask anchored at the spawn cell (3, 17) lies inside the board, so
      the forced paint on a failed spawn never writes out of range. */
  lemma SpawnInBounds(f: Frame)
    requires |f| == MaskCells
    ensures AllInBounds(f, Vec(3, 17))
  {
  }

  /** A frame with an occupied cell that lies inside the board has its anchor row
      at or above row 0. */
  lemma AnchorRow(f: Frame, t: Vec)
    requires WellFormedFrame(f) && AllInBounds(f, t)
    ensures t.y >= 0
  {
    var k :| 0 <= k < MaskCells && f[k] != '.';
    assert InBounds(CellX(t, k), CellY(t, k));
  }

  /** `move`'s success condition: the new position is in the same cell, or the
      frame, lifted off the board, fits at the new cell. */
  predicate MoveFits(b: seq<int>, f: Frame, p: Vec, d: Vec)
    requires |b| == Size && |f| == MaskCells
  {
    Trunc(p) == Trunc(Add(p, d)) || Fits(Paint(b, f, Trunc(p), 0), f, Trunc(Add(p, d)))
  }
}
