/** Row compaction and scoring (src/main.js:134-171, 217-222): the functions the
    methods `ShiftLines` and `ClearLines` of module Game are specified by, and
    the facts proved about them. */
module Rows {
  import opened Geometry
  import opened Placement

  /** No cell of row y is 0 (`!subarray(index(0, y), index(10, y)).includes(0)`). */
  predicate RowFull(b: seq<int>, y: int)
    requires |b| == Size && 0 <= y < Height
  {
    forall x :: 0 <= x < Width ==> b[Index(x, y)] != 0
  }

  /** `shiftLines(line, len)` as written: its loop runs while y < 18 - len, so the
      zero-fill branch is never taken and the top `len` rows keep their old
      contents. */
  function ShiftedAsWritten(b: seq<int>, line: int, len: int): (r: seq<int>)
    requires |b| == Size && 0 <= line && 0 <= len
    ensures |r| == Size
  {
    seq(Size, i requires 0 <= i < Size =>
      if line <= i / 10 < Height - len then b[i + 10 * len] else b[i])
  }

  /** `shiftLines(line, len)` as evidently intended: rows from `line` upward take the
      row `len` above them, and rows with nothing above to take from become 0. */
  function Shifted(b: seq<int>, line: int, len: int): (r: seq<int>)
    requires |b| == Size && 0 <= line && 0 <= len
    ensures |r| == Size
  {
    seq(Size, i requires 0 <= i < Size =>
      if i / 10 < line then b[i]
      else if i / 10 < Height - len then b[i + 10 * len]
      else 0)
  }

  /** Both shifts leave the rows below `line` unchanged; the shift as written also
      leaves the top `len` rows unchanged. */
  lemma ShiftKeepsRows(b: seq<int>, line: nat, len: nat)
    requires |b| == Size
    ensures forall i :: 0 <= i < Size && i / 10 < line ==> Shifted(b, line, len)[i] == b[i]
    ensures forall i :: 0 <= i < Size && i / 10 < line ==> ShiftedAsWritten(b, line, len)[i] == b[i]
    ensures forall i :: 0 <= i < Size && i / 10 >= Height - len ==> ShiftedAsWritten(b, line, len)[i] == b[i]
  {
  }

  function Zeros(n: nat): (z: seq<int>)
    ensures |z| == n && forall i :: 0 <= i < n ==> z[i] == 0
  {
    seq(n, _ => 0)
  }

  /** Row y at or above `line` of the intended shift: the row `len` above it, or
      zeros when there is none. */
  lemma ShiftedRow(b: seq<int>, line: nat, len: nat, y: int)
    requires |b| == Size && line <= y < Height
    ensures forall i :: y * 10 <= i < y * 10 + 10 ==>
      Shifted(b, line, len)[i] == if y + len < Height then b[i + 10 * len] else 0
  {
    RowsOf(y);
  }

  /** The same for the shift as written, for the rows its loop visits. */
  lemma ShiftedAsWrittenRow(b: seq<int>, line: nat, len: nat, y: int)
    requires |b| == Size && line <= y < Height - len
    ensures forall i :: y * 10 <= i < y * 10 + 10 ==>
      ShiftedAsWritten(b, line, len)[i] == b[i + 10 * len]
  {
    RowsOf(y);
  }

  /** The intended shift removes rows [line, line + len): the rows below keep their
      place, the rows above move down in order, and empty rows fill the top. */
  lemma ShiftedRemovesRows(b: seq<int>, line: nat, len: nat)
    requires |b| == Size && line + len <= Height
    ensures Shifted(b, line, len) ==
      b[..line * 10] + b[(line + len) * 10..] + Zeros(len * 10)
  {
    var r := Shifted(b, line, len);
    var e := b[..line * 10] + b[(line + len) * 10..] + Zeros(len * 10);
    assert |e| == Size;
    forall i | 0 <= i < Size
      ensures r[i] == e[i]
    {
      if i < line * 10 {
        assert i / 10 < line;
      } else if i < (Height - len) * 10 {
        assert line <= i / 10 < Height - len;
      } else {
        assert i / 10 >= Height - len;
      }
    }
  }

  /** The shift as written agrees with the intended one exactly when the top `len`
      rows are already empty. */
  lemma AsWrittenAgreesIffTopEmpty(b: seq<int>, line: nat, len: nat)
    requires |b| == Size && line + len <= Height
    ensures ShiftedAsWritten(b, line, len) == Shifted(b, line, len) <==>
      forall i :: (Height - len) * 10 <= i < Size ==> b[i] == 0
  {
    var w := ShiftedAsWritten(b, line, len);
    var s := Shifted(b, line, len);
    if forall i :: (Height - len) * 10 <= i < Size ==> b[i] == 0 {
      forall i | 0 <= i < Size
        ensures w[i] == s[i]
      {
        if i / 10 >= Height - len {
          assert i >= (Height - len) * 10;
        }
      }
    }
    if w == s {
      forall i | (Height - len) * 10 <= i < Size
        ensures b[i] == 0
      {
        assert i / 10 >= Height - len;
        assert w[i] == b[i] && s[i] == 0;
      }
    }
  }

  /** A board whose bottom row is full and whose top-left cell holds a block. */
  function TopBlockBoard(): (b: seq<int>)
    ensures |b| == Size && RowFull(b, 0)
  {
    seq(Size, i => if i < Width || i == Index(0, Height - 1) then 1 else 0)
  }

  /** Counterexample: collapsing the full bottom row of TopBlockBoard with the shift
      as written leaves the top block in row 17 and copies it into row 16, so
      the block is duplicated; the intended shift leaves row 17 empty. */
  lemma ShiftAsWrittenDuplicatesTopRow()
    ensures ShiftedAsWritten(TopBlockBoard(), 0, 1)[Index(0, Height - 2)] == 1
    ensures ShiftedAsWritten(TopBlockBoard(), 0, 1)[Index(0, Height - 1)] == 1
    ensures Shifted(TopBlockBoard(), 0, 1)[Index(0, Height - 2)] == 1
    ensures Shifted(TopBlockBoard(), 0, 1)[Index(0, Height - 1)] == 0
  {
    var b := TopBlockBoard();
    assert b[Index(0, Height - 1)] == 1;
  }

  /** Which rows of the shifted board are full. */
  lemma ShiftedRowFull(b: seq<int>, line: nat, len: nat, y: int)
    requires |b| == Size && 0 <= y < Height
    ensures y < line ==> (RowFull(Shifted(b, line, len), y) <==> RowFull(b, y))
    ensures line <= y < Height - len ==> (RowFull(Shifted(b, line, len), y) <==> RowFull(b, y + len))
    ensures line <= y && Height - len <= y ==> !RowFull(Shifted(b, line, len), y)
  {
    var r := Shifted(b, line, len);
    forall x | 0 <= x < Width
      ensures y < line ==> r[Index(x, y)] == b[Index(x, y)]
      ensures line <= y < Height - len ==> r[Index(x, y)] == b[Index(x, y + len)]
      ensures line <= y && Height - len <= y ==> r[Index(x, y)] == 0
    {
      IndexParts(x, y);
    }
    if line <= y < Height - len {
      var above := y + len;
      if RowFull(b, above) {
        forall x | 0 <= x < Width ensures r[Index(x, y)] != 0 {
          assert b[Index(x, above)] != 0;
        }
      }
      if RowFull(r, y) {
        forall x | 0 <= x < Width ensures b[Index(x, above)] != 0 {
          assert r[Index(x, y)] != 0;
        }
      }
    }
    if line <= y && Height - len <= y {
      assert r[Index(0, y)] == 0;
    }
  }

  /** Which rows of the shift as written are full: a row its loop visits is full
      when the row `len` above it was, and every other row keeps its own. */
  lemma ShiftedAsWrittenRowFull(b: seq<int>, line: nat, len: nat, y: int)
    requires |b| == Size && 0 <= y < Height
    ensures line <= y < Height - len ==>
      (RowFull(ShiftedAsWritten(b, line, len), y) <==> RowFull(b, y + len))
    ensures !(line <= y < Height - len) ==>
      (RowFull(ShiftedAsWritten(b, line, len), y) <==> RowFull(b, y))
  {
    var r := ShiftedAsWritten(b, line, len);
    var src := if line <= y < Height - len then y + len else y;
    forall x | 0 <= x < Width
      ensures r[Index(x, y)] == b[Index(x, src)]
    {
      IndexParts(x, y);
    }
    if RowFull(b, src) {
      forall x | 0 <= x < Width ensures r[Index(x, y)] != 0 {
        assert b[Index(x, src)] != 0;
      }
    }
    if RowFull(r, y) {
      forall x | 0 <= x < Width ensures b[Index(x, src)] != 0 {
        assert r[Index(x, y)] != 0;
      }
    }
  }

  /** Which version of `shiftLines` a scan collapses its runs with: the loop as
      written, or the evidently intended one that empties the top rows. */
  datatype ShiftRule = AsWritten | Intended

  function Shift(rule: ShiftRule, b: seq<int>, line: int, len: int): (r: seq<int>)
    requires |b| == Size && 0 <= line && 0 <= len
    ensures |r| == Size
  {
    match rule
    case AsWritten => ShiftedAsWritten(b, line, len)
    case Intended => Shifted(b, line, len)
  }

  /** Both shifts only move cells and write zeros, so cells stay in range. */
  lemma ShiftInRange(rule: ShiftRule, b: seq<int>, line: nat, len: nat)
    requires |b| == Size
    ensures CellsInRange(b) ==> CellsInRange(Shift(rule, b, line, len))
  {
  }

  /** Result of clearing: the new board and the number of rows removed. */
  datatype Cleared = Cleared(board: seq<int>, lines: int)

  /** The state of the loop of `clearLines` after one pass of its body. */
  datatype ScanState = ScanState(board: seq<int>, y: int, first: int, len: int, overall: int, done: bool)

  /** One pass of the loop body of `clearLines` at row y, with the current run of
      full rows starting at `first` (or none when `first < 0`) and `overall` rows
      removed so far: a full row opens or extends the run; a non-full row ending
      a run collapses it with the shift `rule`, rewinds to the row above the
      run's start (`y -= len` and then the loop's `y++`) and stops the loop once
      4 or more rows were removed; any other row is passed over. */
  function ScanStep(rule: ShiftRule, b: seq<int>, y: int, first: int, len: int, overall: int): (r: ScanState)
    requires |b| == Size && 0 <= y < Height && 0 <= overall < 4
    requires first >= 0 ==> len == y - first && len >= 1
    ensures |r.board| == Size
    ensures r.done <==> r.overall >= 4
    ensures r.done || (0 <= r.y <= Height && (r.first >= 0 ==> r.len == r.y - r.first && r.len >= 1))
    ensures r.overall > overall || (r.overall == overall && r.y > y && r.board == b)
  {
    if RowFull(b, y) then
      if first < 0 then ScanState(b, y + 1, y, 1, overall, false)
      else ScanState(b, y + 1, first, len + 1, overall, false)
    else if first >= 0 then
      ScanState(Shift(rule, b, first, len), y - len + 1, -1, len, overall + len, overall + len >= 4)
    else ScanState(b, y + 1, first, len, overall, false)
  }

  /** The loop of `clearLines` from row y: the board and the number of rows
      removed when it ends. */
  function Scan(rule: ShiftRule, b: seq<int>, y: int, first: int, len: int, overall: int): (r: Cleared)
    requires |b| == Size && 0 <= y <= Height && 0 <= overall < 4
    requires first >= 0 ==> len == y - first && len >= 1
    ensures r.lines >= overall
    ensures r.lines == overall ==> r.board == b
    ensures |r.board| == Size
    decreases 4 - overall, Height - y
  {
    if y == Height then Cleared(b, overall)
    else if RowFull(b, y) then
      if first < 0 then Scan(rule, b, y + 1, y, 1, overall)
      else Scan(rule, b, y + 1, first, len + 1, overall)
    else if first >= 0 then
      var b' := Shift(rule, b, first, len);
      if overall + len >= 4 then Cleared(b', overall + len)
      else Scan(rule, b', y - len + 1, -1, len, overall + len)
    else Scan(rule, b, y + 1, first, len, overall)
  }

  /** The three steps of the scan at a row below the top, one lemma each. */
  lemma ScanFullRow(rule: ShiftRule, b: seq<int>, y: int, first: int, len: int, overall: int)
    requires |b| == Size && 0 <= y < Height && 0 <= overall < 4
    requires first >= 0 ==> len == y - first && len >= 1
    requires RowFull(b, y)
    ensures Scan(rule, b, y, first, len, overall) ==
      if first < 0 then Scan(rule, b, y + 1, y, 1, overall)
      else Scan(rule, b, y + 1, first, len + 1, overall)
  {
  }

  lemma ScanCollapse(rule: ShiftRule, b: seq<int>, y: int, first: int, len: int, overall: int,
                     b': seq<int>, y': int, overall': int)
    requires |b| == Size && 0 <= y < Height && 0 <= overall < 4
    requires first >= 0 && len == y - first && len >= 1
    requires !RowFull(b, y) && b' == Shift(rule, b, first, len)
    requires y' == y - len + 1 && overall' == overall + len
    ensures overall' >= 4 ==> Scan(rule, b, y, first, len, overall) == Cleared(b', overall')
    ensures overall' < 4 ==> Scan(rule, b, y, first, len, overall) == Scan(rule, b', y', -1, len, overall')
  {
  }

  lemma ScanPass(rule: ShiftRule, b: seq<int>, y: int, first: int, len: int, overall: int)
    requires |b| == Size && 0 <= y < Height && 0 <= overall < 4
    requires first < 0 && !RowFull(b, y)
    ensures Scan(rule, b, y, first, len, overall) == Scan(rule, b, y + 1, first, len, overall)
  {
  }

  /** The scan is its first step followed by the scan from the state that step
      leaves, or ends with that step when it stops the loop. */
  lemma ScanUnfold(rule: ShiftRule, b: seq<int>, y: int, first: int, len: int, overall: int)
    requires |b| == Size && 0 <= y < Height && 0 <= overall < 4
    requires first >= 0 ==> len == y - first && len >= 1
    ensures var s := ScanStep(rule, b, y, first, len, overall);
      s.done ==> Scan(rule, b, y, first, len, overall) == Cleared(s.board, s.overall)
    ensures var s := ScanStep(rule, b, y, first, len, overall);
      !s.done ==> Scan(rule, b, y, first, len, overall) == Scan(rule, s.board, s.y, s.first, s.len, s.overall)
  {
    if RowFull(b, y) {
      ScanUnfoldFull(rule, b, y, first, len, overall);
    } else if first >= 0 {
      ScanUnfoldCollapse(rule, b, y, first, len, overall);
    } else {
      ScanPass(rule, b, y, first, len, overall);
      assert ScanStep(rule, b, y, first, len, overall) == ScanState(b, y + 1, first, len, overall, false);
    }
  }

  lemma ScanUnfoldFull(rule: ShiftRule, b: seq<int>, y: int, first: int, len: int, overall: int)
    requires |b| == Size && 0 <= y < Height && 0 <= overall < 4
    requires first >= 0 ==> len == y - first && len >= 1
    requires RowFull(b, y)
    ensures var s := ScanStep(rule, b, y, first, len, overall);
      !s.done && Scan(rule, b, y, first, len, overall) == Scan(rule, s.board, s.y, s.first, s.len, s.overall)
  {
    ScanFullRow(rule, b, y, first, len, overall);
  }

  lemma ScanUnfoldCollapse(rule: ShiftRule, b: seq<int>, y: int, first: int, len: int, overall: int)
    requires |b| == Size && 0 <= y < Height && 0 <= overall < 4
    requires first >= 0 && len == y - first && len >= 1 && !RowFull(b, y)
    ensures var s := ScanStep(rule, b, y, first, len, overall);
      s.board == Shift(rule, b, first, len) && s.y == y - len + 1 && s.first == -1 && s.overall == overall + len
    ensures overall + len >= 4 ==> Scan(rule, b, y, first, len, overall) == Cleared(Shift(rule, b, first, len), overall + len)
    ensures overall + len < 4 ==>
      Scan(rule, b, y, first, len, overall) == Scan(rule, Shift(rule, b, first, len), y - len + 1, -1, len, overall + len)
  {
    ScanCollapse(rule, b, y, first, len, overall, Shift(rule, b, first, len), y - len + 1, overall + len);
  }

  /** The scan only ever moves cells and writes zeros, so cells stay in range. */
  lemma {:induction false} ScanInRange(rule: ShiftRule, b: seq<int>, y: int, first: int, len: int, overall: int)
    requires |b| == Size && 0 <= y <= Height && 0 <= overall < 4
    requires first >= 0 ==> len == y - first && len >= 1
    requires CellsInRange(b)
    ensures CellsInRange(Scan(rule, b, y, first, len, overall).board)
    decreases 4 - overall, Height - y, 1
  {
    if y == Height {
    } else if RowFull(b, y) {
      ScanFullRow(rule, b, y, first, len, overall);
      if first < 0 {
        ScanInRange(rule, b, y + 1, y, 1, overall);
      } else {
        ScanInRange(rule, b, y + 1, first, len + 1, overall);
      }
    } else if first >= 0 {
      CollapseInRange(rule, b, y, first, len, overall);
    } else {
      ScanPass(rule, b, y, first, len, overall);
      ScanInRange(rule, b, y + 1, first, len, overall);
    }
  }

  lemma {:induction false} CollapseInRange(rule: ShiftRule, b: seq<int>, y: int, first: int, len: int, overall: int)
    requires |b| == Size && 0 <= y < Height && 0 <= overall < 4
    requires first >= 0 && len == y - first && len >= 1
    requires CellsInRange(b) && !RowFull(b, y)
    ensures CellsInRange(Scan(rule, b, y, first, len, overall).board)
    decreases 4 - overall, Height - y, 0
  {
    var b' := Shift(rule, b, first, len);
    ScanCollapse(rule, b, y, first, len, overall, b', y - len + 1, overall + len);
    ShiftInRange(rule, b, first, len);
    if overall + len < 4 {
      ScanInRange(rule, b', y - len + 1, -1, len, overall + len);
    }
  }

  /** What `clearLines` computes from board b, with `shiftLines` as written. */
  function ClearSpec(b: seq<int>): Cleared
    requires |b| == Size
  {
    Scan(AsWritten, b, 0, -1, 0, 0)
  }

  /** What `clearLines` would compute with the intended `shiftLines`. */
  function ClearIntended(b: seq<int>): Cleared
    requires |b| == Size
  {
    Scan(Intended, b, 0, -1, 0, 0)
  }

  /** With no run open and no full row from y up, the scan changes nothing. */
  lemma {:induction false} ScanNoFullRows(rule: ShiftRule, b: seq<int>, y: int, len: int, overall: int)
    requires |b| == Size && 0 <= y <= Height && 0 <= overall < 4
    requires forall r :: y <= r < Height ==> !RowFull(b, r)
    ensures Scan(rule, b, y, -1, len, overall) == Cleared(b, overall)
    decreases Height - y
  {
    if y < Height {
      ScanNoFullRows(rule, b, y + 1, len, overall);
    }
  }

  /** A run of full rows that reaches the top row is never collapsed: a collapse
      happens only when a non-full row follows the run. */
  lemma {:induction false} ScanTopRun(rule: ShiftRule, b: seq<int>, y: int, first: int, len: int, overall: int)
    requires |b| == Size && 0 <= y <= Height && 0 <= overall < 4
    requires first >= 0 && len == y - first && len >= 1
    requires forall r :: y <= r < Height ==> RowFull(b, r)
    ensures Scan(rule, b, y, first, len, overall) == Cleared(b, overall)
    decreases Height - y
  {
    if y < Height {
      ScanTopRun(rule, b, y + 1, first, len + 1, overall);
    }
  }

  /** A completely full board is left as it is and no row is counted. */
  lemma FullBoardNotCleared(rule: ShiftRule, b: seq<int>)
    requires |b| == Size && forall r :: 0 <= r < Height ==> RowFull(b, r)
    ensures Scan(rule, b, 0, -1, 0, 0) == Cleared(b, 0)
  {
    ScanTopRun(rule, b, 1, 0, 1, 0);
  }

  /** With no run open, rows below y0 that are not full are passed over. */
  lemma {:induction false} ScanSkip(rule: ShiftRule, b: seq<int>, y: int, y0: int, len: int, overall: int)
    requires |b| == Size && 0 <= y <= y0 <= Height && 0 <= overall < 4
    requires forall r :: y <= r < y0 ==> !RowFull(b, r)
    ensures Scan(rule, b, y, -1, len, overall) == Scan(rule, b, y0, -1, len, overall)
    decreases y0 - y
  {
    if y < y0 {
      ScanSkip(rule, b, y + 1, y0, len, overall);
    }
  }

  /** A single full row below the top row is collapsed with the scan's shift and
      one line is counted: as written, the rows above it move down by one and
      the top row keeps its contents; as intended, the top row is emptied. */
  lemma ClearSingleRow(rule: ShiftRule, b: seq<int>, y0: nat)
    requires |b| == Size && y0 < Height - 1 && RowFull(b, y0)
    requires forall r :: 0 <= r < Height && r != y0 ==> !RowFull(b, r)
    ensures Scan(rule, b, 0, -1, 0, 0) == Cleared(Shift(rule, b, y0, 1), 1)
  {
    ScanSkip(rule, b, 0, y0, 0, 0);
    assert Scan(rule, b, y0, -1, 0, 0) == Scan(rule, b, y0 + 1, y0, 1, 0);
    var b' := Shift(rule, b, y0, 1);
    assert Scan(rule, b, y0 + 1, y0, 1, 0) == Scan(rule, b', y0 + 1, -1, 1, 1);
    forall r | y0 + 1 <= r < Height
      ensures !RowFull(b', r)
    {
      if rule == AsWritten {
        ShiftedAsWrittenRowFull(b, y0, 1, r);
      } else {
        ShiftedRowFull(b, y0, 1, r);
      }
    }
    ScanNoFullRows(rule, b', y0 + 1, 1, 1);
  }

  /** Every row of TopBlockBoard above the bottom one has an empty cell. */
  lemma TopBlockRows()
    ensures forall r :: 1 <= r < Height ==> !RowFull(TopBlockBoard(), r)
  {
    var b := TopBlockBoard();
    forall r | 1 <= r < Height
      ensures !RowFull(b, r)
    {
      var i := Index(1, r);
      assert Width <= i < Size && i != Index(0, Height - 1);
      assert b[i] == 0;
    }
  }

  /** `clearLines` as written on TopBlockBoard: one row is counted, and the top
      block stays in row 17 and is copied into row 16. */
  lemma ClearTopBlockAsWritten()
    ensures ClearSpec(TopBlockBoard()).lines == 1
    ensures ClearSpec(TopBlockBoard()).board[Index(0, Height - 2)] == 1
    ensures ClearSpec(TopBlockBoard()).board[Index(0, Height - 1)] == 1
  {
    TopBlockRows();
    ClearSingleRow(AsWritten, TopBlockBoard(), 0);
    ShiftAsWrittenDuplicatesTopRow();
  }

  /** The intended clear on TopBlockBoard moves the top block down into row 16 and
      leaves row 17 empty. */
  lemma ClearTopBlockIntended()
    ensures ClearIntended(TopBlockBoard()).lines == 1
    ensures ClearIntended(TopBlockBoard()).board[Index(0, Height - 2)] == 1
    ensures ClearIntended(TopBlockBoard()).board[Index(0, Height - 1)] == 0
  {
    TopBlockRows();
    ClearSingleRow(Intended, TopBlockBoard(), 0);
    ShiftAsWrittenDuplicatesTopRow();
  }

  /** A board whose bottom and top rows are full and whose other rows are empty. */
  function TwoRowBoard(): (b: seq<int>)
    ensures |b| == Size
  {
    seq(Size, i => if i < Width || i >= (Height - 1) * 10 then 1 else 0)
  }

  lemma TwoRowRows()
    ensures RowFull(TwoRowBoard(), 0) && RowFull(TwoRowBoard(), Height - 1)
    ensures forall r :: 1 <= r < Height - 1 ==> !RowFull(TwoRowBoard(), r)
  {
    var b := TwoRowBoard();
    forall r | 1 <= r < Height - 1
      ensures !RowFull(b, r)
    {
      var i := Index(1, r);
      assert Width <= i < (Height - 1) * 10;
      assert b[i] == 0;
    }
  }

  /** `clearLines` as written on TwoRowBoard counts one line (1000 points): the
      collapse of row 0 copies row 17 into row 16 and keeps it in row 17, and the
      run of two full rows that then reaches the top is never collapsed. */
  lemma ClearTwoRowsAsWritten()
    ensures ClearSpec(TwoRowBoard()).lines == 1
    ensures ScoreFor(ClearSpec(TwoRowBoard()).lines) == 1000
  {
    var b := TwoRowBoard();
    TwoRowRows();
    ScanFullRow(AsWritten, b, 0, -1, 0, 0);
    var b' := ShiftedAsWritten(b, 0, 1);
    ScanCollapse(AsWritten, b, 1, 0, 1, 0, b', 1, 1);
    forall r | 1 <= r < Height
      ensures RowFull(b', r) <==> r >= Height - 2
    {
      ShiftedAsWrittenRowFull(b, 0, 1, r);
    }
    ScanSkip(AsWritten, b', 1, Height - 2, 1, 1);
    ScanFullRow(AsWritten, b', Height - 2, -1, 1, 1);
    ScanTopRun(AsWritten, b', Height - 1, Height - 2, 1, 1);
  }

  /** The intended clear on TwoRowBoard removes both full rows (4000 points). */
  lemma ClearTwoRowsIntended()
    ensures ClearIntended(TwoRowBoard()).lines == 2
    ensures ScoreFor(ClearIntended(TwoRowBoard()).lines) == 4000
  {
    var b := TwoRowBoard();
    TwoRowRows();
    ScanFullRow(Intended, b, 0, -1, 0, 0);
    var b' := Shifted(b, 0, 1);
    ScanCollapse(Intended, b, 1, 0, 1, 0, b', 1, 1);
    forall r | 1 <= r < Height
      ensures RowFull(b', r) <==> r == Height - 2
    {
      ShiftedRowFull(b, 0, 1, r);
    }
    SecondRunCollapsed(b');
  }

  /** After the first collapse of the intended clear, the one full row left (row
      16, with the emptied row 17 above it) is collapsed too. */
  lemma SecondRunCollapsed(b: seq<int>)
    requires |b| == Size && forall r :: 1 <= r < Height ==> (RowFull(b, r) <==> r == Height - 2)
    ensures Scan(Intended, b, 1, -1, 1, 1).lines == 2
  {
    ScanSkip(Intended, b, 1, Height - 2, 1, 1);
    ScanFullRow(Intended, b, Height - 2, -1, 1, 1);
    var b' := Shifted(b, Height - 2, 1);
    ScanCollapse(Intended, b, Height - 1, Height - 2, 1, 1, b', Height - 1, 2);
    ShiftedRowFull(b, Height - 2, 1, Height - 1);
    ScanNoFullRows(Intended, b', Height - 1, 1, 2);
  }

  /** Points for one lock that removed n rows. */
  function ScoreFor(n: int): (points: int)
    requires n >= 0
    ensures points >= 100
    ensures n >= 2 ==> points % 2000 == 0 && points / 2000 == n
  {
    if n == 0 then 100 else if n == 1 then 1000 else n * 2000
  }

  /** Removing more rows always earns strictly more points. */
  lemma ScoreStrictlyIncreasing(n: int, m: int)
    requires 0 <= n < m
    ensures ScoreFor(n) < ScoreFor(m)
  {
  }

  lemma ScoreTable()
    ensures ScoreFor(0) == 100 && ScoreFor(1) == 1000 && ScoreFor(2) == 4000
    ensures ScoreFor(3) == 6000 && ScoreFor(4) == 8000
  {
  }
}
