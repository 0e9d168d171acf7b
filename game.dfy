/** The game state and the per-tick simulation of src/main.js: placement
    (pastePiece, fillShape), piece operations (move, rotate), row compaction
    (shiftLines, clearLines), the tick (logic), the key counters of the keydown
    and keyup handlers, and reset (logicSetup, undoState). */
module Game {
  import opened Geometry
  import opened Placement
  import opened Rows

  datatype Option<T> = None | Some(value: T)

  /** The spawn position [3, 17], in quarter cells. */
  const SpawnPos := Vec(3 * Quarter, 17 * Quarter)
  /** Ticks between two gravity steps (`resetTimer`). */
  const FallInterval := 30
  /** The deltas passed to `move`: one whole cell down, a quarter cell sideways. */
  const Down := Vec(0, -Quarter)
  const Left := Vec(-1, 0)
  const Right := Vec(1, 0)
  /** Number of piece types the random choice draws from. */
  const PieceChoices := 7
  /** The keys of `state.keys`, in the order `logic` visits them. */
  const KeyOrder := "wasdeqp"
  const KeySet := set c | c in KeyOrder

  /** `rotate`'s new frame index: one forward or one back, wrapping both ways. */
  function NextRotation(r: int, n: int, toRight: bool): (r': int)
    requires 0 <= r < n
    ensures 0 <= r' < n
    ensures toRight ==> r' == if r == n - 1 then 0 else r + 1
    ensures !toRight ==> r' == if r == 0 then n - 1 else r - 1
  {
    var s := if toRight then r + 1 else r - 1 + n;
    ModWrap(s, n);
    s % n
  }

  /** Reducing a value below twice the modulus subtracts it at most once. */
  lemma ModWrap(s: int, n: int)
    requires 0 < n && 0 <= s < 2 * n
    ensures s % n == if s < n then s else s - n
  {
    if s >= n {
      assert s == n + (s - n);
    }
  }

  /** Rotating one way and then the other returns to the starting frame. */
  lemma RotationRoundTrip(r: int, n: int, toRight: bool)
    requires 0 <= r < n
    ensures NextRotation(NextRotation(r, n, toRight), n, !toRight) == r
  {
  }

  /** A rotate key's counter goes up on every tick it is seen held. */
  function BumpKey(keys: map<char, int>, c: char): (r: map<char, int>)
    ensures r.Keys == keys.Keys
    ensures forall k :: k in keys && k != c ==> r[k] == keys[k]
    ensures c in keys ==> r[c] == if keys[c] > 0 then keys[c] + 1 else keys[c]
  {
    if c in keys && keys[c] > 0 then keys[c := keys[c] + 1] else keys
  }

  /** The key counters after `logic` has visited them. */
  function BumpedKeys(keys: map<char, int>): map<char, int>
  {
    BumpKey(BumpKey(keys, 'e'), 'q')
  }

  /** The part of the state that the key switch of `logic` reads and writes: the
      board, the position, the frame index, the timer and the key counters. */
  datatype Pose = Pose(board: seq<int>, pos: Vec, rot: int, timer: int, keys: map<char, int>)

  /** A pose whose frame can be looked up in the piece and painted on the board. */
  predicate Shaped(s: Pose, piece: PieceType)
  {
    |s.board| == Size && WellFormedPiece(piece) && 0 <= s.rot < |piece|
  }

  /** `move(d)` on a pose: within the same cell only the position changes; across
      cells the frame is lifted and painted at the new cell if it fits there. */
  function Moved(s: Pose, piece: PieceType, fill: int, d: Vec): (r: Pose)
    requires Shaped(s, piece)
    ensures Shaped(r, piece) && r.rot == s.rot && r.timer == s.timer && r.keys == s.keys
  {
    var f := piece[s.rot];
    var p := Add(s.pos, d);
    if !MoveFits(s.board, f, s.pos, d) then s
    else if Trunc(s.pos) == Trunc(p) then s.(pos := p)
    else s.(pos := p, board := Paint(Paint(s.board, f, Trunc(s.pos), 0), f, Trunc(p), fill))
  }

  /** `rotate(toRight)` on a pose: the next frame is tried at the same cell with
      the piece lifted off the board. */
  function Rotated(s: Pose, piece: PieceType, fill: int, toRight: bool): (r: Pose)
    requires Shaped(s, piece)
    ensures Shaped(r, piece) && r.pos == s.pos && r.timer == s.timer && r.keys == s.keys
  {
    var next := NextRotation(s.rot, |piece|, toRight);
    var t := Trunc(s.pos);
    var lifted := Paint(s.board, piece[s.rot], t, 0);
    if Fits(lifted, piece[next], t) then s.(rot := next, board := Paint(lifted, piece[next], t, fill))
    else s
  }

  /** A step down that fits starts above row 0: within one cell it stays in cell
      row 0, and across cells it lands the frame at an anchor row 0 or above. */
  lemma StepDownBound(b: seq<int>, f: Frame, p: Vec)
    requires |b| == Size && WellFormedFrame(f) && MoveFits(b, f, p, Down)
    ensures p.y > 0
  {
    var q := Add(p, Down);
    if Trunc(p) != Trunc(q) {
      FitsIff(Paint(b, f, Trunc(p), 0), f, Trunc(q));
      AnchorRow(f, Trunc(q));
    }
  }

  /** The hard drop's `while (move([0, -1]));` on a pose: step down while a step
      down fits. */
  function Dropped(s: Pose, piece: PieceType, fill: int): (r: Pose)
    requires Shaped(s, piece)
    ensures Shaped(r, piece) && r.rot == s.rot && r.timer == s.timer && r.keys == s.keys
    decreases s.pos.y
  {
    if MoveFits(s.board, piece[s.rot], s.pos, Down) then
      StepDownBound(s.board, piece[s.rot], s.pos);
      Dropped(Moved(s, piece, fill, Down), piece, fill)
    else s
  }

  /** Where the hard drop stops: in the same column, no higher, and with one more
      step down not fitting. */
  lemma {:induction false} DroppedRests(s: Pose, piece: PieceType, fill: int)
    requires Shaped(s, piece)
    ensures var r := Dropped(s, piece, fill);
      !MoveFits(r.board, piece[r.rot], r.pos, Down) && r.pos.x == s.pos.x && r.pos.y <= s.pos.y
    decreases s.pos.y
  {
    if MoveFits(s.board, piece[s.rot], s.pos, Down) {
      StepDownBound(s.board, piece[s.rot], s.pos);
      DroppedRests(Moved(s, piece, fill, Down), piece, fill);
    }
  }

  /** The board after the hard drop is the piece lifted off its starting cell and
      painted at the cell where it stops: every intermediate paint is erased
      again by the next step. */
  lemma {:induction false} DroppedBoard(s: Pose, piece: PieceType, fill: int)
    requires Shaped(s, piece) && 0 <= fill <= MaxFill && CellsInRange(s.board)
    requires AllInBounds(piece[s.rot], Trunc(s.pos)) && Painted(s.board, piece[s.rot], Trunc(s.pos), fill)
    ensures var r := Dropped(s, piece, fill);
      r.board == Paint(Paint(s.board, piece[s.rot], Trunc(s.pos), 0), piece[s.rot], Trunc(r.pos), fill)
    decreases s.pos.y
  {
    var f := piece[s.rot];
    var t := Trunc(s.pos);
    if MoveFits(s.board, f, s.pos, Down) {
      StepDownBound(s.board, f, s.pos);
      var m := Moved(s, piece, fill, Down);
      var t1 := Trunc(m.pos);
      if t1 == t {
        DroppedBoard(m, piece, fill);
      } else {
        var e := Paint(s.board, f, t, 0);
        FitsIff(e, f, t1);
        PaintInRange(s.board, f, t, 0);
        PaintPainted(e, f, t1, fill);
        PaintInRange(e, f, t1, fill);
        DroppedBoard(m, piece, fill);
        PaintErase(e, f, t1, fill);
      }
    } else {
      EraseRestore(s.board, f, t, fill);
    }
  }

  /** A held e or q: the counter goes up, and the piece rotates (q to the right,
      e to the left) only when the counter was exactly 1. */
  function HeldRotate(s: Pose, piece: PieceType, fill: int, key: char): (r: Pose)
    requires Shaped(s, piece) && key in s.keys
    ensures Shaped(r, piece) && r.pos == s.pos && r.timer == s.timer
  {
    var c := s.keys[key];
    var s1 := s.(keys := s.keys[key := c + 1]);
    if c == 1 then Rotated(s1, piece, fill, key == 'q') else s1
  }

  /** A held a, d, s or w: a and d nudge sideways; s steps down and resets the
      timer if the step fits; w does the same step and then drops to the floor.
      Any other key falls to the switch's default and does nothing. */
  function HeldMove(s: Pose, piece: PieceType, fill: int, key: char): (r: Pose)
    requires Shaped(s, piece)
    ensures Shaped(r, piece) && r.rot == s.rot && r.keys == s.keys
    ensures key != 'a' && key != 'd' && key != 's' && key != 'w' ==> r == s
  {
    var fits := MoveFits(s.board, piece[s.rot], s.pos, Down);
    if key == 'a' then Moved(s, piece, fill, Left)
    else if key == 'd' then Moved(s, piece, fill, Right)
    else if key == 's' then
      if fits then Moved(s, piece, fill, Down).(timer := FallInterval) else s
    else if key == 'w' then
      if fits then Dropped(Moved(s, piece, fill, Down), piece, fill).(timer := FallInterval) else s
    else s
  }

  /** One key of the switch in `logic`: a key whose counter is not above 0 is
      skipped. */
  function KeyStep(s: Pose, piece: PieceType, fill: int, key: char): (r: Pose)
    requires Shaped(s, piece)
    ensures Shaped(r, piece)
    ensures key !in s.keys || s.keys[key] <= 0 ==> r == s
  {
    if key !in s.keys || s.keys[key] <= 0 then s
    else if key == 'e' || key == 'q' then HeldRotate(s, piece, fill, key)
    else HeldMove(s, piece, fill, key)
  }

  /** The key loop of `logic` over the first n keys of KeyOrder. */
  function KeysLoop(s: Pose, piece: PieceType, fill: int, n: nat): (r: Pose)
    requires Shaped(s, piece) && n <= |KeyOrder|
    ensures Shaped(r, piece)
  {
    if n == 0 then s else KeyStep(KeysLoop(s, piece, fill, n - 1), piece, fill, KeyOrder[n - 1])
  }

  /** The timer after a held movement key: reset exactly when s or w found its
      first step down fitting, and otherwise unchanged. */
  lemma HeldMoveTimer(s: Pose, piece: PieceType, fill: int, key: char)
    requires Shaped(s, piece)
    ensures HeldMove(s, piece, fill, key).timer ==
      if (key == 's' || key == 'w') && MoveFits(s.board, piece[s.rot], s.pos, Down)
      then FallInterval else s.timer
  {
  }

  /** After w's first step fits, the piece ends in the same column, lower than it
      started, where one more step down does not fit. */
  lemma HeldDropRests(s: Pose, piece: PieceType, fill: int)
    requires Shaped(s, piece) && MoveFits(s.board, piece[s.rot], s.pos, Down)
    ensures var r := HeldMove(s, piece, fill, 'w');
      !MoveFits(r.board, piece[r.rot], r.pos, Down) && r.pos.x == s.pos.x && r.pos.y < s.pos.y
  {
    var m := Moved(s, piece, fill, Down);
    DroppedRests(m, piece, fill);
  }

  /** Only the rotate keys change counters: a held e or q is bumped by one. */
  lemma KeyStepKeys(s: Pose, piece: PieceType, fill: int, key: char)
    requires Shaped(s, piece)
    ensures KeyStep(s, piece, fill, key).keys ==
      if key == 'e' || key == 'q' then BumpKey(s.keys, key) else s.keys
  {
  }

  /** The counters after the first n keys of the loop: e is bumped at the fifth
      key and q at the sixth, and nothing else changes. */
  lemma {:induction false} KeysLoopKeys(s: Pose, piece: PieceType, fill: int, n: nat)
    requires Shaped(s, piece) && n <= |KeyOrder|
    ensures KeysLoop(s, piece, fill, n).keys ==
      if n <= 4 then s.keys else if n == 5 then BumpKey(s.keys, 'e') else BumpedKeys(s.keys)
  {
    if n > 0 {
      KeysLoopKeys(s, piece, fill, n - 1);
      KeyStepKeys(KeysLoop(s, piece, fill, n - 1), piece, fill, KeyOrder[n - 1]);
    }
  }

  /** The key loop leaves the timer as it was or resets it. */
  lemma {:induction false} KeysLoopTimer(s: Pose, piece: PieceType, fill: int, n: nat)
    requires Shaped(s, piece) && n <= |KeyOrder|
    ensures var r := KeysLoop(s, piece, fill, n); r.timer == s.timer || r.timer == FallInterval
  {
    if n > 0 {
      var t := KeysLoop(s, piece, fill, n - 1);
      KeysLoopTimer(s, piece, fill, n - 1);
      HeldMoveTimer(t, piece, fill, KeyOrder[n - 1]);
    }
  }

  /** One key of the switch keeps the frame index unless it is e or q with its
      counter at exactly 1. */
  lemma KeyStepRot(s: Pose, piece: PieceType, fill: int, key: char)
    requires Shaped(s, piece)
    requires (key != 'e' && key != 'q') || key !in s.keys || s.keys[key] != 1
    ensures KeyStep(s, piece, fill, key).rot == s.rot
  {
  }

  /** The key loop changes the frame index only when the e or q counter it starts
      from is exactly 1. */
  lemma {:induction false} KeysLoopRot(s: Pose, piece: PieceType, fill: int, n: nat)
    requires Shaped(s, piece) && n <= |KeyOrder|
    requires ('e' !in s.keys || s.keys['e'] != 1) && ('q' !in s.keys || s.keys['q'] != 1)
    ensures KeysLoop(s, piece, fill, n).rot == s.rot
  {
    if n > 0 {
      var t := KeysLoop(s, piece, fill, n - 1);
      var key := KeyOrder[n - 1];
      KeysLoopRot(s, piece, fill, n - 1);
      if key == 'e' || key == 'q' {
        KeysLoopKeys(s, piece, fill, n - 1);
      }
      KeyStepRot(t, piece, fill, key);
    }
  }

  /** The key loop visits w, a, s, d, e, q and p in that order. The proof only
      unfolds the definition of KeysLoop once per key. */
  lemma KeysLoopOrder(s: Pose, piece: PieceType, fill: int)
    requires Shaped(s, piece)
    ensures KeysLoop(s, piece, fill, |KeyOrder|) ==
      var s1 := KeyStep(s, piece, fill, 'w');
      var s2 := KeyStep(s1, piece, fill, 'a');
      var s3 := KeyStep(s2, piece, fill, 's');
      var s4 := KeyStep(s3, piece, fill, 'd');
      var s5 := KeyStep(s4, piece, fill, 'e');
      var s6 := KeyStep(s5, piece, fill, 'q');
      KeyStep(s6, piece, fill, 'p')
  {
    assert KeysLoop(s, piece, fill, 1) == KeyStep(s, piece, fill, 'w');
    assert KeysLoop(s, piece, fill, 2) == KeyStep(KeysLoop(s, piece, fill, 1), piece, fill, 'a');
    assert KeysLoop(s, piece, fill, 3) == KeyStep(KeysLoop(s, piece, fill, 2), piece, fill, 's');
    assert KeysLoop(s, piece, fill, 4) == KeyStep(KeysLoop(s, piece, fill, 3), piece, fill, 'd');
    assert KeysLoop(s, piece, fill, 5) == KeyStep(KeysLoop(s, piece, fill, 4), piece, fill, 'e');
    assert KeysLoop(s, piece, fill, 6) == KeyStep(KeysLoop(s, piece, fill, 5), piece, fill, 'q');
  }

  /** One call of `logic` with an active piece, on a pose: the result and whether
      the piece locked, with the number of rows its lock cleared. */
  datatype TickResult = TickResult(pose: Pose, locked: bool, lines: int)

  /** The part of `logic` after the spawn: the key loop, then gravity on the pose
      the keys leave (a step down if it fits, otherwise a lock that clears rows
      with `shiftLines` as written), then `state.timer--`. */
  function PlayStep(s: Pose, piece: PieceType, fill: int): (r: TickResult)
    requires Shaped(s, piece)
    ensures Shaped(r.pose, piece) && r.lines >= 0 && (!r.locked ==> r.lines == 0)
  {
    var k := KeysLoop(s, piece, fill, |KeyOrder|);
    if k.timer != 0 then TickResult(k.(timer := k.timer - 1), false, 0)
    else if MoveFits(k.board, piece[k.rot], k.pos, Down) then
      TickResult(Moved(k, piece, fill, Down).(timer := FallInterval - 1), false, 0)
    else
      var c := ClearSpec(k.board);
      TickResult(k.(board := c.board, timer := k.timer - 1), true, c.lines)
  }

  /** After a tick with an active piece the e and q counters are bumped, and the
      timer is one lower than before or one lower than a reset timer. */
  lemma PlayStepCounters(s: Pose, piece: PieceType, fill: int)
    requires Shaped(s, piece)
    ensures var r := PlayStep(s, piece, fill);
      r.pose.keys == BumpedKeys(s.keys) &&
      (r.pose.timer == s.timer - 1 || r.pose.timer == FallInterval - 1)
  {
    KeysLoopKeys(s, piece, fill, |KeyOrder|);
    KeysLoopTimer(s, piece, fill, |KeyOrder|);
  }

  class Game {
    /** The piece catalog `state.pieces`, fixed for the session. */
    const catalog: seq<PieceType>
    const board: array<int>
    var currPiece: Option<PieceType>
    var fillIndex: int
    var rotIdx: int
    var prevPos: Vec
    var timer: int
    var score: int
    var pause: bool
    var gameOver: bool
    var keys: map<char, int>

    /** The state invariant: the board has 180 cells, each 0 or a fill value, the
        catalog has at least the seven types the random choice draws from, the
        key counters are the seven tracked keys and never negative, and the
        active piece, if any, lies inside the board and is painted at its cell. */
    ghost predicate Valid()
      reads this, board
    {
      BoardValid() && WellFormedCatalog(catalog) && |catalog| >= PieceChoices && KeysValid() && score >= 0 && PieceValid()
    }

    ghost predicate BoardValid()
      reads board
    {
      board.Length == Size && CellsInRange(board[..])
    }

    ghost predicate KeysValid()
      reads this`keys
    {
      keys.Keys == KeySet && forall c :: c in keys ==> keys[c] >= 0
    }

    ghost predicate PieceValid()
      reads this`currPiece, this`rotIdx, this`fillIndex, this`timer, this`prevPos, board
    {
      currPiece.Some? ==>
        WellFormedPiece(currPiece.value) && 0 <= rotIdx < |currPiece.value| &&
        1 <= fillIndex <= MaxFill && 0 <= timer <= FallInterval &&
        AllInBounds(currPiece.value[rotIdx], Trunc(prevPos)) &&
        board.Length == Size &&
        Painted(board[..], currPiece.value[rotIdx], Trunc(prevPos), fillIndex)
    }

    /** The frame of the active piece at its current rotation. */
    function CurFrame(): Frame
      reads this
      requires currPiece.Some? && 0 <= rotIdx < |currPiece.value|
    {
      currPiece.value[rotIdx]
    }

    /** The fields the key switch works on, as a pose. */
    ghost function Snapshot(): Pose
      reads this, board
    {
      Pose(board[..], prevPos, rotIdx, timer, keys)
    }

    /** `logicSetup`: an empty board, no active piece, all key counters 0. */
    constructor (catalog: seq<PieceType>)
      requires WellFormedCatalog(catalog) && |catalog| >= PieceChoices
      ensures Valid() && fresh(board)
      ensures this.catalog == catalog
      ensures forall i :: 0 <= i < Size ==> board[i] == 0
      ensures currPiece == None && fillIndex == 0 && rotIdx == 0 && prevPos == Vec(-Quarter, -Quarter)
      ensures score == 0 && !pause && !gameOver
      ensures keys == map c | c in KeyOrder :: 0
    {
      this.catalog := catalog;
      fillIndex := 0;
      board := new int[Size](_ => 0);
      prevPos := Vec(-Quarter, -Quarter);
      currPiece := None;
      rotIdx := 0;
      keys := map c | c in KeyOrder :: 0;
      pause := false;
      gameOver := false;
      score := 0;
      timer := 0;
    }

    /** `undoState`: clears the board and the game status; the key counters and
        the timer are left as they are. */
    method Reset()
      requires Valid()
      modifies this`fillIndex, this`prevPos, this`currPiece, this`rotIdx, this`pause,
        this`gameOver, this`score, board
      ensures Valid()
      ensures forall i :: 0 <= i < Size ==> board[i] == 0
      ensures currPiece == None && fillIndex == 0 && rotIdx == 0 && prevPos == Vec(-Quarter, -Quarter)
      ensures score == 0 && !pause && !gameOver
    {
      fillIndex := 0;
      forall i | 0 <= i < board.Length {
        board[i] := fillIndex;
      }
      prevPos := Vec(-Quarter, -Quarter);
      currPiece := None;
      rotIdx := 0;
      pause := false;
      gameOver := false;
      score := 0;
    }

    /** `resetTimer`: a full gravity interval until the next step down. */
    method ResetTimer()
      modifies this`timer
      ensures timer == FallInterval
    {
      timer := FallInterval;
    }

    /** `fillShape`: paints (or, with fill 0, erases) every occupied cell of the
        frame at the cell of `at`, without any check. */
    method FillShape(graphic: Frame, at: Vec, fill: int)
      requires board.Length == Size && |graphic| == MaskCells
      modifies board
      ensures board[..] == Paint(old(board[..]), graphic, Trunc(at), fill)
    {
      var t := Trunc(at);
      for y := 0 to MaskSide
        invariant board[..] == PaintList(old(board[..]), Staged(graphic, t, 4 * y), fill)
      {
        for x := 0 to MaskSide
          invariant board[..] == PaintList(old(board[..]), Staged(graphic, t, 4 * y + x), fill)
        {
          var k := 4 * y + x;
          var off := Add(t, Vec(x, -y));
          MaskCell(x, y);
          assert off.x == CellX(t, k) && off.y == CellY(t, k);
          PaintStep(old(board[..]), graphic, t, fill, k);
          if graphic[k] == '.' {
            continue;
          }
          Store(Index(off.x, off.y), fill);
        }
      }
    }

    /** A store into the board's typed array: an offset outside the array is
        ignored. */
    method Store(idx: int, fill: int)
      modifies board
      ensures board[..] == if 0 <= idx < board.Length then old(board[..])[idx := fill] else old(board[..])
    {
      if 0 <= idx < board.Length {
        board[idx] := fill;
      }
    }

    /** `pastePiece`: stages the offsets of the frame's occupied cells at the cell of
        `at` and writes `fillIndex` to all of them only if every one lies inside
        the board on a cell that is not > 0. */
    method PastePiece(graphic: Frame, at: Vec) returns (ok: bool)
      requires board.Length == Size && |graphic| == MaskCells
      modifies board
      ensures ok == Fits(old(board[..]), graphic, Trunc(at))
      ensures board[..] == if ok then Paint(old(board[..]), graphic, Trunc(at), fillIndex) else old(board[..])
    {
      var stagedWrites;
      ok, stagedWrites := StageWrites(graphic, Trunc(at));
      if ok {
        Commit(stagedWrites, fillIndex);
      }
    }

    /** The commit loop of `pastePiece`: writes `fill` at each staged offset in
        order. */
    method Commit(stagedWrites: seq<int>, fill: int)
      modifies board
      ensures board[..] == PaintList(old(board[..]), stagedWrites, fill)
    {
      for j := 0 to |stagedWrites|
        invariant board[..] == PaintList(old(board[..]), stagedWrites[..j], fill)
      {
        assert stagedWrites[..j + 1] == stagedWrites[..j] + [stagedWrites[j]];
        PaintListSnoc(old(board[..]), stagedWrites[..j], stagedWrites[j], fill);
        Store(stagedWrites[j], fill);
      }
      assert stagedWrites[..|stagedWrites|] == stagedWrites;
    }

    /** The staging loop of `pastePiece`: walks the mask in order and stops at the
        first occupied cell that lies outside the board or on a cell > 0. When it
        gets through, the staged offsets are those of every occupied cell. */
    method StageWrites(graphic: Frame, t: Vec) returns (ok: bool, stagedWrites: seq<int>)
      requires board.Length == Size && |graphic| == MaskCells
      ensures ok == Fits(board[..], graphic, t)
      ensures ok ==> stagedWrites == Staged(graphic, t, MaskCells)
    {
      ghost var b := board[..];
      stagedWrites := [];
      for y := 0 to MaskSide
        invariant stagedWrites == Staged(graphic, t, 4 * y)
        invariant FitsUpTo(b, graphic, t, 4 * y)
      {
        for x := 0 to MaskSide
          invariant stagedWrites == Staged(graphic, t, 4 * y + x)
          invariant FitsUpTo(b, graphic, t, 4 * y + x)
        {
          var k := 4 * y + x;
          var off := Add(t, Vec(x, -y));
          MaskCell(x, y);
          assert off.x == CellX(t, k) && off.y == CellY(t, k);
          StagedStep(graphic, t, k);
          FitsUpToStep(b, graphic, t, k);
          if graphic[k] == '.' {
            assert CellFits(b, graphic, t, k);
            continue;
          }
          if off.x < 0 || off.x >= Width || off.y < 0 || off.y >= Height {
            assert !CellFits(b, graphic, t, k);
            return false, stagedWrites;
          }
          var boardIdx := Index(off.x, off.y);
          if board[boardIdx] > 0 {
            assert !CellFits(b, graphic, t, k);
            return false, stagedWrites;
          }
          assert CellFits(b, graphic, t, k);
          stagedWrites := stagedWrites + [boardIdx];
        }
      }
      return true, stagedWrites;
    }

    /** `rotate`: lifts the piece off the board and tries the next (or previous)
        frame at the same position, with no kicks; on a collision the old frame is
        painted back and nothing changes. */
    method Rotate(toRight: bool)
      requires Valid() && currPiece.Some?
      modifies this`rotIdx, board
      ensures Valid()
      ensures
        var next := NextRotation(old(rotIdx), |currPiece.value|, toRight);
        var lifted := Paint(old(board[..]), old(CurFrame()), Trunc(prevPos), 0);
        if Fits(lifted, currPiece.value[next], Trunc(prevPos))
        then rotIdx == next && board[..] == Paint(lifted, currPiece.value[next], Trunc(prevPos), fillIndex)
        else rotIdx == old(rotIdx) && board[..] == old(board[..])
      ensures Snapshot() == Rotated(old(Snapshot()), currPiece.value, fillIndex, toRight)
    {
      var newRot := NextRotation(rotIdx, |currPiece.value|, toRight);
      var t := Trunc(prevPos);
      var f := currPiece.value[rotIdx];
      var g := currPiece.value[newRot];
      ghost var b0 := board[..];
      FillShape(f, prevPos, 0);
      ghost var e := board[..];
      var ok := PastePiece(g, prevPos);
      if ok {
        FitsIff(e, g, t);
        PaintPainted(e, g, t, fillIndex);
        rotIdx := newRot;
        return;
      }
      FillShape(f, prevPos, fillIndex);
      EraseRestore(b0, f, t, fillIndex);
    }

    /** `move`: a delta that stays within the same cell only updates the position;
        otherwise the piece is lifted off, pasted at the new cell, and on a
        collision painted back at the old one. */
    method Move(d: Vec) returns (ok: bool)
      requires Valid() && currPiece.Some?
      modifies this`prevPos, board
      ensures Valid()
      ensures ok == MoveFits(old(board[..]), CurFrame(), old(prevPos), d)
      ensures prevPos == if ok then Add(old(prevPos), d) else old(prevPos)
      ensures board[..] ==
        if ok && Trunc(old(prevPos)) != Trunc(prevPos)
        then Paint(Paint(old(board[..]), CurFrame(), Trunc(old(prevPos)), 0), CurFrame(), Trunc(prevPos), fillIndex)
        else old(board[..])
    {
      var newPos := Add(prevPos, d);
      if Eq(Trunc(prevPos), Trunc(newPos)) {
        prevPos := newPos;
        return true;
      }
      var f := currPiece.value[rotIdx];
      var t := Trunc(prevPos);
      ghost var b0 := board[..];
      FillShape(f, prevPos, 0);
      ghost var e := board[..];
      ok := PastePiece(f, newPos);
      if ok {
        FitsIff(e, f, Trunc(newPos));
        PaintPainted(e, f, Trunc(newPos), fillIndex);
        PaintInRange(e, f, Trunc(newPos), fillIndex);
        prevPos := newPos;
        return;
      }
      FillShape(f, prevPos, fillIndex);
      EraseRestore(b0, f, t, fillIndex);
    }

    /** The hard drop's `while (move([0, -1]));`: it ends where one more step down
        would fail, and the board then holds the piece lifted off its starting
        cell and painted at the cell where it stopped. */
    method DropToFloor()
      requires Valid() && currPiece.Some?
      modifies this`prevPos, board
      ensures Valid()
      ensures Snapshot() == Dropped(old(Snapshot()), currPiece.value, fillIndex)
      ensures !MoveFits(board[..], CurFrame(), prevPos, Down)
      ensures prevPos.x == old(prevPos.x) && prevPos.y <= old(prevPos.y)
      ensures board[..] ==
        Paint(Paint(old(board[..]), CurFrame(), Trunc(old(prevPos)), 0), CurFrame(), Trunc(prevPos), fillIndex)
    {
      ghost var s0 := Snapshot();
      ghost var target := Dropped(s0, currPiece.value, fillIndex);
      DroppedBoard(s0, currPiece.value, fillIndex);
      var moved := Move(Down);
      assert Snapshot() == Moved(s0, currPiece.value, fillIndex, Down);
      while moved
        invariant Valid()
        invariant prevPos.x == old(prevPos.x) && prevPos.y <= old(prevPos.y)
        invariant !moved ==> !MoveFits(board[..], CurFrame(), prevPos, Down)
        invariant Dropped(Snapshot(), currPiece.value, fillIndex) == target
        decreases prevPos.y + (if moved then 8 else 0)
      {
        ghost var s := Snapshot();
        AnchorRow(CurFrame(), Trunc(prevPos));
        moved := Move(Down);
        assert Snapshot() == Moved(s, currPiece.value, fillIndex, Down);
      }
    }

    /** `shiftLines` as evidently intended: the loop runs over every row from
        `line` up, so that the zero-fill branch clears the rows left without a row
        to take. */
    method ShiftLines(line: int, len: int)
      requires board.Length == Size && 0 <= line && 0 <= len
      modifies board
      ensures board[..] == Shifted(old(board[..]), line, len)
    {
      ghost var s := Shifted(old(board[..]), line, len);
      var y := line;
      while y < Height
        invariant line <= y
        invariant forall i :: line * 10 <= i < y * 10 && i < Size ==> board[i] == s[i]
        invariant forall i :: 0 <= i < Size && !(line * 10 <= i < y * 10) ==> board[i] == old(board[i])
      {
        ShiftedRow(old(board[..]), line, len, y);
        var to := Index(0, y);
        if y + len >= Height {
          forall i | to <= i < to + Width {
            board[i] := 0;
          }
        } else {
          var from := Index(0, y + len);
          forall i | to <= i < to + Width {
            board[i] := board[i - to + from];
          }
        }
        assert forall i :: to <= i < to + Width ==> board[i] == s[i];
        y := y + 1;
      }
      RowsBelow(line);
      assert forall i :: 0 <= i < Size ==> board[i] == s[i];
    }

    /** `shiftLines` as written, which ClearLines calls: the loop stops at row
        18 - len, so its zero-fill branch cannot be taken and the top `len` rows
        keep their contents. */
    method ShiftLinesAsWritten(line: int, len: int)
      requires board.Length == Size && 0 <= line && 0 <= len
      modifies board
      ensures board[..] == ShiftedAsWritten(old(board[..]), line, len)
    {
      ghost var s := ShiftedAsWritten(old(board[..]), line, len);
      var y := line;
      while y < Height - len
        invariant line <= y
        invariant forall i :: line * 10 <= i < y * 10 && i < Size ==> board[i] == s[i]
        invariant forall i :: 0 <= i < Size && !(line * 10 <= i < y * 10) ==> board[i] == old(board[i])
      {
        ShiftedAsWrittenRow(old(board[..]), line, len, y);
        var to := Index(0, y);
        if y + len >= Height {
          assert false;
        } else {
          var from := Index(0, y + len);
          forall i | to <= i < to + Width {
            board[i] := board[i - to + from];
          }
        }
        assert forall i :: to <= i < to + Width ==> board[i] == s[i];
        y := y + 1;
      }
      RowsBelow(line);
      RowsAbove(Height - len);
      forall i | 0 <= i < Size
        ensures board[i] == s[i]
      {
        if i >= y * 10 {
          assert i / 10 >= Height - len;
        }
      }
    }

    /** `clearLines`: scans rows bottom-up, collapses each run of full rows that a
        non-full row ends with `shiftLines` as written, rewinds to just above the
        run's start, and stops once 4 or more rows were removed; returns the
        number of rows removed. */
    method ClearLines() returns (overall: int)
      requires board.Length == Size
      modifies board
      ensures board[..] == ClearSpec(old(board[..])).board
      ensures overall == ClearSpec(old(board[..])).lines
    {
      ghost var target := ClearSpec(board[..]);
      overall := 0;
      var firstLine := -1;
      var len := 0;
      var y := 0;
      while y < Height
        invariant 0 <= y <= Height && 0 <= overall < 4
        invariant firstLine >= 0 ==> len == y - firstLine && len >= 1
        invariant Scan(AsWritten, board[..], y, firstLine, len, overall) == target
        decreases 4 - overall, Height - y
      {
        ScanUnfold(AsWritten, board[..], y, firstLine, len, overall);
        var done;
        y, firstLine, len, overall, done := ScanRow(y, firstLine, len, overall);
        if done {
          break;
        }
      }
    }

    /** One pass of the loop body of `clearLines` at row y: a full row opens or
        extends the run; a non-full row collapses an open run with `shiftLines`
        as written, and the loop stops once 4 or more rows were removed (`done`);
        otherwise the scan moves on to the next row. */
    method ScanRow(y: int, first: int, len: int, overall: int)
      returns (y': int, first': int, len': int, overall': int, done: bool)
      requires board.Length == Size && 0 <= y < Height && 0 <= overall < 4
      requires first >= 0 ==> len == y - first && len >= 1
      modifies board
      ensures ScanState(board[..], y', first', len', overall', done) ==
        ScanStep(AsWritten, old(board[..]), y, first, len, overall)
    {
      if RowFull(board[..], y) {
        if first < 0 {
          return y + 1, y, 1, overall, false;
        }
        return y + 1, first, len + 1, overall, false;
      }
      if first >= 0 {
        ShiftLinesAsWritten(first, len);
        return y - len + 1, -1, len, overall + len, overall + len >= 4;
      }
      return y + 1, first, len, overall, false;
    }

    /** The spawn part of `logic`: the chosen piece type becomes the active piece at
        (3, 17) with frame 0 and a full timer. If it does not fit, it is painted
        anyway and the game is over. */
    method Spawn(pieceIndex: nat) returns (ok: bool)
      requires Valid() && currPiece.None? && pieceIndex < PieceChoices
      modifies this`currPiece, this`fillIndex, this`rotIdx, this`prevPos, this`timer, this`gameOver, board
      ensures Valid()
      ensures currPiece == Some(catalog[pieceIndex]) && fillIndex == pieceIndex + 1
      ensures rotIdx == 0 && prevPos == SpawnPos && timer == FallInterval
      ensures ok == Fits(old(board[..]), catalog[pieceIndex][0], Trunc(SpawnPos))
      ensures board[..] == Paint(old(board[..]), catalog[pieceIndex][0], Trunc(SpawnPos), pieceIndex + 1)
      ensures gameOver == (old(gameOver) || !ok)
    {
      currPiece := Some(catalog[pieceIndex]);
      fillIndex := pieceIndex + 1;
      rotIdx := 0;
      prevPos := SpawnPos;
      ResetTimer();
      var f := currPiece.value[rotIdx];
      ghost var t := Trunc(SpawnPos);
      assert t == Vec(3, 17);
      SpawnInBounds(f);
      ghost var b0 := board[..];
      ok := PastePiece(f, prevPos);
      if !ok {
        FillShape(f, prevPos, fillIndex);
        gameOver := true;
      }
      PaintPainted(b0, f, t, fillIndex);
      PaintInRange(b0, f, t, fillIndex);
      assert board[..] == Paint(b0, f, t, fillIndex);
    }

    /** The `switch` of `logic` for one held key (its counter is above 0): e and q
        go to RotateKey, the others to MoveKey. */
    method PressKey(key: char)
      requires Valid() && currPiece.Some? && key in keys && keys[key] > 0
      modifies this`keys, this`prevPos, this`rotIdx, this`timer, board
      ensures Valid()
      ensures keys == if key == 'e' || key == 'q' then BumpKey(old(keys), key) else old(keys)
      ensures timer == old(timer) || timer == FallInterval
      ensures !((key == 'e' || key == 'q') && old(keys)[key] == 1) ==> rotIdx == old(rotIdx)
      ensures key == 'e' || key == 'q' || key == 'p' ==> prevPos == old(prevPos)
      ensures key == 's' || key == 'w' ==>
        timer == if MoveFits(old(board[..]), CurFrame(), old(prevPos), Down) then FallInterval else old(timer)
      ensures key == 'w' && MoveFits(old(board[..]), CurFrame(), old(prevPos), Down) ==>
        !MoveFits(board[..], CurFrame(), prevPos, Down) && prevPos.x == old(prevPos.x) && prevPos.y < old(prevPos.y)
      ensures Snapshot() == KeyStep(old(Snapshot()), currPiece.value, fillIndex, key)
    {
      if key == 'e' || key == 'q' {
        RotateKey(key);
      } else {
        MoveKey(key);
      }
    }

    /** A held rotate key: its counter is bumped every tick, and the piece rotates
        (e to the left, q to the right) only when the counter was exactly 1. */
    method RotateKey(key: char)
      requires Valid() && currPiece.Some? && (key == 'e' || key == 'q') && keys[key] > 0
      modifies this`keys, this`rotIdx, board
      ensures Valid()
      ensures keys == BumpKey(old(keys), key)
      ensures old(keys)[key] != 1 ==> rotIdx == old(rotIdx) && board[..] == old(board[..])
      ensures old(keys)[key] == 1 ==>
        var next := NextRotation(old(rotIdx), |currPiece.value|, key == 'q');
        var lifted := Paint(old(board[..]), old(CurFrame()), Trunc(prevPos), 0);
        if Fits(lifted, currPiece.value[next], Trunc(prevPos))
        then rotIdx == next && board[..] == Paint(lifted, currPiece.value[next], Trunc(prevPos), fillIndex)
        else rotIdx == old(rotIdx) && board[..] == old(board[..])
      ensures Snapshot() == HeldRotate(old(Snapshot()), currPiece.value, fillIndex, key)
    {
      var count := keys[key];
      BumpCounter(key);
      if count == 1 {
        Rotate(key == 'q');
      }
    }

    /** The postfix `state.keys[key]++` of a held key. */
    method BumpCounter(key: char)
      requires Valid() && key in keys
      modifies this`keys
      ensures Valid()
      ensures keys == old(keys)[key := old(keys)[key] + 1]
    {
      keys := keys[key := keys[key] + 1];
      assert KeysValid();
    }

    /** A held movement key: a and d nudge a quarter cell; s steps down; w steps
        down and, if that worked, drops to the floor. A successful s or w resets
        the timer; p and any other key do nothing here. */
    method MoveKey(key: char)
      requires Valid() && currPiece.Some?
      modifies this`prevPos, this`timer, board
      ensures Valid()
      ensures timer == old(timer) || timer == FallInterval
      ensures key != 'a' && key != 'd' && key != 's' && key != 'w' ==>
        prevPos == old(prevPos) && timer == old(timer) && board[..] == old(board[..])
      ensures key == 'a' ==>
        timer == old(timer) &&
        prevPos == if MoveFits(old(board[..]), CurFrame(), old(prevPos), Left) then Add(old(prevPos), Left) else old(prevPos)
      ensures key == 'd' ==>
        timer == old(timer) &&
        prevPos == if MoveFits(old(board[..]), CurFrame(), old(prevPos), Right) then Add(old(prevPos), Right) else old(prevPos)
      ensures key == 's' ==>
        prevPos == if MoveFits(old(board[..]), CurFrame(), old(prevPos), Down) then Add(old(prevPos), Down) else old(prevPos)
      ensures key == 's' || key == 'w' ==>
        timer == if MoveFits(old(board[..]), CurFrame(), old(prevPos), Down) then FallInterval else old(timer)
      ensures key == 'w' && MoveFits(old(board[..]), CurFrame(), old(prevPos), Down) ==>
        !MoveFits(board[..], CurFrame(), prevPos, Down) && prevPos.x == old(prevPos.x) && prevPos.y < old(prevPos.y)
      ensures Snapshot() == HeldMove(old(Snapshot()), currPiece.value, fillIndex, key)
    {
      ghost var s0 := Snapshot();
      HeldMoveTimer(s0, currPiece.value, fillIndex, key);
      if key == 'a' {
        var _ := Move(Left);
        assert Snapshot() == Moved(s0, currPiece.value, fillIndex, Left);
      } else if key == 'd' {
        var _ := Move(Right);
        assert Snapshot() == Moved(s0, currPiece.value, fillIndex, Right);
      } else if key == 's' {
        StepKey();
      } else if key == 'w' {
        if MoveFits(board[..], CurFrame(), prevPos, Down) {
          HeldDropRests(s0, currPiece.value, fillIndex);
        }
        DropKey();
      }
    }

    /** The s key: one step down, and a reset timer if it fits. */
    method StepKey()
      requires Valid() && currPiece.Some?
      modifies this`prevPos, this`timer, board
      ensures Valid()
      ensures Snapshot() == HeldMove(old(Snapshot()), currPiece.value, fillIndex, 's')
    {
      ghost var s0 := Snapshot();
      var moved := Move(Down);
      assert Snapshot() == Moved(s0, currPiece.value, fillIndex, Down);
      if moved {
        ResetTimer();
      }
    }

    /** The w key: one step down and, if it fits, the drop to the floor and a reset
        timer. */
    method DropKey()
      requires Valid() && currPiece.Some?
      modifies this`prevPos, this`timer, board
      ensures Valid()
      ensures Snapshot() == HeldMove(old(Snapshot()), currPiece.value, fillIndex, 'w')
    {
      ghost var s0 := Snapshot();
      var moved := Move(Down);
      assert Snapshot() == Moved(s0, currPiece.value, fillIndex, Down);
      if moved {
        DropToFloor();
        ResetTimer();
      }
    }

    /** The key loop of `logic`: visits the counters in the order w, a, s, d, e, q,
        p and presses each one above 0. */
    method DispatchKeys()
      requires Valid() && currPiece.Some?
      modifies this`keys, this`prevPos, this`rotIdx, this`timer, board
      ensures Valid()
      ensures keys == BumpedKeys(old(keys))
      ensures timer == old(timer) || timer == FallInterval
      ensures old(keys)['e'] != 1 && old(keys)['q'] != 1 ==> rotIdx == old(rotIdx)
      ensures Snapshot() == KeysLoop(old(Snapshot()), currPiece.value, fillIndex, |KeyOrder|)
    {
      for i := 0 to |KeyOrder|
        invariant Snapshot() == KeysLoop(old(Snapshot()), currPiece.value, fillIndex, i)
        invariant Valid()
      {
        VisitKey(KeyOrder[i]);
      }
      ghost var s0 := old(Snapshot());
      KeysLoopKeys(s0, currPiece.value, fillIndex, |KeyOrder|);
      KeysLoopTimer(s0, currPiece.value, fillIndex, |KeyOrder|);
      if s0.keys['e'] != 1 && s0.keys['q'] != 1 {
        KeysLoopRot(s0, currPiece.value, fillIndex, |KeyOrder|);
      }
    }

    /** One iteration of the key loop of `logic`: a key whose counter is above 0
        is pressed, and any other is skipped. */
    method VisitKey(key: char)
      requires Valid() && currPiece.Some? && key in keys
      modifies this`keys, this`prevPos, this`rotIdx, this`timer, board
      ensures Valid()
      ensures Snapshot() == KeyStep(old(Snapshot()), currPiece.value, fillIndex, key)
    {
      if keys[key] > 0 {
        PressKey(key);
      }
    }

    /** Gravity and lock in `logic`: when the timer is 0 the piece steps down; if it
        cannot, it stays where it is, full rows are cleared and the score rises. */
    method Gravity()
      requires Valid() && currPiece.Some?
      modifies this`prevPos, this`timer, this`currPiece, this`score, board
      ensures Valid()
      ensures timer == old(timer) || timer == FallInterval
      ensures currPiece == old(currPiece) || (currPiece == None && score > old(score))
      ensures old(timer) != 0 ==>
        timer == old(timer) && currPiece == old(currPiece) && score == old(score) &&
        prevPos == old(prevPos) && board[..] == old(board[..])
      ensures old(timer) == 0 && MoveFits(old(board[..]), old(CurFrame()), old(prevPos), Down) ==>
        timer == FallInterval && currPiece == old(currPiece) && score == old(score) &&
        prevPos == Add(old(prevPos), Down) &&
        board[..] == Paint(Paint(old(board[..]), CurFrame(), Trunc(old(prevPos)), 0), CurFrame(), Trunc(prevPos), fillIndex)
      ensures old(timer) == 0 && MoveFits(old(board[..]), old(CurFrame()), old(prevPos), Down) ==>
        Snapshot() == Moved(old(Snapshot()), old(currPiece).value, fillIndex, Down).(timer := FallInterval)
      ensures old(timer) == 0 && !MoveFits(old(board[..]), old(CurFrame()), old(prevPos), Down) ==>
        currPiece == None && prevPos == old(prevPos) && timer == old(timer) &&
        board[..] == ClearSpec(old(board[..])).board &&
        score == old(score) + ScoreFor(ClearSpec(old(board[..])).lines)
    {
      if timer == 0 {
        ghost var b0 := board[..];
        var moved := Move(Down);
        if moved {
          if Trunc(old(prevPos)) == Trunc(prevPos) {
            EraseRestore(b0, CurFrame(), Trunc(prevPos), fillIndex);
          }
          ResetTimer();
        } else {
          currPiece := None;
          ScanInRange(AsWritten, board[..], 0, -1, 0, 0);
          var numLines := ClearLines();
          score := score + ScoreFor(numLines);
        }
      }
    }

    /** `logic`, one tick: nothing happens while paused or after game over;
        otherwise a piece is spawned if there is none (a failed spawn ends the
        tick), the keys are dispatched, gravity applies, and the timer goes down
        by one. `pieceIndex` stands for the random choice `trunc(random() * 6.5)`. */
    method Tick(pieceIndex: nat)
      requires Valid() && pieceIndex < PieceChoices
      modifies this, board
      ensures Valid()
      ensures old(pause) || old(gameOver) ==> unchanged(this) && board[..] == old(board[..])
      ensures pause == old(pause)
      ensures score >= old(score)
      ensures score == old(score) ||
        (currPiece.None? && exists n :: 0 <= n && score == old(score) + ScoreFor(n))
      ensures gameOver ==> old(gameOver) || old(currPiece).None?
      ensures !old(pause) && !old(gameOver) && old(currPiece).None? ==>
        fillIndex == pieceIndex + 1 &&
        (gameOver <==> !Fits(old(board[..]), catalog[pieceIndex][0], Trunc(SpawnPos)))
      ensures !old(pause) && !old(gameOver) && old(currPiece).None? && gameOver ==>
        currPiece == Some(catalog[pieceIndex]) && rotIdx == 0 && prevPos == SpawnPos &&
        timer == FallInterval && keys == old(keys) &&
        board[..] == Paint(old(board[..]), catalog[pieceIndex][0], Trunc(SpawnPos), pieceIndex + 1)
      ensures !old(pause) && !old(gameOver) && old(currPiece).None? && !gameOver ==>
        currPiece == Some(catalog[pieceIndex]) && timer == FallInterval - 1 && keys == BumpedKeys(old(keys))
      ensures !old(pause) && !old(gameOver) && old(currPiece).Some? ==>
        !gameOver && keys == BumpedKeys(old(keys)) &&
        (timer == old(timer) - 1 || timer == FallInterval - 1)
      ensures !old(pause) && !old(gameOver) && old(currPiece).Some? ==>
        var o := PlayStep(old(Snapshot()), old(currPiece).value, old(fillIndex));
        Snapshot() == o.pose && currPiece == (if o.locked then None else old(currPiece)) &&
        score == old(score) + (if o.locked then ScoreFor(o.lines) else 0)
      ensures !old(pause) && !old(gameOver) && old(currPiece).None? && !gameOver ==>
        var spawned := Pose(Paint(old(board[..]), catalog[pieceIndex][0], Trunc(SpawnPos), pieceIndex + 1),
                            SpawnPos, 0, FallInterval, old(keys));
        var o := PlayStep(spawned, catalog[pieceIndex], pieceIndex + 1);
        Snapshot() == o.pose && currPiece == (if o.locked then None else Some(catalog[pieceIndex])) &&
        score == old(score) + (if o.locked then ScoreFor(o.lines) else 0)
    {
      if pause || gameOver {
        return;
      }
      if currPiece.None? {
        var ok := Spawn(pieceIndex);
        if !ok {
          return;
        }
      }
      Play();
    }

    /** The part of `logic` that runs with an active piece: the keys are
        dispatched, gravity applies, and the timer goes down by one. */
    method Play()
      requires Valid() && currPiece.Some?
      modifies this`keys, this`prevPos, this`rotIdx, this`timer, this`currPiece, this`score, board
      ensures Valid()
      ensures keys == BumpedKeys(old(keys))
      ensures timer == old(timer) - 1 || timer == FallInterval - 1
      ensures score == old(score) ||
        (currPiece.None? && exists n :: 0 <= n && score == old(score) + ScoreFor(n))
      ensures score >= old(score)
      ensures old(timer) != 0 ==> currPiece == old(currPiece) && score == old(score)
      ensures var o := PlayStep(old(Snapshot()), old(currPiece).value, fillIndex);
        Snapshot() == o.pose && currPiece == (if o.locked then None else old(currPiece)) &&
        score == old(score) + (if o.locked then ScoreFor(o.lines) else 0)
    {
      DispatchKeys();
      ghost var settled := board[..];
      ghost var before := score;
      Gravity();
      timer := timer - 1;
      if score != before {
        assert currPiece.None? && score == before + ScoreFor(ClearSpec(settled).lines);
      }
    }

    /** The keydown handler: bumps the counter of a tracked key; whenever the p
        counter then reads exactly 1, pause flips. */
    method KeyDown(key: char)
      requires Valid()
      modifies this`keys, this`pause
      ensures Valid()
      ensures keys == if key in old(keys) then old(keys)[key := old(keys)[key] + 1] else old(keys)
      ensures pause == if keys['p'] == 1 then !old(pause) else old(pause)
    {
      if key in keys {
        keys := keys[key := keys[key] + 1];
      }
      if keys['p'] == 1 {
        pause := !pause;
      }
    }

    /** The keyup handler: the counter of a tracked key drops to 0. */
    method KeyUp(key: char)
      requires Valid()
      modifies this`keys
      ensures Valid()
      ensures keys == if key in old(keys) then old(keys)[key := 0] else old(keys)
    {
      if key in keys {
        keys := keys[key := 0];
      }
    }
  }
}
