/** The game session (app.js, sections 3, 9, 10, 11, 12 and 13): the module-level state of
    one game, the player's two click handlers, the AI's placement and selection steps, the
    end-of-game check and the reset. */
module Session {
  import opened Pieces
  import opened Win
  import opened Ai

  /** The running record of results, kept across games. */
  datatype Score = Score(youWin: nat, aiWin: nat, draw: nat)

  /** Who made the placement that `checkWin` examines. */
  datatype Player = You | Computer

  // ---------------------------------------------------------------------------
  // The board/usage invariant, on snapshots

  /** How many entries of `u` are set. */
  function CountTrue(u: seq<bool>): (n: nat)
    ensures n <= |u|
  {
    if |u| == 0 then 0 else CountTrue(u[..|u| - 1]) + (if u[|u| - 1] then 1 else 0)
  }

  /** How many cells of `b` hold a piece. */
  function CountFilled(b: seq<Cell>): (n: nat)
    ensures n <= |b|
  {
    if |b| == 0 then 0 else CountFilled(b[..|b| - 1]) + (if b[|b| - 1].Some? then 1 else 0)
  }

  /** Every piece has been used (`used.every(v => v)`). */
  predicate AllUsed(u: Usage)
  {
    forall id: PieceId :: u[id]
  }

  /** `used[id]` holds exactly when piece `id` is on the board, no piece is on two cells,
      and so as many pieces are used as cells are filled. */
  ghost predicate Consistent(b: Board, u: Usage)
  {
    (forall id: PieceId :: u[id] <==> exists c: CellIndex :: b[c] == Some(id)) &&
    (forall c: CellIndex, d: CellIndex :: b[c].Some? && b[c] == b[d] ==> c == d) &&
    CountTrue(u) == CountFilled(b)
  }

  lemma {:induction false} CountTrueSet(u: seq<bool>, p: nat)
    requires p < |u| && !u[p]
    decreases |u|
    ensures CountTrue(u[p := true]) == CountTrue(u) + 1
  {
    var u' := u[p := true];
    assert u'[..|u'| - 1] == if p == |u| - 1 then u[..|u| - 1] else u[..|u| - 1][p := true];
    if p < |u| - 1 {
      CountTrueSet(u[..|u| - 1], p);
    }
  }

  lemma {:induction false} CountFilledSet(b: seq<Cell>, i: nat, c: Cell)
    requires i < |b| && b[i].None? && c.Some?
    decreases |b|
    ensures CountFilled(b[i := c]) == CountFilled(b) + 1
  {
    var b' := b[i := c];
    assert b'[..|b'| - 1] == if i == |b| - 1 then b[..|b| - 1] else b[..|b| - 1][i := c];
    if i < |b| - 1 {
      CountFilledSet(b[..|b| - 1], i, c);
    }
  }

  /** A sequence with every entry set counts all of them, and one with an unset entry
      counts fewer. */
  lemma {:induction false} CountTrueAll(u: seq<bool>)
    decreases |u|
    ensures CountTrue(u) == |u| <==> forall k :: 0 <= k < |u| ==> u[k]
  {
    if |u| > 0 {
      CountTrueAll(u[..|u| - 1]);
      var init := u[..|u| - 1];
      assert forall k :: 0 <= k < |u| - 1 ==> u[k] == init[k];
    }
  }

  /** A board is full when every cell is filled. */
  lemma {:induction false} CountFilledAll(b: seq<Cell>)
    decreases |b|
    ensures CountFilled(b) == |b| <==> forall k :: 0 <= k < |b| ==> b[k].Some?
  {
    if |b| > 0 {
      CountFilledAll(b[..|b| - 1]);
      var init := b[..|b| - 1];
      assert forall k :: 0 <= k < |b| - 1 ==> b[k] == init[k];
    }
  }

  /** The empty board with no piece used is consistent. */
  lemma EmptyConsistent()
    ensures Consistent(EmptyBoard, NoneUsed)
  {
    assert forall k :: 0 <= k < |NoneUsed| ==> !NoneUsed[k];
    assert forall k :: 0 <= k < |EmptyBoard| ==> EmptyBoard[k].None?;
    CountTrueZero(NoneUsed);
    CountFilledZero(EmptyBoard);
  }

  lemma {:induction false} CountTrueZero(u: seq<bool>)
    requires forall k :: 0 <= k < |u| ==> !u[k]
    decreases |u|
    ensures CountTrue(u) == 0
  {
    if |u| > 0 {
      CountTrueZero(u[..|u| - 1]);
    }
  }

  lemma {:induction false} CountFilledZero(b: seq<Cell>)
    requires forall k :: 0 <= k < |b| ==> b[k].None?
    decreases |b|
    ensures CountFilled(b) == 0
  {
    if |b| > 0 {
      CountFilledZero(b[..|b| - 1]);
    }
  }

  /** Placing an unused piece on an empty cell keeps the board consistent after `used` is
      updated, and uses one more piece. */
  lemma PlacementKeepsConsistent(b: Board, u: Usage, i: CellIndex, p: PieceId)
    requires Consistent(b, u) && b[i].None? && !u[p]
    ensures Consistent(b[i := Some(p)], u[p := true])
    ensures CountTrue(u[p := true]) == CountTrue(u) + 1
  {
    var b', u' := b[i := Some(p)], u[p := true];
    CountTrueSet(u, p);
    CountFilledSet(b, i, Some(p));
    forall id: PieceId
      ensures u'[id] <==> exists c: CellIndex :: b'[c] == Some(id)
    {
      if id == p {
        assert b'[i] == Some(p);
      } else if u[id] {
        var c: CellIndex :| b[c] == Some(id);
        assert b'[c] == Some(id);
      } else {
        forall c: CellIndex
          ensures b'[c] != Some(id)
        {
          if c != i {
            assert b'[c] == b[c];
          }
        }
      }
    }
    assert forall e: CellIndex :: e != i ==> b'[e] == b[e] && b[e] != Some(p);
    forall c: CellIndex, d: CellIndex | b'[c].Some? && b'[c] == b'[d]
      ensures c == d
    {
      if c != i && d != i {
        assert b[c] == b[d];
      }
    }
  }

  /** While a piece is unused, the board has an empty cell (sixteen cells, sixteen pieces). */
  lemma UnusedPieceLeavesEmptyCell(b: Board, u: Usage, q: PieceId)
    requires Consistent(b, u) && !u[q]
    ensures exists c :: 0 <= c < 16 && b[c].None?
  {
    CountTrueAll(u);
    CountFilledAll(b);
  }

  /** The game is over exactly when a line wins or every piece has been used. */
  ghost predicate Ended(b: Board, u: Usage)
  {
    SimulateWin(b) || AllUsed(u)
  }

  /** The property names an object literal inherits from `Object.prototype` (section 20.1.3
      and Annex B.2.2 of ECMA-262). `AI_PRESET[name]` is truthy for each of them. */
  const InheritedNames: set<string> :=
    {"constructor", "hasOwnProperty", "isPrototypeOf", "propertyIsEnumerable",
     "toLocaleString", "toString", "valueOf", "__proto__", "__defineGetter__",
     "__defineSetter__", "__lookupGetter__", "__lookupSetter__"}

  /** The preset key `setDifficulty` keeps: `name` itself when `AI_PRESET[name]` is truthy,
      that is for the two presets and for the inherited property names, and `"normal"`
      otherwise. Only the hardcore preset is deterministic. */
  function PresetKey(name: string): (key: string)
    ensures key == name || key == "normal"
    ensures key == name <==> name == "hardcore" || name == "normal" || name in InheritedNames
    ensures key == "hardcore" <==> name == "hardcore"
  {
    if name == "hardcore" || name == "normal" || name in InheritedNames then name else "normal"
  }

  // ---------------------------------------------------------------------------
  // The session

  class Game {
    var board: array<Cell>
    var used: array<bool>
    /** 0: you choose a piece for the AI; 1: the AI places it; 2: the AI chooses a piece for
        you; 3: you place it. */
    var phase: nat
    var selected: Option<PieceId>
    var gameOver: bool
    var lastMoveIndex: Option<CellIndex>
    var winCells: seq<CellIndex>
    var score: Score
    /** `AI.deterministic`: the hardcore preset is active. */
    var deterministic: bool

    /** The invariant every step keeps, also in the middle of a step. */
    ghost predicate Sound()
      reads this, board, used
    {
      board.Length == 16 && used.Length == 16 &&
      Consistent(board[..], used[..]) &&
      phase <= 3 &&
      (selected.Some? ==> !used[selected.value]) &&
      (lastMoveIndex.Some? ==> board[lastMoveIndex.value].Some?) &&
      (winCells != [] ==>
        gameOver && exists l :: 0 <= l < |WinLines| && winCells == WinLines[l] && LineWins(board[..], l))
    }

    /** The invariant between steps: a finished game has a win or has used every piece and
        holds no selection; a running game has neither, and a piece is selected exactly in
        the two placing phases. */
    ghost predicate Valid()
      reads this, board, used
    {
      Sound() &&
      (gameOver <==> Ended(board[..], used[..])) &&
      (gameOver ==> selected.None?) &&
      (!gameOver ==> (selected.Some? <==> phase == 1 || phase == 3))
    }

    /** The page load: an empty board, phase 0, the stored score and the stored AI mode. */
    constructor(savedScore: Score, savedMode: string)
      ensures Valid() && fresh(board) && fresh(used)
      ensures board[..] == EmptyBoard && used[..] == NoneUsed
      ensures phase == 0 && selected == None && !gameOver && lastMoveIndex == None && winCells == []
      ensures score == savedScore && deterministic == (PresetKey(savedMode) == "hardcore")
    {
      board := new Cell[16](_ => None);
      used := new bool[16](_ => false);
      phase, selected, gameOver, lastMoveIndex, winCells := 0, None, false, None, [];
      score := savedScore;
      deterministic := PresetKey(savedMode) == "hardcore";
      new;
      assert board[..] == EmptyBoard && used[..] == NoneUsed;
      EmptyConsistent();
      assert !AllUsed(used[..]) by { assert !used[..][0]; }
      NoWinOnEmptyBoard();
    }

    /** `setDifficulty`: switch the AI preset (the mood roll is not modelled). */
    method SetDifficulty(name: string)
      modifies this
      ensures deterministic == (PresetKey(name) == "hardcore")
      ensures board == old(board) && used == old(used) && phase == old(phase)
      ensures selected == old(selected) && gameOver == old(gameOver) && score == old(score)
      ensures lastMoveIndex == old(lastMoveIndex) && winCells == old(winCells)
    {
      deterministic := PresetKey(name) == "hardcore";
    }

    /** `checkWin`: report the first winning line, if any, and credit `who`; otherwise report
        a draw when every piece is used; otherwise the game goes on. */
    method CheckWin(who: Player) returns (ended: bool)
      requires Sound() && !gameOver && selected.None? && winCells == []
      modifies this
      ensures Sound() && ended == gameOver && (ended <==> Ended(board[..], used[..]))
      ensures board == old(board) && used == old(used) && board[..] == old(board[..]) && used[..] == old(used[..])
      ensures phase == old(phase) && selected == None && lastMoveIndex == old(lastMoveIndex)
      ensures deterministic == old(deterministic)
      ensures !ended ==> score == old(score) && winCells == []
      ensures var w := FindWin(board[..]);
        (w.Some? ==>
          w.value.line < |WinLines| && winCells == WinLines[w.value.line] &&
          score == if who == You then old(score).(youWin := old(score).youWin + 1)
                   else old(score).(aiWin := old(score).aiWin + 1)) &&
        (w.None? && AllUsed(used[..]) ==> winCells == [] && score == old(score).(draw := old(score).draw + 1)) &&
        (w.None? && !AllUsed(used[..]) ==> winCells == [] && score == old(score))
      ensures ended ==> var w := FindWin(board[..]);
        (w.Some? ==> w.value.line < |WinLines| && winCells == WinLines[w.value.line]) &&
        (w.None? ==> (winCells == [] && score == old(score).(draw := old(score).draw + 1)))
    {
      var b := board[..];
      var w := ScanForWin(b);
      FindWinIffSimulateWin(b);
      if w.Some? {
        FindWinSound(b);
        gameOver := true;
        winCells := WinLines[w.value.line];
        if who == You {
          score := score.(youWin := score.youWin + 1);
        } else {
          score := score.(aiWin := score.aiWin + 1);
        }
        return true;
      }
      var all := forall id: PieceId :: used[id];
      assert all == AllUsed(used[..]);
      if all {
        gameOver := true;
        score := score.(draw := score.draw + 1);
        return true;
      }
      return false;
    }

    /** `onPiece`: in phase 0 of a running game, hand the unused piece `id` to the AI;
        anything else is ignored. */
    method OnPiece(id: PieceId)
      requires Valid()
      modifies this
      ensures Valid()
      ensures board == old(board) && used == old(used) && board[..] == old(board[..]) && used[..] == old(used[..])
      ensures gameOver == old(gameOver) && score == old(score) && deterministic == old(deterministic)
      ensures lastMoveIndex == old(lastMoveIndex) && winCells == old(winCells)
      ensures old(gameOver || used[id] || phase != 0) ==> phase == old(phase) && selected == old(selected)
      ensures !old(gameOver || used[id] || phase != 0) ==> phase == 1 && selected == Some(id)
    {
      if gameOver || used[id] || phase != 0 {
        return;
      }
      selected := Some(id);
      phase := 1;
    }

    /** The placement common to `onBoard` and `placeAt`: the selected piece goes on the empty
        cell `i` and is marked used. */
    method Place(i: CellIndex)
      requires Valid() && !gameOver && selected.Some? && board[i].None?
      modifies this, board, used
      ensures Sound() && !gameOver && selected == None && winCells == []
      ensures board == old(board) && used == old(used)
      ensures board[..] == old(board[..])[i := old(selected)]
      ensures used[..] == old(used[..])[old(selected).value := true]
      ensures CountTrue(used[..]) == old(CountTrue(used[..])) + 1
      ensures lastMoveIndex == Some(i) && phase == old(phase)
      ensures score == old(score) && deterministic == old(deterministic)
    {
      var p := selected.value;
      ghost var b, u := board[..], used[..];
      PlacementKeepsConsistent(b, u, i, p);
      board[i] := Some(p);
      used[p] := true;
      assert board[..] == b[i := Some(p)] && used[..] == u[p := true];
      lastMoveIndex := Some(i);
      selected := None;
    }

    /** `onBoard`: in phase 3 of a running game, put the piece the AI chose on the empty cell
        `index`, then check for the end; a game that goes on passes to phase 0. Anything else
        is ignored. */
    method OnBoard(index: CellIndex)
      requires Valid()
      modifies this, board, used
      ensures Valid()
      ensures board == old(board) && used == old(used) && deterministic == old(deterministic)
      ensures old(gameOver || phase != 3 || board[index].Some?) ==>
        board[..] == old(board[..]) && used[..] == old(used[..]) && phase == old(phase) &&
        selected == old(selected) && gameOver == old(gameOver) && score == old(score) &&
        lastMoveIndex == old(lastMoveIndex) && winCells == old(winCells)
      ensures !old(gameOver || phase != 3 || board[index].Some?) ==>
        board[..] == old(board[..])[index := old(selected)] &&
        used[..] == old(used[..])[old(selected).value := true] &&
        lastMoveIndex == Some(index) && selected == None &&
        (gameOver ==> phase == 3) && (!gameOver ==> phase == 0 && score == old(score)) &&
        (gameOver ==> var w := FindWin(board[..]);
          (w.Some? ==> (w.value.line < |WinLines| && winCells == WinLines[w.value.line] &&
            score == old(score).(youWin := old(score).youWin + 1))) &&
          (w.None? ==> winCells == [] && score == old(score).(draw := old(score).draw + 1)))
    {
      if gameOver || phase != 3 || board[index].Some? {
        return;
      }
      Place(index);
      var ended := CheckWin(You);
      if ended {
        return;
      }
      phase := 0;
    }

    /** `placeAt`: the AI puts the piece you chose on the empty cell `i`, then checks for the
        end; a game that goes on passes to phase 2. */
    method PlaceAt(i: CellIndex)
      requires Valid() && !gameOver && phase == 1 && board[i].None?
      modifies this, board, used
      ensures Valid()
      ensures board == old(board) && used == old(used) && deterministic == old(deterministic)
      ensures board[..] == old(board[..])[i := old(selected)]
      ensures used[..] == old(used[..])[old(selected).value := true]
      ensures lastMoveIndex == Some(i) && selected == None
      ensures (gameOver ==> phase == 1) && (!gameOver ==> phase == 2 && score == old(score))
      ensures (gameOver ==> var w := FindWin(board[..]);
        (w.Some? ==> (w.value.line < |WinLines| && winCells == WinLines[w.value.line] &&
          score == old(score).(aiWin := old(score).aiWin + 1))) &&
        (w.None? ==> winCells == [] && score == old(score).(draw := old(score).draw + 1)))
    {
      Place(i);
      var ended := CheckWin(Computer);
      if ended {
        return;
      }
      phase := 2;
    }

    /** `aiPlaceHardcore`: the AI puts the piece you chose on the cell the hardcore rule picks. */
    method AiPlaceHardcore()
      requires Valid() && !gameOver && phase == 1
      modifies this, board, used
      ensures Valid()
      ensures board == old(board) && used == old(used) && deterministic == old(deterministic)
      ensures lastMoveIndex.Some? &&
        IsHardcorePlacement(old(board[..]), old(used[..]), old(selected).value, lastMoveIndex.value)
      ensures board[..] == old(board[..])[lastMoveIndex.value := old(selected)]
      ensures used[..] == old(used[..])[old(selected).value := true]
      ensures selected == None && (gameOver ==> phase == 1) && (!gameOver ==> phase == 2 && score == old(score))
      ensures (gameOver ==> var w := FindWin(board[..]);
        (w.Some? ==> (w.value.line < |WinLines| && winCells == WinLines[w.value.line] &&
          score == old(score).(aiWin := old(score).aiWin + 1))) &&
        (w.None? ==> winCells == [] && score == old(score).(draw := old(score).draw + 1)))
    {
      UnusedPieceLeavesEmptyCell(board[..], used[..], selected.value);
      var i := ChooseHardcorePlacement(board[..], used[..], selected.value);
      PlaceAt(i);
    }

    /** `aiSelectHardcore`: the AI hands you the unused piece the hardcore rule picks. */
    method AiSelectHardcore()
      requires Valid() && !gameOver && phase == 2
      modifies this
      ensures Valid()
      ensures board == old(board) && used == old(used) && gameOver == old(gameOver)
      ensures score == old(score) && deterministic == old(deterministic)
      ensures lastMoveIndex == old(lastMoveIndex) && winCells == old(winCells)
      ensures phase == 3 && selected.Some? && IsHardcoreSelection(board[..], used[..], selected.value)
    {
      assert exists q :: 0 <= q < 16 && !used[..][q];
      var p := ChooseHardcoreSelection(board[..], used[..]);
      selected := Some(p);
      phase := 3;
    }

    /** `aiSelectNormal`: the AI hands you the unused piece the normal rule picks. */
    method AiSelectNormal()
      requires Valid() && !gameOver && phase == 2
      modifies this
      ensures Valid()
      ensures board == old(board) && used == old(used) && gameOver == old(gameOver)
      ensures score == old(score) && deterministic == old(deterministic)
      ensures lastMoveIndex == old(lastMoveIndex) && winCells == old(winCells)
      ensures phase == 3 && selected.Some? && IsNormalSelection(board[..], used[..], selected.value)
    {
      assert exists q :: 0 <= q < 16 && !used[..][q];
      var p := ChooseNormalSelection(board[..], used[..]);
      selected := Some(p);
      phase := 3;
    }

    /** `aiSelect`: the hardcore rule under the hardcore preset, the normal rule otherwise. */
    method AiSelect()
      requires Valid() && !gameOver && phase == 2
      modifies this
      ensures Valid()
      ensures board == old(board) && used == old(used) && gameOver == old(gameOver)
      ensures score == old(score) && deterministic == old(deterministic)
      ensures lastMoveIndex == old(lastMoveIndex) && winCells == old(winCells)
      ensures phase == 3 && selected.Some?
      ensures deterministic ==> IsHardcoreSelection(board[..], used[..], selected.value)
      ensures !deterministic ==> IsNormalSelection(board[..], used[..], selected.value)
    {
      if deterministic {
        AiSelectHardcore();
      } else {
        AiSelectNormal();
      }
    }

    /** `resetGame`: a new empty board and usage list, phase 0, nothing selected; the score
        and the AI preset are kept. */
    method ResetGame()
      modifies this
      ensures Valid() && fresh(board) && fresh(used)
      ensures board[..] == EmptyBoard && used[..] == NoneUsed
      ensures phase == 0 && selected == None && !gameOver && lastMoveIndex == None && winCells == []
      ensures score == old(score) && deterministic == old(deterministic)
    {
      board := new Cell[16](_ => None);
      used := new bool[16](_ => false);
      phase, selected, gameOver, lastMoveIndex, winCells := 0, None, false, None, [];
      assert board[..] == EmptyBoard && used[..] == NoneUsed;
      EmptyConsistent();
      assert !AllUsed(used[..]) by { assert !used[..][0]; }
      NoWinOnEmptyBoard();
    }
  }

  /** No line wins on the empty board. */
  lemma NoWinOnEmptyBoard()
    ensures !SimulateWin(EmptyBoard)
  {
    SimulateWinIff(EmptyBoard);
    forall l | 0 <= l < |WinLines|
      ensures !LineWins(EmptyBoard, l)
    {
      assert WinLines[l][0] in WinLines[l];
    }
  }
}
