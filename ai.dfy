/** The deterministic parts of the computer player (app.js): the empty-cell list, the
    positional bonus, the danger estimate, the immediate-win count, the similarity score,
    the hardcore placement and the hardcore and normal piece selections. Each chooser reads
    a snapshot of the board and of the usage flags and returns its choice; the session
    (module Session) then applies it. */
module Ai {
  import opened Pieces
  import opened Win

  /** The usage flags: `used[id]` once piece `id` has been placed. */
  type Usage = u: seq<bool> | |u| == 16 witness NoneUsed

  const NoneUsed: seq<bool> :=
    [false, false, false, false, false, false, false, false,
     false, false, false, false, false, false, false, false]

  // ---------------------------------------------------------------------------
  // getEmptyCells

  /** The empty cells below `n`, in ascending order. */
  function EmptyCellsBelow(b: Board, n: nat): (r: seq<CellIndex>)
    requires n <= 16
    ensures forall c: int :: c in r <==> 0 <= c < n && b[c].None?
    ensures forall j, k :: 0 <= j < k < |r| ==> r[j] < r[k]
  {
    if n == 0 then []
    else
      var prefix := EmptyCellsBelow(b, n - 1);
      assert forall j :: 0 <= j < |prefix| ==> prefix[j] in prefix;
      prefix + (if b[n - 1].None? then [n - 1] else [])
  }

  /** All empty cells of the board, in ascending order. */
  function EmptyCells(b: Board): seq<CellIndex>
  {
    EmptyCellsBelow(b, 16)
  }

  /** `getEmptyCells`: collects the indices of the empty cells in one pass. */
  method GetEmptyCells(bd: Board) returns (res: seq<CellIndex>)
    ensures res == EmptyCells(bd)
  {
    res := [];
    var i := 0;
    while i < |bd|
      invariant 0 <= i <= 16
      invariant res == EmptyCellsBelow(bd, i)
    {
      if bd[i].None? {
        res := res + [i];
      }
      i := i + 1;
    }
  }

  // ---------------------------------------------------------------------------
  // cellBonus

  /** `cellBonus`: 2 for the inner 2x2 block, 1 for the four corners, 0 elsewhere. */
  function CellBonus(i: CellIndex): (r: nat)
    ensures r <= 2
    ensures r == 2 <==> 1 <= i / 4 <= 2 && 1 <= i % 4 <= 2
    ensures r == 1 <==> (i / 4 == 0 || i / 4 == 3) && (i % 4 == 0 || i % 4 == 3)
  {
    if i in [5, 6, 9, 10] then 2
    else if i in [0, 3, 12, 15] then 1
    else 0
  }

  // ---------------------------------------------------------------------------
  // Immediate wins

  /** Piece `p`, handed over now, lets its receiver win with the very next placement
      (`empties.some(i => wouldWin(board, i, p))`). */
  predicate WinsNext(b: Board, p: PieceId)
  {
    exists e :: 0 <= e < 16 && b[e].None? && WouldWin(b, e, p)
  }

  /** A safe piece cannot be used by its receiver to win at once. */
  predicate Safe(b: Board, p: PieceId)
  {
    !WinsNext(b, p)
  }

  /** The number of cells of `es` at which placing `p` wins. */
  function CountWins(b: Board, p: PieceId, es: seq<CellIndex>): (c: nat)
    ensures c <= |es|
  {
    if es == [] then 0
    else CountWins(b, p, es[..|es| - 1]) + (if WouldWin(b, es[|es| - 1], p) then 1 else 0)
  }

  /** The count is zero exactly when no cell of the list wins. */
  lemma {:induction false} CountWinsZeroIff(b: Board, p: PieceId, es: seq<CellIndex>)
    ensures CountWins(b, p, es) == 0 <==> forall k :: 0 <= k < |es| ==> !WouldWin(b, es[k], p)
  {
    if es != [] {
      var init := es[..|es| - 1];
      CountWinsZeroIff(b, p, init);
      assert forall k :: 0 <= k < |init| ==> init[k] == es[k];
    }
  }

  /** `immediateWinCount`: the number of empty cells at which placing `p` wins. */
  function WinCount(b: Board, p: PieceId): nat
  {
    CountWins(b, p, EmptyCells(b))
  }

  /** `immediateWinCount` as the source computes it: a counting loop over the empty cells. */
  method ImmediateWinCount(b: Board, p: PieceId) returns (c: nat)
    ensures c == WinCount(b, p)
  {
    var empties := GetEmptyCells(b);
    c := 0;
    var k := 0;
    while k < |empties|
      invariant 0 <= k <= |empties|
      invariant c == CountWins(b, p, empties[..k])
    {
      assert empties[..k + 1][..k] == empties[..k];
      if WouldWin(b, empties[k], p) {
        c := c + 1;
      }
      k := k + 1;
    }
    assert empties[..k] == empties;
  }

  /** A piece has no winning cell exactly when it is safe: the hardcore ranking's first key
      is zero for precisely the pieces the normal selection calls safe. */
  lemma WinCountZeroIff(b: Board, p: PieceId)
    ensures WinCount(b, p) == 0 <==> Safe(b, p)
  {
    var es := EmptyCells(b);
    CountWinsZeroIff(b, p, es);
    if WinCount(b, p) == 0 {
      forall e | 0 <= e < 16 && b[e].None?
        ensures !WouldWin(b, e, p)
      {
        assert e in es;
        var k :| 0 <= k < |es| && es[k] == e;
      }
    } else {
      var k :| 0 <= k < |es| && WouldWin(b, es[k], p);
      assert es[k] in es;
    }
  }

  // ---------------------------------------------------------------------------
  // similarityScore / scorePiece (the same computation in both selections)

  /** Some placed piece has value `v` for attribute `a` (`values.includes(v)`). */
  predicate Represented(b: Board, a: Attr, v: nat)
  {
    exists c :: 0 <= c < 16 && b[c].Some? && AttrOf(b[c].value, a) == v
  }

  /** The number of attributes from position `k` of `Attrs` on whose value in `p` already
      appears on the board. */
  function SimilarityFrom(b: Board, p: PieceId, k: nat): (s: nat)
    requires k <= |Attrs|
    decreases |Attrs| - k
    ensures s <= |Attrs| - k
  {
    if k == |Attrs| then 0
    else (if Represented(b, Attrs[k], AttrOf(p, Attrs[k])) then 1 else 0) + SimilarityFrom(b, p, k + 1)
  }

  /** The score is 0 exactly when none of the attributes from `k` on is represented, and
      maximal exactly when all of them are. */
  lemma {:induction false} SimilarityFromExtremes(b: Board, p: PieceId, k: nat)
    requires k <= |Attrs|
    decreases |Attrs| - k
    ensures SimilarityFrom(b, p, k) == 0 <==>
      forall j :: k <= j < |Attrs| ==> !Represented(b, Attrs[j], AttrOf(p, Attrs[j]))
    ensures SimilarityFrom(b, p, k) == |Attrs| - k <==>
      forall j :: k <= j < |Attrs| ==> Represented(b, Attrs[j], AttrOf(p, Attrs[j]))
  {
    if k < |Attrs| {
      SimilarityFromExtremes(b, p, k + 1);
    }
  }

  /** `similarityScore` (hardcore) and `scorePiece` (normal): how many of the four attributes
      of `p` already have their value represented among the placed pieces. */
  function Similarity(b: Board, p: PieceId): (s: nat)
    ensures s <= 4
  {
    SimilarityFrom(b, p, 0)
  }

  /** The loop over `ATTRS` in `similarityScore` / `scorePiece`. */
  method SimilarityScore(b: Board, p: PieceId) returns (s: nat)
    ensures s == Similarity(b, p)
  {
    s := 0;
    var k := 0;
    while k < |Attrs|
      invariant 0 <= k <= |Attrs|
      invariant s + SimilarityFrom(b, p, k) == Similarity(b, p)
    {
      var a := Attrs[k];
      if Represented(b, a, AttrOf(p, a)) {
        s := s + 1;
      }
      k := k + 1;
    }
  }

  /** Placing a piece can only raise the similarity score of any other piece. */
  lemma {:induction false} SimilarityFromGrows(b: Board, c: CellIndex, q: PieceId, p: PieceId, k: nat)
    requires b[c].None? && k <= |Attrs|
    decreases |Attrs| - k
    ensures SimilarityFrom(b, p, k) <= SimilarityFrom(b[c := Some(q)], p, k)
  {
    if k < |Attrs| {
      var b' := b[c := Some(q)];
      var a := Attrs[k];
      if Represented(b, a, AttrOf(p, a)) {
        var d :| 0 <= d < 16 && b[d].Some? && AttrOf(b[d].value, a) == AttrOf(p, a);
        assert b'[d] == b[d];
      }
      SimilarityFromGrows(b, c, q, p, k + 1);
    }
  }

  /** On the empty board every piece scores 0. */
  lemma SimilarityOnEmptyBoard(p: PieceId)
    ensures Similarity(EmptyBoard, p) == 0
  {
    SimilarityFromExtremes(EmptyBoard, p, 0);
    forall j | 0 <= j < |Attrs|
      ensures !Represented(EmptyBoard, Attrs[j], AttrOf(p, Attrs[j]))
    {
    }
  }

  // ---------------------------------------------------------------------------
  // estimateDangerAfterPlace (deterministic branch)

  /** Piece `q` is still available to the opponent after `sel` is placed. */
  predicate Opponent(used: Usage, sel: PieceId, q: PieceId)
  {
    !used[q] && q != sel
  }

  /** The number of opponent pieces below `n` that win at once on board `t`. */
  function DangerBelow(t: Board, used: Usage, sel: PieceId, n: nat): (d: nat)
    requires n <= 16
    ensures d <= n
  {
    if n == 0 then 0
    else DangerBelow(t, used, sel, n - 1) +
         (if Opponent(used, sel, n - 1) && WinsNext(t, n - 1) then 1 else 0)
  }

  /** The number of opponent pieces below `n`. */
  function OpponentsBelow(used: Usage, sel: PieceId, n: nat): nat
    requires n <= 16
  {
    if n == 0 then 0
    else OpponentsBelow(used, sel, n - 1) + (if Opponent(used, sel, n - 1) then 1 else 0)
  }

  /** The danger of placing `sel` at `i`: how many of the pieces still unused, other than
      `sel`, would then let the opponent win with their next placement. */
  function Danger(b: Board, used: Usage, sel: PieceId, i: CellIndex): nat
  {
    DangerBelow(b[i := Some(sel)], used, sel, 16)
  }

  /** The danger count is zero exactly when every opponent piece below `n` is safe. */
  lemma {:induction false} DangerBelowZeroIff(t: Board, used: Usage, sel: PieceId, n: nat)
    requires n <= 16
    ensures DangerBelow(t, used, sel, n) == 0 <==>
      forall q: PieceId :: q < n && Opponent(used, sel, q) ==> Safe(t, q)
  {
    if n > 0 {
      DangerBelowZeroIff(t, used, sel, n - 1);
    }
  }

  /** The danger never exceeds the number of pieces left to the opponent. */
  lemma {:induction false} DangerBelowBound(t: Board, used: Usage, sel: PieceId, n: nat)
    requires n <= 16
    ensures DangerBelow(t, used, sel, n) <= OpponentsBelow(used, sel, n)
  {
    if n > 0 {
      DangerBelowBound(t, used, sel, n - 1);
    }
  }

  /** `estimateDangerAfterPlace` with `AI.deterministic`: every unused piece other than the one
      being placed is tried against every empty cell of the board after the placement. */
  method EstimateDanger(b: Board, used: Usage, sel: PieceId, placeIndex: CellIndex)
    returns (danger: nat)
    ensures danger == Danger(b, used, sel, placeIndex)
  {
    var test := b[placeIndex := Some(sel)];
    var empties := GetEmptyCells(test);
    danger := 0;
    var p := 0;
    while p < 16
      invariant 0 <= p <= 16
      invariant danger == DangerBelow(test, used, sel, p)
    {
      if !used[p] && p != sel {
        var some := exists k :: 0 <= k < |empties| && WouldWin(test, empties[k], p);
        assert some == WinsNext(test, p) by {
          if WinsNext(test, p) {
            var e :| 0 <= e < 16 && test[e].None? && WouldWin(test, e, p);
            assert e in empties;
          }
        }
        if some {
          danger := danger + 1;
        }
      }
      p := p + 1;
    }
  }

  // ---------------------------------------------------------------------------
  // aiPlaceHardcore

  /** The sort key of a candidate cell in `aiPlaceHardcore`. */
  datatype PlaceKey = PlaceKey(danger: nat, bonus: nat, index: nat)

  /** The comparator of `moves.sort`: danger ascending, bonus descending, index ascending. */
  predicate PlaceBefore(x: PlaceKey, y: PlaceKey)
  {
    x.danger < y.danger ||
    (x.danger == y.danger && (x.bonus > y.bonus || (x.bonus == y.bonus && x.index < y.index)))
  }

  function PlaceKeyOf(b: Board, used: Usage, sel: PieceId, i: CellIndex): PlaceKey
  {
    PlaceKey(Danger(b, used, sel, i), CellBonus(i), i)
  }

  /** The cell the hardcore player puts `sel` on: an empty cell; the lowest winning cell when
      one exists; otherwise the cell that sorts first among all empty cells. */
  ghost predicate IsHardcorePlacement(b: Board, used: Usage, sel: PieceId, i: CellIndex)
  {
    b[i].None? &&
    if WinsNext(b, sel) then
      WouldWin(b, i, sel) && forall j: CellIndex :: j < i && b[j].None? ==> !WouldWin(b, j, sel)
    else
      forall j: CellIndex :: j != i && b[j].None? ==>
        PlaceBefore(PlaceKeyOf(b, used, sel, i), PlaceKeyOf(b, used, sel, j))
  }

  /** Step 1 of `aiPlaceHardcore`: scan the empty cells in ascending order and stop at the
      first one where placing `sel` wins. */
  method FirstWinningCell(b: Board, sel: PieceId) returns (w: Option<CellIndex>)
    ensures w.Some? ==> b[w.value].None? && WouldWin(b, w.value, sel)
    ensures w.Some? ==> forall j: CellIndex :: j < w.value && b[j].None? ==> !WouldWin(b, j, sel)
    ensures w.None? <==> !WinsNext(b, sel)
  {
    var empty := GetEmptyCells(b);
    var k := 0;
    while k < |empty|
      invariant 0 <= k <= |empty|
      invariant forall m :: 0 <= m < k ==> !WouldWin(b, empty[m], sel)
    {
      if WouldWin(b, empty[k], sel) {
        w := Some(empty[k]);
        assert empty[k] in empty;
        forall j: CellIndex | j < empty[k] && b[j].None?
          ensures !WouldWin(b, j, sel)
        {
          assert j in empty;
          var m :| 0 <= m < |empty| && empty[m] == j;
        }
        return;
      }
      k := k + 1;
    }
    w := None;
    forall e | 0 <= e < 16 && b[e].None?
      ensures !WouldWin(b, e, sel)
    {
      assert e in empty;
    }
  }

  /** `moves = empty.map(i => ({ i, danger, bonus }))`: one key per empty cell, in the
      ascending order of `getEmptyCells`. */
  method KeyMoves(b: Board, used: Usage, sel: PieceId) returns (moves: seq<PlaceKey>)
    ensures forall t :: 0 <= t < |moves| ==> moves[t].index < 16 && b[moves[t].index].None?
    ensures forall t :: 0 <= t < |moves| ==> moves[t] == PlaceKeyOf(b, used, sel, moves[t].index)
    ensures forall j: CellIndex :: b[j].None? ==> exists t :: 0 <= t < |moves| && moves[t].index == j
    ensures forall s, t :: 0 <= s < t < |moves| ==> moves[s].index < moves[t].index
  {
    var empty := GetEmptyCells(b);
    moves := [];
    while |moves| < |empty|
      invariant |moves| <= |empty|
      invariant forall t :: 0 <= t < |moves| ==> moves[t] == PlaceKeyOf(b, used, sel, empty[t])
    {
      var cell := empty[|moves|];
      var d := EstimateDanger(b, used, sel, cell);
      moves := moves + [PlaceKey(d, CellBonus(cell), cell)];
    }
    forall t | 0 <= t < |moves|
      ensures moves[t].index < 16 && b[moves[t].index].None?
    {
      assert empty[t] in empty;
    }
    forall j: CellIndex | b[j].None?
      ensures exists t :: 0 <= t < |moves| && moves[t].index == j
    {
      assert j in empty;
      var t :| 0 <= t < |empty| && empty[t] == j;
      assert moves[t].index == j;
    }
  }

  /** `moves[0]` after `moves.sort(...)`: the key that sorts before every other. A minimum
      scan finds the same key, because with the index as last tie-break the comparator is a
      strict total order on keys with distinct indices. */
  method FirstMove(moves: seq<PlaceKey>) returns (best: nat)
    requires |moves| > 0
    requires forall s, t :: 0 <= s < t < |moves| ==> moves[s].index < moves[t].index
    ensures best < |moves|
    ensures forall t :: 0 <= t < |moves| && t != best ==> PlaceBefore(moves[best], moves[t])
  {
    best := 0;
    var m := 1;
    while m < |moves|
      invariant 1 <= m <= |moves| && 0 <= best < m
      invariant forall t :: 0 <= t < m && t != best ==> PlaceBefore(moves[best], moves[t])
    {
      if PlaceBefore(moves[m], moves[best]) {
        best := m;
      }
      m := m + 1;
    }
  }

  /** Step 2 of `aiPlaceHardcore`: the empty cell whose key sorts first. */
  method SafestCell(b: Board, used: Usage, sel: PieceId) returns (i: CellIndex)
    requires exists c :: 0 <= c < 16 && b[c].None?
    ensures b[i].None?
    ensures forall j: CellIndex :: j != i && b[j].None? ==>
      PlaceBefore(PlaceKeyOf(b, used, sel, i), PlaceKeyOf(b, used, sel, j))
  {
    var moves := KeyMoves(b, used, sel);
    var c :| 0 <= c < 16 && b[c].None?;
    assert exists t :: 0 <= t < |moves| && moves[t].index == c;
    var best := FirstMove(moves);
    i := moves[best].index;
    forall j: CellIndex | j != i && b[j].None?
      ensures PlaceBefore(PlaceKeyOf(b, used, sel, i), PlaceKeyOf(b, used, sel, j))
    {
      var t :| 0 <= t < |moves| && moves[t].index == j;
      assert t != best;
    }
  }

  /** `aiPlaceHardcore`'s choice of cell: the first winning cell if there is one, otherwise
      the safest cell. */
  method ChooseHardcorePlacement(b: Board, used: Usage, sel: PieceId) returns (i: CellIndex)
    requires exists c :: 0 <= c < 16 && b[c].None?
    ensures IsHardcorePlacement(b, used, sel, i)
  {
    var w := FirstWinningCell(b, sel);
    if w.Some? {
      i := w.value;
    } else {
      i := SafestCell(b, used, sel);
    }
  }

  /** The hardcore placement is a function of the snapshot: at most one cell satisfies it. */
  lemma HardcorePlacementUnique(b: Board, used: Usage, sel: PieceId, i: CellIndex, j: CellIndex)
    requires IsHardcorePlacement(b, used, sel, i) && IsHardcorePlacement(b, used, sel, j)
    ensures i == j
  {
  }

  /** When no winning cell exists, the hardcore placement leaves the opponent no more
      dangerous pieces than any other empty cell would. */
  lemma HardcorePlacementAvoidsDanger(b: Board, used: Usage, sel: PieceId, i: CellIndex, j: CellIndex)
    requires IsHardcorePlacement(b, used, sel, i) && !WinsNext(b, sel) && b[j].None?
    ensures Danger(b, used, sel, i) <= Danger(b, used, sel, j)
  {
    if i != j {
      assert PlaceBefore(PlaceKeyOf(b, used, sel, i), PlaceKeyOf(b, used, sel, j));
    }
  }

  // ---------------------------------------------------------------------------
  // Candidate lists (`pieces.filter(p => !used[p.id])` and its safe subset)

  /** The unused pieces below `n` in ascending id order; with `safeOnly`, only the safe ones. */
  function Candidates(b: Board, used: Usage, safeOnly: bool, n: nat): (r: seq<PieceId>)
    requires n <= 16
    ensures forall q: int :: q in r <==> 0 <= q < n && !used[q] && (safeOnly ==> Safe(b, q))
    ensures forall j, k :: 0 <= j < k < |r| ==> r[j] < r[k]
  {
    if n == 0 then []
    else
      var prefix := Candidates(b, used, safeOnly, n - 1);
      assert forall j :: 0 <= j < |prefix| ==> prefix[j] in prefix;
      prefix + (if !used[n - 1] && (safeOnly ==> Safe(b, n - 1)) then [n - 1] else [])
  }

  // ---------------------------------------------------------------------------
  // aiSelectHardcore

  /** The sort key of a candidate piece in `aiSelectHardcore`. */
  datatype SelectKey = SelectKey(wins: nat, similarity: nat, id: nat)

  /** The comparator of `candidates.sort`: immediate-win count, similarity, id, all ascending. */
  predicate SelectBefore(x: SelectKey, y: SelectKey)
  {
    x.wins < y.wins ||
    (x.wins == y.wins && (x.similarity < y.similarity || (x.similarity == y.similarity && x.id < y.id)))
  }

  function SelectKeyOf(b: Board, p: PieceId): SelectKey
  {
    SelectKey(WinCount(b, p), Similarity(b, p), p)
  }

  /** The piece the hardcore player hands over: unused, and first in sort order among all
      unused pieces. */
  ghost predicate IsHardcoreSelection(b: Board, used: Usage, p: PieceId)
  {
    !used[p] &&
    forall q: PieceId :: q != p && !used[q] ==> SelectBefore(SelectKeyOf(b, p), SelectKeyOf(b, q))
  }

  /** The keys `candidates.sort` compares, one per candidate, in candidate order. */
  method KeySelections(b: Board, candidates: seq<PieceId>) returns (keys: seq<SelectKey>)
    ensures |keys| == |candidates|
    ensures forall t :: 0 <= t < |keys| ==> keys[t] == SelectKeyOf(b, candidates[t])
  {
    keys := [];
    while |keys| < |candidates|
      invariant |keys| <= |candidates|
      invariant forall t :: 0 <= t < |keys| ==> keys[t] == SelectKeyOf(b, candidates[t])
    {
      var p := candidates[|keys|];
      var w := ImmediateWinCount(b, p);
      var s := SimilarityScore(b, p);
      keys := keys + [SelectKey(w, s, p)];
    }
  }

  /** `candidates[0]` after `candidates.sort(...)`: the key that sorts before every other.
      With the id as last tie-break the comparator is a strict total order on keys with
      distinct ids, so a minimum scan finds the same key. */
  method FirstSelection(keys: seq<SelectKey>) returns (best: nat)
    requires |keys| > 0
    requires forall s, t :: 0 <= s < t < |keys| ==> keys[s].id < keys[t].id
    ensures best < |keys|
    ensures forall t :: 0 <= t < |keys| && t != best ==> SelectBefore(keys[best], keys[t])
  {
    best := 0;
    var m := 1;
    while m < |keys|
      invariant 1 <= m <= |keys| && 0 <= best < m
      invariant forall t :: 0 <= t < m && t != best ==> SelectBefore(keys[best], keys[t])
    {
      if SelectBefore(keys[m], keys[best]) {
        best := m;
      }
      m := m + 1;
    }
  }

  /** `aiSelectHardcore`'s choice: the unused piece first in sort order. */
  method ChooseHardcoreSelection(b: Board, used: Usage) returns (p: PieceId)
    requires exists q :: 0 <= q < 16 && !used[q]
    ensures IsHardcoreSelection(b, used, p)
  {
    var candidates := Candidates(b, used, false, 16);
    var q :| 0 <= q < 16 && !used[q];
    assert q in candidates;
    var keys := KeySelections(b, candidates);
    var best := FirstSelection(keys);
    p := candidates[best];
    assert p in candidates;
    forall r: PieceId | r != p && !used[r]
      ensures SelectBefore(SelectKeyOf(b, p), SelectKeyOf(b, r))
    {
      assert r in candidates;
      var t :| 0 <= t < |candidates| && candidates[t] == r;
      assert t != best;
    }
  }

  /** The hardcore selection is a function of the snapshot. */
  lemma HardcoreSelectionUnique(b: Board, used: Usage, p: PieceId, q: PieceId)
    requires IsHardcoreSelection(b, used, p) && IsHardcoreSelection(b, used, q)
    ensures p == q
  {
  }

  /** Whenever some unused piece is safe, the hardcore player hands over a safe piece. */
  lemma HardcoreSelectionIsSafe(b: Board, used: Usage, p: PieceId, q: PieceId)
    requires IsHardcoreSelection(b, used, p) && !used[q] && Safe(b, q)
    ensures Safe(b, p)
  {
    WinCountZeroIff(b, q);
    WinCountZeroIff(b, p);
    if p != q {
      assert SelectBefore(SelectKeyOf(b, p), SelectKeyOf(b, q));
    }
  }

  // ---------------------------------------------------------------------------
  // aiSelectNormal

  /** Some unused piece is safe. */
  ghost predicate AnySafe(b: Board, used: Usage)
  {
    exists q: PieceId :: !used[q] && Safe(b, q)
  }

  /** The pool the normal selection ranks: the safe unused pieces if there are any,
      otherwise all unused pieces. */
  ghost predicate InPool(b: Board, used: Usage, q: PieceId)
  {
    !used[q] && (AnySafe(b, used) ==> Safe(b, q))
  }

  /** The piece the normal player hands over: in the pool, with the highest similarity score
      in the pool, and the lowest id among the pool's pieces with that score. */
  ghost predicate IsNormalSelection(b: Board, used: Usage, p: PieceId)
  {
    InPool(b, used, p) &&
    forall q: PieceId :: InPool(b, used, q) ==>
      Similarity(b, q) < Similarity(b, p) || (Similarity(b, q) == Similarity(b, p) && p <= q)
  }

  /** `scorePiece` of every piece of the pool, in pool order. */
  method ScorePool(b: Board, pool: seq<PieceId>) returns (scores: seq<nat>)
    ensures |scores| == |pool|
    ensures forall t :: 0 <= t < |scores| ==> scores[t] == Similarity(b, pool[t])
  {
    scores := [];
    while |scores| < |pool|
      invariant |scores| <= |pool|
      invariant forall t :: 0 <= t < |scores| ==> scores[t] == Similarity(b, pool[t])
    {
      var s := SimilarityScore(b, pool[|scores|]);
      scores := scores + [s];
    }
  }

  /** `pool[0]` after the stable `pool.sort((a, b) => score(b) - score(a))`: the first
      position holding the highest score. */
  method FirstHighest(scores: seq<nat>) returns (best: nat)
    requires |scores| > 0
    ensures best < |scores|
    ensures forall t :: 0 <= t < |scores| ==>
      scores[t] < scores[best] || (scores[t] == scores[best] && best <= t)
  {
    best := 0;
    var m := 1;
    while m < |scores|
      invariant 1 <= m <= |scores| && 0 <= best < m
      invariant forall t :: 0 <= t < m ==>
        scores[t] < scores[best] || (scores[t] == scores[best] && best <= t)
    {
      if scores[m] > scores[best] {
        best := m;
      }
      m := m + 1;
    }
  }

  /** `const pool = safe.length ? safe : candidates`, both filtered from the pieces in id
      order. */
  method NormalPool(b: Board, used: Usage) returns (pool: seq<PieceId>)
    requires exists q :: 0 <= q < 16 && !used[q]
    ensures |pool| > 0
    ensures forall q: PieceId :: q in pool <==> InPool(b, used, q)
    ensures forall s, t :: 0 <= s < t < |pool| ==> pool[s] < pool[t]
  {
    var candidates := Candidates(b, used, false, 16);
    var safe := Candidates(b, used, true, 16);
    pool := if |safe| > 0 then safe else candidates;
    assert |safe| > 0 <==> AnySafe(b, used) by {
      if AnySafe(b, used) {
        var q: PieceId :| !used[q] && Safe(b, q);
        assert q in safe;
      }
      if |safe| > 0 {
        assert safe[0] in safe;
      }
    }
    var q :| 0 <= q < 16 && !used[q];
    if |safe| == 0 {
      assert q in candidates;
    }
  }

  /** `aiSelectNormal`'s choice: the first piece of highest score in the pool. */
  method ChooseNormalSelection(b: Board, used: Usage) returns (p: PieceId)
    requires exists q :: 0 <= q < 16 && !used[q]
    ensures IsNormalSelection(b, used, p)
  {
    var pool := NormalPool(b, used);
    var scores := ScorePool(b, pool);
    var best := FirstHighest(scores);
    p := pool[best];
    assert p in pool;
    forall r: PieceId | InPool(b, used, r)
      ensures Similarity(b, r) < Similarity(b, p) || (Similarity(b, r) == Similarity(b, p) && p <= r)
    {
      assert r in pool;
      var t :| 0 <= t < |pool| && pool[t] == r;
      assert best <= t ==> pool[best] <= pool[t];
    }
  }

  /** The normal selection is a function of the snapshot. */
  lemma NormalSelectionUnique(b: Board, used: Usage, p: PieceId, q: PieceId)
    requires IsNormalSelection(b, used, p) && IsNormalSelection(b, used, q)
    ensures p == q
  {
  }

  /** Whenever some unused piece is safe, the normal player hands over a safe piece. */
  lemma NormalSelectionIsSafe(b: Board, used: Usage, p: PieceId, q: PieceId)
    requires IsNormalSelection(b, used, p) && !used[q] && Safe(b, q)
    ensures Safe(b, p)
  {
  }
}
