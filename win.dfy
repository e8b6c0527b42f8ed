/** The board and the win evaluator (app.js, `WIN_LINES`, `simulateWin`, `wouldWin`,
    and the scan that `checkWin` repeats on the live board). */
module Win {
  import opened Pieces

  datatype Option<T> = None | Some(value: T)

  /** A cell index, 0..15: row `i / 4`, column `i % 4`. */
  type CellIndex = i: nat | i < 16

  /** A cell is empty (`null`) or holds a piece id. */
  type Cell = Option<PieceId>

  /** A board snapshot: sixteen cells. */
  type Board = b: seq<Cell> | |b| == 16 witness EmptyBoard

  const EmptyBoard: seq<Cell> :=
    [None, None, None, None, None, None, None, None,
     None, None, None, None, None, None, None, None]

  /** The ten win lines in scan order: four rows, four columns, the two diagonals. */
  const WinLines: seq<seq<CellIndex>> :=
    [[0, 1, 2, 3], [4, 5, 6, 7], [8, 9, 10, 11], [12, 13, 14, 15],
     [0, 4, 8, 12], [1, 5, 9, 13], [2, 6, 10, 14], [3, 7, 11, 15],
     [0, 5, 10, 15], [3, 6, 9, 12]]

  /** Where a win was found: the index of the line in `WinLines` and the first shared attribute. */
  datatype WinInfo = WinInfo(line: nat, attr: Attr)

  /** The position of an attribute in the scan order `Attrs`. */
  function AttrIndex(a: Attr): (k: nat)
    ensures k < |Attrs| && Attrs[k] == a
  {
    match a
    case Color => 0
    case Height => 1
    case Shape => 2
    case Hollow => 3
  }

  // ---------------------------------------------------------------------------
  // Reference definition of a winning line

  /** Every cell of line `l` holds a piece. */
  ghost predicate Full(b: Board, l: nat)
    requires l < |WinLines|
  {
    forall k :: 0 <= k < 4 ==> b[WinLines[l][k]].Some?
  }

  /** Line `l` is full and its four pieces pairwise agree on attribute `a`. */
  ghost predicate LineWinsOn(b: Board, l: nat, a: Attr)
    requires l < |WinLines|
  {
    Full(b, l) &&
    forall j, k :: 0 <= j < 4 && 0 <= k < 4 ==>
      AttrOf(b[WinLines[l][j]].value, a) == AttrOf(b[WinLines[l][k]].value, a)
  }

  /** Line `l` wins: it is full and its pieces share some attribute. */
  ghost predicate LineWins(b: Board, l: nat)
    requires l < |WinLines|
  {
    exists a :: LineWinsOn(b, l, a)
  }

  // ---------------------------------------------------------------------------
  // The scan, in the order of the source's loops

  /** Some cell of line `l` is empty (`ids.some(v => v === null)`). */
  predicate HasEmpty(b: Board, l: nat)
    requires l < |WinLines|
  {
    exists k :: 0 <= k < 4 && b[WinLines[l][k]].None?
  }

  /** On a full line, every piece has the first piece's value of `a`
      (`ps.every(p => p[a] === ps[0][a])`). */
  predicate MatchesFirst(b: Board, l: nat, a: Attr)
    requires l < |WinLines| && !HasEmpty(b, l)
  {
    forall k :: 0 <= k < 4 ==>
      AttrOf(b[WinLines[l][k]].value, a) == AttrOf(b[WinLines[l][0]].value, a)
  }

  /** The first attribute, from position `k` of `Attrs` on, that full line `l` shares. */
  function FirstSharedAttr(b: Board, l: nat, k: nat): Option<Attr>
    requires l < |WinLines| && !HasEmpty(b, l)
    decreases |Attrs| - k
  {
    if k >= |Attrs| then None
    else if MatchesFirst(b, l, Attrs[k]) then Some(Attrs[k])
    else FirstSharedAttr(b, l, k + 1)
  }

  /** The first winning line from line `l` on, with its first shared attribute. */
  function ScanLines(b: Board, l: nat): Option<WinInfo>
    decreases |WinLines| - l
  {
    if l >= |WinLines| then None
    else if HasEmpty(b, l) then ScanLines(b, l + 1)
    else match FirstSharedAttr(b, l, 0)
      case Some(a) => Some(WinInfo(l, a))
      case None => ScanLines(b, l + 1)
  }

  /** The win `checkWin` reports: the first winning line in `WinLines` order together with
      the first attribute in `Attrs` order that its four pieces share, or None. */
  function FindWin(b: Board): Option<WinInfo>
  {
    ScanLines(b, 0)
  }

  /** The attribute scan finds the first attribute, in `Attrs` order from `k` on, that the
      full line shares, and finds none exactly when no such attribute exists. */
  lemma {:induction false} FirstSharedAttrSound(b: Board, l: nat, k: nat)
    requires l < |WinLines| && !HasEmpty(b, l)
    decreases |Attrs| - k
    ensures var r := FirstSharedAttr(b, l, k);
      (r.Some? ==> k <= AttrIndex(r.value) && LineWinsOn(b, l, r.value)) &&
      (r.Some? ==> forall a :: k <= AttrIndex(a) < AttrIndex(r.value) ==> !LineWinsOn(b, l, a)) &&
      (r.None? ==> forall a :: k <= AttrIndex(a) ==> !LineWinsOn(b, l, a))
  {
    if k < |Attrs| && !MatchesFirst(b, l, Attrs[k]) {
      FirstSharedAttrSound(b, l, k + 1);
    }
  }

  /** The line scan finds the first winning line from `l` on, with its first shared
      attribute, and finds none exactly when no line from `l` on wins. */
  lemma {:induction false} ScanLinesSound(b: Board, l: nat)
    decreases |WinLines| - l
    ensures var r := ScanLines(b, l);
      (r.Some? ==> l <= r.value.line < |WinLines| && LineWinsOn(b, r.value.line, r.value.attr)) &&
      (r.Some? ==> forall m :: l <= m < r.value.line ==> !LineWins(b, m)) &&
      (r.Some? ==> forall a :: AttrIndex(a) < AttrIndex(r.value.attr) ==> !LineWinsOn(b, r.value.line, a)) &&
      (r.None? ==> forall m :: l <= m < |WinLines| ==> !LineWins(b, m))
  {
    if l < |WinLines| {
      var skip := HasEmpty(b, l) || FirstSharedAttr(b, l, 0).None?;
      if skip {
        assert !LineWins(b, l) by {
          if !HasEmpty(b, l) {
            FirstSharedAttrSound(b, l, 0);
          }
        }
        assert ScanLines(b, l) == ScanLines(b, l + 1);
        ScanLinesSound(b, l + 1);
        var r := ScanLines(b, l);
        var upper := if r.Some? then r.value.line else |WinLines|;
        forall m | l <= m < upper
          ensures !LineWins(b, m)
        {
          if m > l {
            assert l + 1 <= m < upper;
          }
        }
      } else {
        FirstSharedAttrSound(b, l, 0);
      }
    }
  }

  /** What `checkWin` reports is a winning line and attribute, the first in scan order;
      nothing is reported exactly when no line wins. */
  lemma FindWinSound(b: Board)
    ensures var r := FindWin(b);
      (r.Some? ==> r.value.line < |WinLines| && LineWinsOn(b, r.value.line, r.value.attr)) &&
      (r.Some? ==> forall m :: 0 <= m < r.value.line ==> !LineWins(b, m)) &&
      (r.Some? ==> forall a :: AttrIndex(a) < AttrIndex(r.value.attr) ==> !LineWinsOn(b, r.value.line, a)) &&
      (r.None? ==> forall m :: 0 <= m < |WinLines| ==> !LineWins(b, m))
  {
    ScanLinesSound(b, 0);
  }

  /** The nested loops of `checkWin` over `WIN_LINES` and `ATTRS`: skip a line with an empty
      cell, and stop at the first attribute on which the line's pieces all match the first. */
  method ScanForWin(b: Board) returns (w: Option<WinInfo>)
    ensures w == FindWin(b)
  {
    var l := 0;
    while l < |WinLines|
      invariant 0 <= l <= |WinLines|
      invariant ScanLines(b, l) == FindWin(b)
    {
      if !HasEmpty(b, l) {
        var k := 0;
        while k < |Attrs|
          invariant 0 <= k <= |Attrs|
          invariant FirstSharedAttr(b, l, k) == FirstSharedAttr(b, l, 0)
        {
          if MatchesFirst(b, l, Attrs[k]) {
            return Some(WinInfo(l, Attrs[k]));
          }
          k := k + 1;
        }
      }
      l := l + 1;
    }
    return None;
  }

  /** `simulateWin`: some line of the snapshot has no empty cell and has an attribute on which
      every piece matches the first one. Only whether a win exists matters here, so the
      order of the scan does not; `FindWin` keeps the order for reporting. */
  predicate SimulateWin(b: Board)
  {
    exists l :: 0 <= l < |WinLines| && !HasEmpty(b, l) &&
      exists k :: 0 <= k < |Attrs| && MatchesFirst(b, l, Attrs[k])
  }

  /** `wouldWin`: placing piece `p` at cell `i` of a copy of the board makes a line win.
      The snapshot `b` itself is a value and is left as it was. */
  predicate WouldWin(b: Board, i: CellIndex, p: PieceId)
  {
    SimulateWin(b[i := Some(p)])
  }

  // ---------------------------------------------------------------------------
  // Properties

  /** The scan finds a win exactly when some line is full and its four pieces share an attribute;
      a line with an empty cell never counts. */
  lemma SimulateWinIff(b: Board)
    ensures SimulateWin(b) <==> exists l :: 0 <= l < |WinLines| && LineWins(b, l)
    ensures forall l, c :: 0 <= l < |WinLines| && c in WinLines[l] && b[c].None? ==> !LineWins(b, l)
  {
    if SimulateWin(b) {
      var l, k :| 0 <= l < |WinLines| && !HasEmpty(b, l) && 0 <= k < |Attrs| && MatchesFirst(b, l, Attrs[k]);
      assert LineWinsOn(b, l, Attrs[k]);
      assert LineWins(b, l);
    }
    if exists l :: 0 <= l < |WinLines| && LineWins(b, l) {
      var l :| 0 <= l < |WinLines| && LineWins(b, l);
      var a :| LineWinsOn(b, l, a);
      var k := AttrIndex(a);
      assert Full(b, l);
      assert !HasEmpty(b, l) && 0 <= k < |Attrs| && MatchesFirst(b, l, Attrs[k]);
      assert SimulateWin(b);
    }
    forall l, c | 0 <= l < |WinLines| && c in WinLines[l] && b[c].None?
      ensures !LineWins(b, l)
    {
      var k :| 0 <= k < 4 && WinLines[l][k] == c;
      assert !Full(b, l);
    }
  }

  /** `simulateWin` and the reporting scan of `checkWin` agree: a win is reported exactly
      when one exists. */
  lemma FindWinIffSimulateWin(b: Board)
    ensures FindWin(b).Some? <==> SimulateWin(b)
  {
    FindWinSound(b);
    SimulateWinIff(b);
    if FindWin(b).Some? {
      assert LineWins(b, FindWin(b).value.line);
    }
  }

  /** The cells of line `l` are the same on two boards that agree outside cell `i`,
      when `i` is not on the line. */
  lemma LineUnaffected(b: Board, i: CellIndex, c: Cell, l: nat)
    requires l < |WinLines| && i !in WinLines[l]
    ensures LineWins(b, l) <==> LineWins(b[i := c], l)
  {
    var b' := b[i := c];
    assert forall k :: 0 <= k < 4 ==> b'[WinLines[l][k]] == b[WinLines[l][k]];
    if LineWins(b, l) {
      var a :| LineWinsOn(b, l, a);
      assert LineWinsOn(b', l, a);
    }
    if LineWins(b', l) {
      var a :| LineWinsOn(b', l, a);
      assert LineWinsOn(b, l, a);
    }
  }

  /** A placement that turns a board without a win into a winning one wins on a line
      through the placed cell. */
  lemma NewWinThroughPlacedCell(b: Board, i: CellIndex, p: PieceId)
    requires !SimulateWin(b) && WouldWin(b, i, p)
    ensures exists l :: 0 <= l < |WinLines| && i in WinLines[l] && LineWins(b[i := Some(p)], l)
  {
    var b' := b[i := Some(p)];
    SimulateWinIff(b);
    SimulateWinIff(b');
    var l :| 0 <= l < |WinLines| && LineWins(b', l);
    if i !in WinLines[l] {
      LineUnaffected(b, i, Some(p), l);
      assert false;
    }
  }

  /** A win already on the board survives any placement into an empty cell. */
  lemma WinSurvivesPlacement(b: Board, i: CellIndex, p: PieceId)
    requires SimulateWin(b) && b[i].None?
    ensures WouldWin(b, i, p)
  {
    SimulateWinIff(b);
    var l :| 0 <= l < |WinLines| && LineWins(b, l);
    assert i !in WinLines[l];
    LineUnaffected(b, i, Some(p), l);
    SimulateWinIff(b[i := Some(p)]);
  }
}
