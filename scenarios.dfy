/** Concrete positions that pin the evaluator and the hardcore placement down on actual
    boards. */
module Scenarios {
  import opened Pieces
  import opened Win
  import opened Ai

  /** A full board, row by row 12 8 2 7 / 5 0 10 4 / 11 14 9 3 / 1 13 6 15, on which no line
      shares an attribute. */
  predicate IsDrawn(b: Board)
  {
    b[0] == Some(12) && b[1] == Some(8) && b[2] == Some(2) && b[3] == Some(7) &&
    b[4] == Some(5) && b[5] == Some(0) && b[6] == Some(10) && b[7] == Some(4) &&
    b[8] == Some(11) && b[9] == Some(14) && b[10] == Some(9) && b[11] == Some(3) &&
    b[12] == Some(1) && b[13] == Some(13) && b[14] == Some(6) && b[15] == Some(15)
  }

  /** Pieces 0, 1 and 2 on the top row, the rest empty. */
  const ThreeOnTop: Board :=
    [Some(0), Some(1), Some(2), None, None, None, None, None,
     None, None, None, None, None, None, None, None]

  /** A top row of 1, 3, 9, 11 agrees on height and on hollowness; the report names
      height, the earlier attribute in scan order, whatever the rest of the board holds. */
  lemma TopRowReportsHeight(b: Board)
    requires b[0] == Some(1) && b[1] == Some(3) && b[2] == Some(9) && b[3] == Some(11)
    ensures FindWin(b) == Some(WinInfo(0, Height))
    ensures LineWinsOn(b, 0, Height) && LineWinsOn(b, 0, Hollow)
  {
    assert !HasEmpty(b, 0);
    assert !MatchesFirst(b, 0, Color) by {
      assert WinLines[0][2] == 2 && AttrOf(9, Color) != AttrOf(1, Color);
    }
    assert MatchesFirst(b, 0, Height);
    assert FirstSharedAttr(b, 0, 0) == Some(Height) by {
      assert FirstSharedAttr(b, 0, 0) == FirstSharedAttr(b, 0, 1);
    }
  }

  /** Line `l` does not win: it has an empty cell or no attribute on which all its pieces
      match the first. */
  predicate LineLoses(b: Board, l: nat)
    requires l < |WinLines|
  {
    !HasEmpty(b, l) ==> forall k :: 0 <= k < |Attrs| ==> !MatchesFirst(b, l, Attrs[k])
  }

  /** Pieces `p0`..`p3` do not all agree on attribute `a`. */
  predicate Disagree(p0: PieceId, p1: PieceId, p2: PieceId, p3: PieceId, a: Attr)
  {
    !(AttrOf(p1, a) == AttrOf(p0, a) && AttrOf(p2, a) == AttrOf(p0, a) && AttrOf(p3, a) == AttrOf(p0, a))
  }

  /** A line holding four pieces that disagree on every attribute loses. */
  lemma NoSharedAttr(b: Board, l: nat, p0: PieceId, p1: PieceId, p2: PieceId, p3: PieceId)
    requires l < |WinLines|
    requires b[WinLines[l][0]] == Some(p0) && b[WinLines[l][1]] == Some(p1)
    requires b[WinLines[l][2]] == Some(p2) && b[WinLines[l][3]] == Some(p3)
    requires Disagree(p0, p1, p2, p3, Color) && Disagree(p0, p1, p2, p3, Height)
    requires Disagree(p0, p1, p2, p3, Shape) && Disagree(p0, p1, p2, p3, Hollow)
    ensures LineLoses(b, l)
  {
  }

  /** Every line of the drawn arrangement loses. */
  lemma DrawnLineLoses(b: Board, l: nat)
    requires IsDrawn(b)
    requires l < |WinLines|
    ensures LineLoses(b, l)
  {
    if l == 0 {
      NoSharedAttr(b, 0, 12, 8, 2, 7);
    } else if l == 1 {
      NoSharedAttr(b, 1, 5, 0, 10, 4);
    } else if l == 2 {
      NoSharedAttr(b, 2, 11, 14, 9, 3);
    } else if l == 3 {
      NoSharedAttr(b, 3, 1, 13, 6, 15);
    } else if l == 4 {
      NoSharedAttr(b, 4, 12, 5, 11, 1);
    } else if l == 5 {
      NoSharedAttr(b, 5, 8, 0, 14, 13);
    } else if l == 6 {
      NoSharedAttr(b, 6, 2, 10, 9, 6);
    } else if l == 7 {
      NoSharedAttr(b, 7, 7, 4, 3, 15);
    } else if l == 8 {
      NoSharedAttr(b, 8, 12, 0, 9, 15);
    } else {
      NoSharedAttr(b, 9, 7, 10, 14, 1);
    }
  }

  /** A board can fill up without any line winning: the game then ends in a draw. */
  lemma DrawnBoardHasNoWin(b: Board)
    requires IsDrawn(b)
    ensures !SimulateWin(b)
  {
    if SimulateWin(b) {
      var l :| 0 <= l < |WinLines| && !HasEmpty(b, l) &&
        exists k :: 0 <= k < |Attrs| && MatchesFirst(b, l, Attrs[k]);
      DrawnLineLoses(b, l);
      assert false;
    }
  }

  /** With 0, 1, 2 on the top row, piece 4 completes a row of dark pieces at cell 3, and
      cell 3 is the lowest empty cell, so the hardcore player puts 4 there. */
  lemma HardcoreTakesTheWin()
    ensures IsHardcorePlacement(ThreeOnTop, NoneUsed[0 := true][1 := true][2 := true], 4, 3)
  {
    var b' := ThreeOnTop[3 := Some(4)];
    assert !HasEmpty(b', 0) && MatchesFirst(b', 0, Attrs[0]);
    assert WouldWin(ThreeOnTop, 3, 4);
  }
}
