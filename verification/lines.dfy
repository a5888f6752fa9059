/**
 Line clearing as the game does it: a cursor walks from the bottom row up;
 a full row under the cursor is cut out and an empty row is pushed on top,
 and the cursor then moves up one index regardless. Because the rows above
 the cut slide down into the cursor's old index, the row directly above a
 cleared row is never examined in the same pass.
 */
module Lines {
  import opened Grid

  datatype Cleared = Cleared(board: Board, lines: nat)

  /** The pass from cursor `y` up to row 0 over the current board `b`. */
  function ClearFrom(b: seq<Row>, y: int): (r: Cleared)
    requires -1 <= y < |b|
    decreases y + 1
    ensures |r.board| == |b|
    ensures r.lines <= y + 1
  {
    if y < 0 then Cleared(b, 0)
    else if Full(b[y]) then
      var rest := ClearFrom([EmptyRow()] + b[..y] + b[y + 1..], y - 1);
      Cleared(rest.board, rest.lines + 1)
    else ClearFrom(b, y - 1)
  }

  datatype Sweep = Sweep(kept: seq<Row>, removed: nat)

  /** Reference reading of the pass in terms of the ORIGINAL rows, bottom-up:
      a row that is not full is kept; a full row is dropped and the row right
      above it is kept without being looked at. */
  function Survey(o: seq<Row>): (s: Sweep)
    decreases |o|
  {
    if |o| == 0 then Sweep([], 0)
    else
      var last := o[|o| - 1];
      var above := o[..|o| - 1];
      if !Full(last) then
        var s := Survey(above);
        Sweep(s.kept + [last], s.removed)
      else if |above| == 0 then Sweep([], 1)
      else
        var s := Survey(above[..|above| - 1]);
        Sweep(s.kept + [above[|above| - 1]], s.removed + 1)
  }

  /** `kept` arises from `o` by deleting rows, every deleted row being full,
      with the remaining rows in their original order. */
  predicate DropsOnlyFullRows(o: seq<Row>, kept: seq<Row>)
    decreases |o|
  {
    if |o| == 0 then kept == []
    else
      || (|kept| > 0 && kept[|kept| - 1] == o[|o| - 1] && DropsOnlyFullRows(o[..|o| - 1], kept[..|kept| - 1]))
      || (Full(o[|o| - 1]) && DropsOnlyFullRows(o[..|o| - 1], kept))
  }

  /** Number of full rows. */
  function CountFull(o: seq<Row>): nat
    decreases |o|
  {
    if |o| == 0 then 0 else CountFull(o[..|o| - 1]) + (if Full(o[|o| - 1]) then 1 else 0)
  }

  /** No two vertically adjacent rows are both full. */
  predicate NoAdjacentFull(o: seq<Row>) {
    forall i :: 1 <= i < |o| ==> !Full(o[i - 1]) || !Full(o[i])
  }

  /** Cursor over empty rows only: nothing is full, nothing changes. */
  lemma {:induction false} EmptyWindow(e: nat, s: seq<Row>)
    ensures ClearFrom(Zeros(e) + s, e - 1) == Cleared(Zeros(e) + s, 0)
    decreases e
  {
    if e > 0 {
      var b := Zeros(e) + s;
      assert b[e - 1] == EmptyRow();
      ZerosSplit(e);
      assert b == Zeros(e - 1) + ([EmptyRow()] + s);
      EmptyWindow(e - 1, [EmptyRow()] + s);
    }
  }

  /** One step of the pass over a row that is not full: the cursor moves up. */
  lemma ClearKeepStep(b: seq<Row>, y: int)
    requires 0 <= y < |b| && !Full(b[y])
    ensures ClearFrom(b, y) == ClearFrom(b, y - 1)
  {
  }

  /** One step of the pass over a full row: cut it, push an empty row, move up. */
  lemma ClearDropStep(b: seq<Row>, y: int)
    requires 0 <= y < |b| && Full(b[y])
    ensures var rest := ClearFrom([EmptyRow()] + b[..y] + b[y + 1..], y - 1);
      ClearFrom(b, y) == Cleared(rest.board, rest.lines + 1)
  {
  }

  /** The pass agrees with the reference on a board made of `e` empty rows,
      then the unexamined original rows `o` (the cursor on the last of them),
      then rows `s` the pass has already left behind. */
  lemma {:induction false} ClearFromMatchesSurvey(e: nat, o: seq<Row>, s: seq<Row>)
    ensures var sw := Survey(o);
      ClearFrom(Zeros(e) + o + s, e + |o| - 1) == Cleared(Zeros(e + sw.removed) + sw.kept + s, sw.removed)
    decreases |o|, 1
  {
    if |o| == 0 {
      assert Zeros(e) + o + s == Zeros(e) + s;
      EmptyWindow(e, s);
    } else if !Full(o[|o| - 1]) {
      MatchKeep(e, o, s);
    } else if |o| == 1 {
      MatchDropTop(e, o, s);
    } else {
      MatchDrop(e, o, s);
    }
  }

  lemma {:induction false} MatchKeep(e: nat, o: seq<Row>, s: seq<Row>)
    requires |o| > 0 && !Full(o[|o| - 1])
    ensures var sw := Survey(o);
      ClearFrom(Zeros(e) + o + s, e + |o| - 1) == Cleared(Zeros(e + sw.removed) + sw.kept + s, sw.removed)
    decreases |o|, 0
  {
    var b := Zeros(e) + o + s;
    var y := e + |o| - 1;
    var last := o[|o| - 1];
    var above := o[..|o| - 1];
    assert o == above + [last];
    assert b[y] == last;
    ClearKeepStep(b, y);
    assert b == Zeros(e) + above + ([last] + s);
    ClearFromMatchesSurvey(e, above, [last] + s);
    var sw := Survey(above);
    assert Survey(o) == Sweep(sw.kept + [last], sw.removed);
    assert Zeros(e + sw.removed) + sw.kept + ([last] + s) == Zeros(e + sw.removed) + (sw.kept + [last]) + s;
  }

  lemma {:induction false} MatchDropTop(e: nat, o: seq<Row>, s: seq<Row>)
    requires |o| == 1 && Full(o[0])
    ensures var sw := Survey(o);
      ClearFrom(Zeros(e) + o + s, e + |o| - 1) == Cleared(Zeros(e + sw.removed) + sw.kept + s, sw.removed)
  {
    var b := Zeros(e) + o + s;
    var y := e;
    assert b[y] == o[0];
    ClearDropStep(b, y);
    assert b[..y] == Zeros(e);
    assert b[y + 1..] == s;
    var b' := [EmptyRow()] + b[..y] + b[y + 1..];
    ZerosSplit(e + 1);
    assert b' == Zeros(e) + ([EmptyRow()] + s);
    EmptyWindow(e, [EmptyRow()] + s);
    assert Survey(o) == Sweep([], 1);
    assert Zeros(e) + ([EmptyRow()] + s) == Zeros(e + 1) + [] + s;
  }

  lemma {:induction false} MatchDrop(e: nat, o: seq<Row>, s: seq<Row>)
    requires |o| > 1 && Full(o[|o| - 1])
    ensures var sw := Survey(o);
      ClearFrom(Zeros(e) + o + s, e + |o| - 1) == Cleared(Zeros(e + sw.removed) + sw.kept + s, sw.removed)
    decreases |o|, 0
  {
    var b := Zeros(e) + o + s;
    var y := e + |o| - 1;
    var top := o[..|o| - 2];
    var next := o[|o| - 2];
    var last := o[|o| - 1];
    assert o == top + [next] + [last];
    assert b[y] == last;
    ClearDropStep(b, y);
    assert b[..y] == Zeros(e) + top + [next];
    assert b[y + 1..] == s;
    var b' := [EmptyRow()] + b[..y] + b[y + 1..];
    ZerosSplit(e + 1);
    assert b' == Zeros(e + 1) + top + ([next] + s);
    ClearFromMatchesSurvey(e + 1, top, [next] + s);
    var sw := Survey(top);
    assert o[..|o| - 1][..|o| - 2] == top;
    assert Survey(o) == Sweep(sw.kept + [next], sw.removed + 1);
    assert Zeros(e + 1 + sw.removed) + sw.kept + ([next] + s)
        == Zeros(e + (sw.removed + 1)) + (sw.kept + [next]) + s;
  }

  /** Every row the reference drops is full, one for each missing row, and
      the survivors keep their original order. */
  lemma {:induction false} SurveyDropsOnlyFull(o: seq<Row>)
    ensures |Survey(o).kept| + Survey(o).removed == |o|
    ensures DropsOnlyFullRows(o, Survey(o).kept)
    decreases |o|
  {
    if |o| > 0 {
      var last := o[|o| - 1];
      var above := o[..|o| - 1];
      if !Full(last) {
        SurveyDropsOnlyFull(above);
        var sw := Survey(above);
        assert (sw.kept + [last])[..|sw.kept|] == sw.kept;
      } else if |above| > 0 {
        var top := above[..|above| - 1];
        var next := above[|above| - 1];
        SurveyDropsOnlyFull(top);
        var sw := Survey(top);
        assert (sw.kept + [next])[..|sw.kept|] == sw.kept;
        assert DropsOnlyFullRows(above, sw.kept + [next]);
      }
    }
  }

  /** The reference drops at most as many rows as are full, and drops some
      row exactly when some row is full; dropping none keeps the board. */
  lemma {:induction false} SurveyCount(o: seq<Row>)
    ensures Survey(o).removed <= CountFull(o)
    ensures Survey(o).removed == 0 <==> CountFull(o) == 0
    ensures Survey(o).removed == 0 ==> Survey(o).kept == o
    decreases |o|
  {
    if |o| > 0 {
      var last := o[|o| - 1];
      var above := o[..|o| - 1];
      if !Full(last) {
        SurveyCount(above);
        var sw := Survey(above);
        assert Survey(o) == Sweep(sw.kept + [last], sw.removed);
        assert CountFull(o) == CountFull(above);
        assert o == above + [last];
      } else if |above| > 0 {
        var top := above[..|above| - 1];
        SurveyCount(top);
        var sw := Survey(top);
        assert Survey(o).removed == sw.removed + 1;
        assert CountFull(o) == CountFull(above) + 1;
        CountFullPrefix(above);
      } else {
        assert Survey(o).removed == 1;
        assert CountFull(o) == 1;
      }
    }
  }

  lemma CountFullPrefix(o: seq<Row>)
    requires |o| > 0
    ensures CountFull(o[..|o| - 1]) <= CountFull(o)
  {
  }

  /** Rows kept by the reference are rows of the original board. */
  lemma {:induction false} SurveyKeepsRows(o: seq<Row>)
    ensures forall row :: row in Survey(o).kept ==> row in o
    decreases |o|
  {
    if |o| > 0 {
      var above := o[..|o| - 1];
      SurveyKeepsRows(above);
      if |above| > 0 {
        SurveyKeepsRows(above[..|above| - 1]);
      }
    }
  }

  /** With no two adjacent full rows the pass drops every full row and
      leaves none behind. */
  lemma {:induction false} IsolatedFullRowsAllCleared(o: seq<Row>)
    requires NoAdjacentFull(o)
    ensures Survey(o).removed == CountFull(o)
    ensures forall row :: row in Survey(o).kept ==> !Full(row)
    decreases |o|
  {
    if |o| > 0 {
      var last := o[|o| - 1];
      var above := o[..|o| - 1];
      assert NoAdjacentFull(above);
      IsolatedFullRowsAllCleared(above);
      if Full(last) && |above| > 0 {
        var top := above[..|above| - 1];
        var next := above[|above| - 1];
        assert !Full(next);
        assert NoAdjacentFull(top);
        IsolatedFullRowsAllCleared(top);
        assert above == top + [next];
        assert CountFull(above) == CountFull(top);
      }
    }
  }

  /** Empty rows over rows of a 20 by 10 board make a 20 by 10 board again. */
  lemma RefillIsBoard(b: Board, n: nat, kept: seq<Row>)
    requires IsBoard(b) && n + |kept| == Height
    requires forall row :: row in kept ==> row in b
    ensures IsBoard(Zeros(n) + kept)
    ensures Binary(b) ==> Binary(Zeros(n) + kept)
  {
    var r := Zeros(n) + kept;
    forall i | n <= i < Height
      ensures r[i] in b
    {
      assert r[i] == kept[i - n];
    }
  }

  /** The clear step of the game on a whole board: start the cursor at the
      bottom row. The result is the reference's survivors under as many
      empty rows as were dropped. */
  function ClearLines(b: Board): (r: Cleared)
    requires IsBoard(b)
    ensures r.board == Zeros(Survey(b).removed) + Survey(b).kept
    ensures r.lines == Survey(b).removed
    ensures IsBoard(r.board)
    ensures Binary(b) ==> Binary(r.board)
    ensures forall i :: 0 <= i < r.lines ==> r.board[i] == EmptyRow()
    ensures DropsOnlyFullRows(b, r.board[r.lines..])
    ensures r.lines == 0 <==> CountFull(b) == 0
    ensures r.lines == 0 ==> r.board == b
  {
    ClearFromMatchesSurvey(0, b, []);
    assert Zeros(0) + b + [] == b;
    SurveyDropsOnlyFull(b);
    SurveyCount(b);
    SurveyKeepsRows(b);
    var sw := Survey(b);
    RefillIsBoard(b, sw.removed, sw.kept);
    assert (Zeros(sw.removed) + sw.kept)[sw.removed..] == sw.kept;
    ClearFrom(b, Height - 1)
  }

  /** The quirk: when the two bottom rows are both full, only the bottom one
      goes and the other one, still full, becomes the new bottom row. */
  lemma AdjacentFullRowSurvives(b: Board)
    requires IsBoard(b) && Full(b[Height - 1]) && Full(b[Height - 2])
    ensures ClearLines(b).board[Height - 1] == b[Height - 2]
    ensures Full(ClearLines(b).board[Height - 1])
  {
    var above := b[..Height - 1];
    assert above[|above| - 1] == b[Height - 2];
  }

  /** A board with exactly one full row loses exactly that row. */
  lemma OneFullRowClearsOne(b: Board)
    requires IsBoard(b) && CountFull(b) == 1
    ensures ClearLines(b).lines == 1
  {
    SurveyCount(b);
  }
}
