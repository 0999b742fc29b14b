/**
 Grading a fleet run (`matrix_verdict.py`): one row for each board and sketch, and no way for a hole, a repeat, an
 undeclared skip or a dark board to pass. Every threshold is derived from the fleet definition.
 */
module FleetVerdict {
  import opened Prelude

  /** A row of a results file; any of its fields may be absent. */
  datatype Row = Row(board: Option<string>, sketch: Option<string>, status: Option<string>)

  datatype Cell = Cell(board: Option<string>, sketch: Option<string>)

  datatype Error =
    | EmptyFleet
    | Duplicate(cell: Cell)
    | ForeignBoard(cell: Cell)
    | ForeignSketch(cell: Cell)
    | BadStatus(cell: Cell)
    | UndeclaredSkip(cell: Cell)
    | Incomplete(expected: nat, got: nat)
    | NothingPassed
    | DarkBoard(board: string)

  const PASS: Option<string> := Some("pass")
  const SKIPPED: Option<string> := Some("skipped")

  function CellOf(row: Row): Cell { Cell(row.board, row.sketch) }

  /** The cells of the fleet: every board with every sketch. */
  ghost function Fleet(boards: set<string>, sketches: set<string>): set<Cell> {
    set b, s | b in boards && s in sketches :: Cell(Some(b), Some(s))
  }

  ghost predicate InFleet(c: Cell, boards: set<string>, sketches: seq<string>) {
    c.board.Some? && c.board.value in boards && c.sketch.Some? && c.sketch.value in sketches
  }

  predicate Waived(c: Cell, skips: map<string, set<string>>) {
    c.board.Some? && c.sketch.Some? && c.board.value in skips && c.sketch.value in skips[c.board.value]
  }

  /** The first `n` rows have different cells, all of the fleet. */
  ghost predicate Orderly(rows: seq<Row>, n: nat, boards: set<string>, sketches: seq<string>)
    requires n <= |rows|
  {
    && (forall i, j :: 0 <= i < j < n ==> CellOf(rows[i]) != CellOf(rows[j]))
    && (forall i :: 0 <= i < n ==> InFleet(CellOf(rows[i]), boards, sketches))
  }

  ghost predicate Among(rows: seq<Row>, n: nat, c: Cell)
    requires n <= |rows|
  {
    exists i :: 0 <= i < n && CellOf(rows[i]) == c
  }

  /** What a result must be to be honest: the rows are the cells of the fleet, each exactly once, every cell passed or
      skipped by declaration, and every board has a pass. */
  ghost predicate Honest(rows: seq<Row>, skips: map<string, set<string>>, sketchIds: seq<string>) {
    && skips.Keys != {} && sketchIds != [] && Distinct(sketchIds)
    && RowsDiffer(rows) && RowsInFleet(rows, skips.Keys, sketchIds)
    && Covered(rows, skips.Keys, sketchIds)
    && RowsFine(rows, skips)
    && BoardsPass(rows, skips.Keys)
  }

  ghost predicate RowsDiffer(rows: seq<Row>) {
    forall i, j :: 0 <= i < j < |rows| ==> rows[i].board != rows[j].board || rows[i].sketch != rows[j].sketch
  }

  ghost predicate RowsInFleet(rows: seq<Row>, boards: set<string>, sketchIds: seq<string>) {
    forall i :: 0 <= i < |rows| ==>
      && rows[i].board.Some? && rows[i].board.value in boards
      && rows[i].sketch.Some? && rows[i].sketch.value in sketchIds
  }

  ghost predicate Covered(rows: seq<Row>, boards: set<string>, sketchIds: seq<string>) {
    forall b, s :: b in boards && s in sketchIds ==> HasRow(rows, b, s)
  }

  ghost predicate HasRow(rows: seq<Row>, b: string, s: string) {
    exists i :: 0 <= i < |rows| && rows[i].board == Some(b) && rows[i].sketch == Some(s)
  }

  lemma OrderlyMeans(rows: seq<Row>, boards: set<string>, sketchIds: seq<string>)
    ensures Orderly(rows, |rows|, boards, sketchIds) <==> RowsDiffer(rows) && RowsInFleet(rows, boards, sketchIds)
  {
  }

  ghost predicate RowsFine(rows: seq<Row>, skips: map<string, set<string>>) {
    forall i :: 0 <= i < |rows| ==> RowFine(rows[i], skips)
  }

  ghost predicate RowFine(row: Row, skips: map<string, set<string>>) {
    || row.status == Some("pass")
    || (row.status == Some("skipped") && row.board.Some? && row.board.value in skips
        && row.sketch.Some? && row.sketch.value in skips[row.board.value])
  }

  ghost predicate BoardsPass(rows: seq<Row>, boards: set<string>) {
    forall b :: b in boards ==> exists i :: 0 <= i < |rows| && rows[i].board == Some(b) && rows[i].status == Some("pass")
  }

  // ---------------------------------------------------------------------------------------------
  // The table
  // ---------------------------------------------------------------------------------------------

  lemma OrderlyStep(rows: seq<Row>, n: nat, boards: set<string>, sketches: seq<string>)
    requires n < |rows|
    ensures Orderly(rows, n + 1, boards, sketches) <==>
            (Orderly(rows, n, boards, sketches) && !Among(rows, n, CellOf(rows[n]))
             && InFleet(CellOf(rows[n]), boards, sketches))
  {
    hide InFleet, CellOf;
  }

  lemma AmongStep(rows: seq<Row>, n: nat, c: Cell)
    requires n < |rows|
    ensures Among(rows, n + 1, c) <==> Among(rows, n, c) || c == CellOf(rows[n])
  {
    hide CellOf;
  }

  /** No earlier row has the cell of row `i`. */
  ghost predicate First(rows: seq<Row>, i: nat)
    requires i < |rows|
  {
    !Among(rows, i, CellOf(rows[i]))
  }

  /** The table holds the cells of the first `n` rows, each with the status of the first row that has it. */
  ghost predicate Tabled(rows: seq<Row>, n: nat, seen: map<Cell, Option<string>>)
    requires n <= |rows|
  {
    && (forall c :: c in seen <==> Among(rows, n, c))
    && (forall i :: 0 <= i < n && First(rows, i) ==>
          CellOf(rows[i]) in seen && seen[CellOf(rows[i])] == rows[i].status)
  }

  /** A row goes into the table unless its cell is there. */
  function Enter(seen: map<Cell, Option<string>>, row: Row): map<Cell, Option<string>> {
    if CellOf(row) in seen then seen else seen[CellOf(row) := row.status]
  }

  lemma EnterKeys(seen: map<Cell, Option<string>>, row: Row, c: Cell)
    ensures c in Enter(seen, row) <==> c in seen || c == CellOf(row)
    ensures c in seen ==> Enter(seen, row)[c] == seen[c]
    ensures CellOf(row) !in seen ==> Enter(seen, row)[CellOf(row)] == row.status
  {
  }

  lemma TabledStep(rows: seq<Row>, n: nat, seen: map<Cell, Option<string>>)
    requires n < |rows| && Tabled(rows, n, seen)
    ensures Tabled(rows, n + 1, Enter(seen, rows[n])) && (CellOf(rows[n]) in seen <==> Among(rows, n, CellOf(rows[n])))
  {
    var t := Enter(seen, rows[n]);
    hide Enter, CellOf;
    forall c ensures c in t <==> Among(rows, n + 1, c) {
      EnterKeys(seen, rows[n], c);
      AmongStep(rows, n, c);
    }
    forall i | 0 <= i < n + 1 && First(rows, i) ensures CellOf(rows[i]) in t && t[CellOf(rows[i])] == rows[i].status {
      EnterKeys(seen, rows[n], CellOf(rows[i]));
    }
  }

  /** `cells` lists the keys of the table. */
  ghost predicate Lists(cells: seq<Cell>, seen: map<Cell, Option<string>>) {
    forall c :: c in cells <==> c in seen
  }

  lemma ListsStep(cells: seq<Cell>, seen: map<Cell, Option<string>>, row: Row)
    requires Lists(cells, seen)
    ensures Lists(if CellOf(row) in seen then cells else cells + [CellOf(row)], Enter(seen, row))
  {
  }

  lemma NoRows(rows: seq<Row>, boards: set<string>, sketches: seq<string>)
    ensures Lists([], map[]) && Orderly(rows, 0, boards, sketches) && Tabled(rows, 0, map[])
    ensures ErrorsAre([], rows, 0, boards, sketches)
  {
    forall e ensures !RowError(e, rows, 0, boards, sketches) {
    }
  }

  /** The errors in the rows themselves, among the first `n`: a cell that comes twice, and one that is not of the fleet. */
  ghost predicate RowError(e: Error, rows: seq<Row>, n: nat, boards: set<string>, sketches: seq<string>)
    requires n <= |rows|
  {
    match e
    case Duplicate(c) => Twice(rows, n, c)
    case ForeignBoard(c) => Among(rows, n, c) && !(c.board.Some? && c.board.value in boards)
    case ForeignSketch(c) =>
      && Among(rows, n, c) && c.board.Some? && c.board.value in boards
      && !(c.sketch.Some? && c.sketch.value in sketches)
    case _ => false
  }

  ghost predicate Twice(rows: seq<Row>, n: nat, c: Cell)
    requires n <= |rows|
  {
    exists i :: 0 <= i < n && CellOf(rows[i]) == c && Among(rows, i, c)
  }

  lemma TwiceStep(rows: seq<Row>, n: nat, c: Cell)
    requires n < |rows|
    ensures Twice(rows, n + 1, c) <==> Twice(rows, n, c) || (c == CellOf(rows[n]) && Among(rows, n, c))
  {
    hide CellOf;
  }

  /** What row `n` adds. */
  ghost predicate NewError(e: Error, cell: Cell, again: bool, boards: set<string>, sketches: seq<string>) {
    match e
    case Duplicate(c) => c == cell && again
    case ForeignBoard(c) => c == cell && !again && !(c.board.Some? && c.board.value in boards)
    case ForeignSketch(c) =>
      && c == cell && !again && c.board.Some? && c.board.value in boards
      && !(c.sketch.Some? && c.sketch.value in sketches)
    case _ => false
  }

  ghost predicate AllNew(more: seq<Error>, cell: Cell, again: bool, boards: set<string>, sketches: seq<string>) {
    forall e :: e in more <==> NewError(e, cell, again, boards, sketches)
  }

  lemma RowErrorStep(e: Error, rows: seq<Row>, n: nat, boards: set<string>, sketches: seq<string>)
    requires n < |rows|
    ensures RowError(e, rows, n + 1, boards, sketches) <==>
            || RowError(e, rows, n, boards, sketches)
            || NewError(e, CellOf(rows[n]), Among(rows, n, CellOf(rows[n])), boards, sketches)
  {
    match e
    case Duplicate(c) => TwiceStep(rows, n, c);
      hide Twice, Among;
    case ForeignBoard(c) => AmongStep(rows, n, c);
      hide Among;
    case ForeignSketch(c) => AmongStep(rows, n, c);
      hide Among;
    case _ =>
  }

  ghost predicate ErrorsAre(errors: seq<Error>, rows: seq<Row>, n: nat, boards: set<string>, sketches: seq<string>)
    requires n <= |rows|
  {
    forall e :: e in errors <==> RowError(e, rows, n, boards, sketches)
  }

  lemma ErrorsStep(errors: seq<Error>, more: seq<Error>, rows: seq<Row>, n: nat, boards: set<string>, sketches: seq<string>)
    requires n < |rows| && ErrorsAre(errors, rows, n, boards, sketches)
    requires AllNew(more, CellOf(rows[n]), Among(rows, n, CellOf(rows[n])), boards, sketches)
    ensures ErrorsAre(errors + more, rows, n + 1, boards, sketches)
  {
    hide RowError, Among, NewError;
    forall e ensures e in errors + more <==> RowError(e, rows, n + 1, boards, sketches) {
      RowErrorStep(e, rows, n, boards, sketches);
    }
  }

  /** What the loop body finds wrong with a row's cell, given whether it was seen before. */
  method RowErrors(cell: Cell, again: bool, boards: set<string>, sketches: seq<string>) returns (errors: seq<Error>)
    ensures AllNew(errors, cell, again, boards, sketches)
    ensures errors == [] <==> !again && InFleet(cell, boards, sketches)
  {
    if again {
      errors := [Duplicate(cell)];
    } else if cell.board.None? || cell.board.value !in boards {
      errors := [ForeignBoard(cell)];
    } else if cell.sketch.None? || cell.sketch.value !in sketches {
      errors := [ForeignSketch(cell)];
    } else {
      errors := [];
    }
  }

  /** The loop over the rows. */
  method Tabulate(rows: seq<Row>, boards: set<string>, sketches: seq<string>)
    returns (errors: seq<Error>, seen: map<Cell, Option<string>>, cells: seq<Cell>)
    ensures Lists(cells, seen)
    ensures errors == [] <==> Orderly(rows, |rows|, boards, sketches)
    ensures ErrorsAre(errors, rows, |rows|, boards, sketches)
    ensures Tabled(rows, |rows|, seen)
  {
    hide Orderly, Tabled, Among, CellOf, Lists, ErrorsAre, InFleet, AllNew;
    errors, seen, cells := [], map[], [];
    NoRows(rows, boards, sketches);
    var k := 0;
    while k < |rows|
      invariant 0 <= k <= |rows| && Lists(cells, seen) && Tabled(rows, k, seen)
      invariant errors == [] <==> Orderly(rows, k, boards, sketches)
      invariant ErrorsAre(errors, rows, k, boards, sketches)
    {
      var cell := CellOf(rows[k]);
      OrderlyStep(rows, k, boards, sketches);
      TabledStep(rows, k, seen);
      ListsStep(cells, seen, rows[k]);
      var more := RowErrors(cell, cell in seen, boards, sketches);
      ErrorsStep(errors, more, rows, k, boards, sketches);
      errors := errors + more;
      if cell !in seen {
        seen, cells := seen[cell := rows[k].status], cells + [cell];
      }
      k := k + 1;
    }
  }

  // ---------------------------------------------------------------------------------------------
  // The five rules
  // ---------------------------------------------------------------------------------------------

  /** Every cell passed, or was skipped by declaration. */
  ghost predicate StatusesFine(seen: map<Cell, Option<string>>, skips: map<string, set<string>>) {
    forall c :: c in seen ==> seen[c] == PASS || (seen[c] == SKIPPED && Waived(c, skips))
  }

  /** Rules 1 and 2. */
  method CheckStatuses(cells: seq<Cell>, seen: map<Cell, Option<string>>, skips: map<string, set<string>>)
    returns (errors: seq<Error>)
    requires Lists(cells, seen)
    ensures errors == [] <==> StatusesFine(seen, skips)
    ensures forall e :: e in errors <==> StatusError(e, seen, skips)
  {
    hide Waived;
    errors := [];
    for i := 0 to |cells|
      invariant forall e :: e in errors <==> e.BadStatus? && e.cell in cells[..i] && StatusError(e, seen, skips)
    {
      assert cells[..i + 1] == cells[..i] + [cells[i]];
      if seen[cells[i]] != PASS && seen[cells[i]] != SKIPPED {
        errors := errors + [BadStatus(cells[i])];
      }
    }
    assert cells[..|cells|] == cells;
    for i := 0 to |cells|
      invariant forall e :: e in errors <==>
                  StatusError(e, seen, skips) && (e.BadStatus? || (e.UndeclaredSkip? && e.cell in cells[..i]))
    {
      assert cells[..i + 1] == cells[..i] + [cells[i]];
      if seen[cells[i]] == SKIPPED && !Waived(cells[i], skips) {
        errors := errors + [UndeclaredSkip(cells[i])];
      }
    }
    NoStatusError(seen, skips, errors);
  }

  /** A cell with a status that is neither, or skipped without a declaration. */
  ghost predicate StatusError(e: Error, seen: map<Cell, Option<string>>, skips: map<string, set<string>>) {
    match e
    case BadStatus(c) => c in seen && seen[c] != PASS && seen[c] != SKIPPED
    case UndeclaredSkip(c) => c in seen && seen[c] == SKIPPED && !Waived(c, skips)
    case _ => false
  }

  lemma NoStatusError(seen: map<Cell, Option<string>>, skips: map<string, set<string>>, errors: seq<Error>)
    requires forall e :: e in errors <==> StatusError(e, seen, skips)
    ensures errors == [] <==> StatusesFine(seen, skips)
  {
    Passing();
    hide Waived;
    if errors == [] {
      forall c | c in seen ensures seen[c] == PASS || (seen[c] == SKIPPED && Waived(c, skips)) {
        assert !StatusError(BadStatus(c), seen, skips) && !StatusError(UndeclaredSkip(c), seen, skips);
      }
    } else {
      assert errors[0] in errors;
    }
  }

  lemma Passing()
    ensures PASS != SKIPPED
  {
    assert |PASS.value| != |SKIPPED.value|;
  }

  predicate BoardReported(cells: seq<Cell>, b: string) {
    exists c :: c in cells && c.board == Some(b)
  }

  predicate BoardPassed(cells: seq<Cell>, seen: map<Cell, Option<string>>, b: string)
    requires Lists(cells, seen)
  {
    exists c :: c in cells && c.board == Some(b) && seen[c] == PASS
  }

  /** No board that reported is without a pass. */
  ghost predicate NoDarkBoard(boards: set<string>, cells: seq<Cell>, seen: map<Cell, Option<string>>)
    requires Lists(cells, seen)
  {
    forall b :: b in boards && BoardReported(cells, b) ==> BoardPassed(cells, seen, b)
  }

  ghost predicate Dark(cells: seq<Cell>, seen: map<Cell, Option<string>>, b: string)
    requires Lists(cells, seen)
  {
    BoardReported(cells, b) && !BoardPassed(cells, seen, b)
  }

  /** Rule 5. */
  method CheckBoards(boards: set<string>, cells: seq<Cell>, seen: map<Cell, Option<string>>)
    returns (errors: seq<Error>)
    requires Lists(cells, seen)
    ensures errors == [] <==> NoDarkBoard(boards, cells, seen)
    ensures forall e :: e in errors <==> e.DarkBoard? && e.board in boards && Dark(cells, seen, e.board)
  {
    hide BoardReported, BoardPassed;
    errors := [];
    var todo := boards;
    while todo != {}
      invariant todo <= boards
      invariant errors == [] <==>
                forall b :: b in boards - todo && BoardReported(cells, b) ==> BoardPassed(cells, seen, b)
      invariant forall e :: e in errors <==> e.DarkBoard? && e.board in boards - todo && Dark(cells, seen, e.board)
      decreases |todo|
    {
      var b :| b in todo;
      if BoardReported(cells, b) && !BoardPassed(cells, seen, b) {
        errors := errors + [DarkBoard(b)];
      }
      todo := todo - {b};
    }
  }

  // ---------------------------------------------------------------------------------------------
  // Counting the cells
  // ---------------------------------------------------------------------------------------------

  lemma {:induction false} SubsetSize<T>(a: set<T>, b: set<T>)
    requires a <= b
    ensures |a| <= |b| && (|a| == |b| ==> a == b)
    decreases |b|
  {
    if a == {} {
      assert |b| == 0 ==> b == {};
    } else {
      var x :| x in a;
      SubsetSize(a - {x}, b - {x});
      assert a == (a - {x}) + {x} && b == (b - {x}) + {x};
    }
  }

  ghost function Column(b: string, sketches: set<string>): set<Cell> {
    set s | s in sketches :: Cell(Some(b), Some(s))
  }

  lemma {:induction false} ColumnSize(b: string, sketches: set<string>)
    ensures |Column(b, sketches)| == |sketches|
    decreases |sketches|
  {
    if sketches == {} {
      assert Column(b, sketches) == {};
    } else {
      var s :| s in sketches;
      ColumnSize(b, sketches - {s});
      assert Column(b, sketches) == Column(b, sketches - {s}) + {Cell(Some(b), Some(s))};
    }
  }

  lemma {:induction false} FleetSize(boards: set<string>, sketches: set<string>)
    ensures |Fleet(boards, sketches)| == |boards| * |sketches|
    decreases |boards|
  {
    if boards == {} {
      assert Fleet(boards, sketches) == {};
    } else {
      hide Fleet, Column;
      var b :| b in boards;
      var rest := boards - {b};
      FleetSize(rest, sketches);
      ColumnSize(b, sketches);
      FleetSplit(boards, b, sketches);
      OneMore(|rest|, |sketches|, |boards|);
    }
  }

  lemma FleetSplit(boards: set<string>, b: string, sketches: set<string>)
    requires b in boards
    ensures Fleet(boards, sketches) == Fleet(boards - {b}, sketches) + Column(b, sketches)
    ensures Fleet(boards - {b}, sketches) !! Column(b, sketches)
  {
  }

  lemma OneMore(n: nat, m: nat, k: nat)
    requires k == n + 1
    ensures n * m + m == k * m
  {
  }

  lemma {:induction false} ElementsSize(s: seq<string>)
    ensures |Elements(s)| <= |s| && (|Elements(s)| == |s| <==> Distinct(s))
  {
    if s != [] {
      var rest := s[1..];
      ElementsSize(rest);
      ElementsFirst(s);
      if s[0] in rest {
        assert Elements(s) == Elements(rest);
      } else {
        assert Elements(s) == Elements(rest) + {s[0]};
      }
      hide Elements, Distinct;
    }
  }

  lemma ElementsFirst(s: seq<string>)
    requires s != []
    ensures s[0] in s[1..] <==> s[0] in Elements(s[1..])
    ensures Elements(s) == Elements(s[1..]) + {s[0]}
    ensures Distinct(s) <==> Distinct(s[1..]) && s[0] !in s[1..]
  {
    assert s == [s[0]] + s[1..];
    if Distinct(s) {
      forall j | 0 <= j < |s[1..]| ensures s[1..][j] != s[0] {
        assert s[1..][j] == s[j + 1];
      }
    }
  }

  /** The count that rule 3 takes from the fleet definition is reached exactly when every cell is there and no sketch
      is listed twice. */
  lemma WholeFleet(cells: set<Cell>, boards: set<string>, sketchIds: seq<string>)
    requires boards != {} && cells <= Fleet(boards, Elements(sketchIds))
    ensures |cells| >= |boards| * |sketchIds| <==> Distinct(sketchIds) && cells == Fleet(boards, Elements(sketchIds))
  {
    var fleet := Fleet(boards, Elements(sketchIds));
    FleetSize(boards, Elements(sketchIds));
    ElementsSize(sketchIds);
    SubsetSize(cells, fleet);
    Grows(|boards|, |Elements(sketchIds)|, |sketchIds|);
    hide Fleet, Elements, Distinct;
  }

  lemma Grows(n: nat, a: nat, b: nat)
    ensures n > 0 && a < b ==> n * a < n * b
  {
  }

  // ---------------------------------------------------------------------------------------------
  // The verdict
  // ---------------------------------------------------------------------------------------------

  ghost predicate EveryBoardPassed(seen: map<Cell, Option<string>>, skips: map<string, set<string>>) {
    forall b :: b in skips ==> exists c :: c in seen && c.board == Some(b) && seen[c] == PASS
  }

  predicate SomePass(cells: seq<Cell>, seen: map<Cell, Option<string>>) {
    exists c :: c in cells && c in seen && seen[c] == PASS
  }

  ghost predicate Whole(seen: map<Cell, Option<string>>, skips: map<string, set<string>>, sketchIds: seq<string>) {
    Distinct(sketchIds) && seen.Keys == Fleet(skips.Keys, Elements(sketchIds))
  }

  /** The rules as the table sees them. */
  ghost predicate TableHonest(seen: map<Cell, Option<string>>, skips: map<string, set<string>>, sketchIds: seq<string>) {
    Whole(seen, skips, sketchIds) && StatusesFine(seen, skips) && EveryBoardPassed(seen, skips)
  }

  lemma OrderlyFirst(rows: seq<Row>, boards: set<string>, sketches: seq<string>, i: nat)
    requires Orderly(rows, |rows|, boards, sketches) && i < |rows|
    ensures First(rows, i)
  {
  }

  lemma FleetIs(c: Cell, boards: set<string>, sketchIds: seq<string>)
    ensures InFleet(c, boards, sketchIds) <==> c in Fleet(boards, Elements(sketchIds))
  {
  }

  lemma TableStandsForRows(rows: seq<Row>, seen: map<Cell, Option<string>>, boards: set<string>, sketches: seq<string>)
    requires Orderly(rows, |rows|, boards, sketches) && Tabled(rows, |rows|, seen)
    ensures Mirrors(seen, rows)
  {
    forall i | 0 <= i < |rows| ensures CellOf(rows[i]) in seen && seen[CellOf(rows[i])] == rows[i].status {
      OrderlyFirst(rows, boards, sketches, i);
    }
    forall c | c in seen ensures exists i :: 0 <= i < |rows| && CellOf(rows[i]) == c {
      assert Among(rows, |rows|, c);
    }
  }

  lemma HonestTable(rows: seq<Row>, seen: map<Cell, Option<string>>, skips: map<string, set<string>>,
                    sketchIds: seq<string>)
    requires skips.Keys != {} && sketchIds != []
    requires Orderly(rows, |rows|, skips.Keys, sketchIds) && Tabled(rows, |rows|, seen)
    ensures Honest(rows, skips, sketchIds) <==> TableHonest(seen, skips, sketchIds)
  {
    OrderlyMeans(rows, skips.Keys, sketchIds);
    hide RowsFine, Tabled, Orderly, RowsDiffer, RowsInFleet, Covered, Distinct, StatusesFine, EveryBoardPassed, BoardsPass, Mirrors, Fleet;
    TableStandsForRows(rows, seen, skips.Keys, sketchIds);
    SameStatuses(rows, seen, skips);
    SamePasses(rows, seen, skips);
    SameCells(rows, seen, skips, sketchIds);
  }

  lemma SameCells(rows: seq<Row>, seen: map<Cell, Option<string>>, skips: map<string, set<string>>,
                  sketchIds: seq<string>)
    requires Orderly(rows, |rows|, skips.Keys, sketchIds) && Tabled(rows, |rows|, seen)
    ensures seen.Keys == Fleet(skips.Keys, Elements(sketchIds)) <==> Covered(rows, skips.Keys, sketchIds)
  {
    CellsInFleet(rows, seen, skips, sketchIds);
    if Covered(rows, skips.Keys, sketchIds) {
      forall c | c in Fleet(skips.Keys, Elements(sketchIds)) ensures c in seen {
        assert HasRow(rows, c.board.value, c.sketch.value);
        assert Among(rows, |rows|, c);
      }
    }
    if seen.Keys == Fleet(skips.Keys, Elements(sketchIds)) {
      forall b, s | b in skips.Keys && s in sketchIds ensures HasRow(rows, b, s) {
        assert Cell(Some(b), Some(s)) in seen.Keys;
        assert Among(rows, |rows|, Cell(Some(b), Some(s)));
      }
    }
  }

  /** The table and the rows say the same. */
  ghost predicate Mirrors(seen: map<Cell, Option<string>>, rows: seq<Row>) {
    && (forall i :: 0 <= i < |rows| ==> CellOf(rows[i]) in seen && seen[CellOf(rows[i])] == rows[i].status)
    && (forall c :: c in seen ==> exists i :: 0 <= i < |rows| && CellOf(rows[i]) == c)
  }

  lemma SameStatuses(rows: seq<Row>, seen: map<Cell, Option<string>>, skips: map<string, set<string>>)
    requires Mirrors(seen, rows)
    ensures StatusesFine(seen, skips) <==> RowsFine(rows, skips)
  {
    if RowsFine(rows, skips) {
      forall c | c in seen ensures seen[c] == PASS || (seen[c] == SKIPPED && Waived(c, skips)) {
        var i :| 0 <= i < |rows| && CellOf(rows[i]) == c;
        assert RowFine(rows[i], skips);
      }
    }
    if StatusesFine(seen, skips) {
      forall i | 0 <= i < |rows| ensures RowFine(rows[i], skips) {
        assert CellOf(rows[i]) in seen;
      }
    }
  }

  lemma SamePasses(rows: seq<Row>, seen: map<Cell, Option<string>>, skips: map<string, set<string>>)
    requires Mirrors(seen, rows)
    ensures EveryBoardPassed(seen, skips) <==> BoardsPass(rows, skips.Keys)
  {
  }

  /** The first row of a cell, with its status. */
  ghost predicate Has(rows: seq<Row>, c: Cell, status: Option<string>) {
    exists i :: 0 <= i < |rows| && First(rows, i) && CellOf(rows[i]) == c && rows[i].status == status
  }

  /** Row `i` is the first of its cell, for board `b`. */
  ghost predicate FirstOf(rows: seq<Row>, i: nat, b: string) {
    i < |rows| && First(rows, i) && rows[i].board == Some(b)
  }

  /** Why each error is raised. Of a cell that comes more than once the first row counts. */
  ghost predicate Deserved(e: Error, rows: seq<Row>, skips: map<string, set<string>>, sketchIds: seq<string>) {
    if skips.Keys == {} || sketchIds == [] then e == EmptyFleet
    else match e
      case EmptyFleet => false
      case Duplicate(_) => RowError(e, rows, |rows|, skips.Keys, sketchIds)
      case ForeignBoard(_) => RowError(e, rows, |rows|, skips.Keys, sketchIds)
      case ForeignSketch(_) => RowError(e, rows, |rows|, skips.Keys, sketchIds)
      case BadStatus(c) => exists st :: Has(rows, c, st) && st != Some("pass") && st != Some("skipped")
      case UndeclaredSkip(c) =>
        Has(rows, c, Some("skipped"))
        && !(c.board.Some? && c.board.value in skips && c.sketch.Some? && c.sketch.value in skips[c.board.value])
      case Incomplete(expected, got) =>
        expected == |skips| * |sketchIds| && got == |CellsOf(rows)| && got < expected
      case NothingPassed => forall c :: !Has(rows, c, Some("pass"))
      case DarkBoard(b) =>
        && b in skips && (exists i :: FirstOf(rows, i, b))
        && forall i: nat :: FirstOf(rows, i, b) ==> rows[i].status != Some("pass")
  }

  ghost function CellsOf(rows: seq<Row>): set<Cell> {
    set i | 0 <= i < |rows| :: CellOf(rows[i])
  }

  lemma HasMeans(rows: seq<Row>, seen: map<Cell, Option<string>>, c: Cell, status: Option<string>)
    requires Tabled(rows, |rows|, seen)
    ensures Has(rows, c, status) <==> c in seen && seen[c] == status
  {
    if c in seen {
      assert Among(rows, |rows|, c);
      var i := FirstRow(rows, |rows|, c);
      assert First(rows, i);
    }
    if Has(rows, c, status) {
      var i :| 0 <= i < |rows| && First(rows, i) && CellOf(rows[i]) == c && rows[i].status == status;
    }
  }

  lemma {:induction false} FirstRow(rows: seq<Row>, n: nat, c: Cell) returns (i: nat)
    requires n <= |rows| && Among(rows, n, c)
    ensures i < n && CellOf(rows[i]) == c && First(rows, i)
    decreases n
  {
    i :| 0 <= i < n && CellOf(rows[i]) == c;
    if Among(rows, i, c) { i := FirstRow(rows, i, c); }
  }

  lemma CellsTabled(rows: seq<Row>, seen: map<Cell, Option<string>>)
    requires Tabled(rows, |rows|, seen)
    ensures seen.Keys == CellsOf(rows) && |seen| == |CellsOf(rows)|
  {
    forall c ensures c in seen.Keys <==> c in CellsOf(rows) {
      assert c in seen <==> Among(rows, |rows|, c);
    }
    assert |seen| == |seen.Keys|;
  }

  lemma DarkMeans(rows: seq<Row>, seen: map<Cell, Option<string>>, cells: seq<Cell>, b: string)
    requires Tabled(rows, |rows|, seen) && Lists(cells, seen)
    ensures Dark(cells, seen, b) <==>
            && (exists i :: FirstOf(rows, i, b))
            && forall i: nat :: FirstOf(rows, i, b) ==> rows[i].status != Some("pass")
  {
    forall i: nat | FirstOf(rows, i, b) ensures CellOf(rows[i]) in seen && seen[CellOf(rows[i])] == rows[i].status {
    }
    forall c | c in seen && c.board == Some(b) ensures exists i: nat :: FirstOf(rows, i, b) && CellOf(rows[i]) == c {
      assert Among(rows, |rows|, c);
      var i := FirstRow(rows, |rows|, c);
      assert FirstOf(rows, i, b);
    }
    hide Tabled, First;
    if Dark(cells, seen, b) {
      var c :| c in cells && c.board == Some(b);
      var i: nat :| FirstOf(rows, i, b) && CellOf(rows[i]) == c;
      forall i: nat | FirstOf(rows, i, b) ensures rows[i].status != Some("pass") {
        assert CellOf(rows[i]) in cells && CellOf(rows[i]).board == Some(b);
      }
    }
  }

  lemma SomePassMeans(rows: seq<Row>, seen: map<Cell, Option<string>>, cells: seq<Cell>)
    requires Tabled(rows, |rows|, seen) && Lists(cells, seen)
    ensures SomePass(cells, seen) <==> exists c :: Has(rows, c, Some("pass"))
  {
    forall c ensures Has(rows, c, Some("pass")) <==> c in seen && seen[c] == Some("pass") {
      HasMeans(rows, seen, c, Some("pass"));
    }
    hide Has, Tabled;
  }

  lemma StatusErrorMeans(rows: seq<Row>, seen: map<Cell, Option<string>>, skips: map<string, set<string>>,
                         sketchIds: seq<string>, e: Error)
    requires Tabled(rows, |rows|, seen) && skips.Keys != {} && sketchIds != [] && (e.BadStatus? || e.UndeclaredSkip?)
    ensures StatusError(e, seen, skips) <==> Deserved(e, rows, skips, sketchIds)
  {
    var c := e.cell;
    forall st ensures Has(rows, c, st) <==> c in seen && seen[c] == st {
      HasMeans(rows, seen, c, st);
    }
    hide Has, Tabled;
    match e
    case BadStatus(_) =>
      if c in seen { assert Has(rows, c, seen[c]); }
    case UndeclaredSkip(_) =>
  }

  /** The errors of the table, rule by rule. */
  ghost predicate Raised(e: Error, rows: seq<Row>, seen: map<Cell, Option<string>>, cells: seq<Cell>,
                         skips: map<string, set<string>>, sketchIds: seq<string>)
    requires Lists(cells, seen)
  {
    || RowError(e, rows, |rows|, skips.Keys, sketchIds)
    || StatusError(e, seen, skips)
    || (|seen| < |skips| * |sketchIds| && e == Incomplete(|skips| * |sketchIds|, |seen|))
    || (!SomePass(cells, seen) && e == NothingPassed)
    || (e.DarkBoard? && e.board in skips.Keys && Dark(cells, seen, e.board))
  }

  lemma RaisedIsDeserved(e: Error, rows: seq<Row>, seen: map<Cell, Option<string>>, cells: seq<Cell>,
                         skips: map<string, set<string>>, sketchIds: seq<string>)
    requires Tabled(rows, |rows|, seen) && Lists(cells, seen) && skips.Keys != {} && sketchIds != []
    ensures Raised(e, rows, seen, cells, skips, sketchIds) <==> Deserved(e, rows, skips, sketchIds)
  {
    match e
    case EmptyFleet =>
    case Duplicate(_) => hide Twice, Among;
    case ForeignBoard(_) => hide Twice, Among;
    case ForeignSketch(_) => hide Twice, Among;
    case BadStatus(_) => StatusErrorMeans(rows, seen, skips, sketchIds, e);
      hide Tabled, Lists, Deserved;
    case UndeclaredSkip(_) => StatusErrorMeans(rows, seen, skips, sketchIds, e);
      hide Tabled, Lists, Deserved;
    case Incomplete(_, _) => CellsTabled(rows, seen);
      hide Tabled, Lists, CellsOf;
    case NothingPassed => SomePassMeans(rows, seen, cells);
      hide Tabled, Lists, SomePass, Has;
    case DarkBoard(b) => DarkMeans(rows, seen, cells, b);
      hide Tabled, Lists, Dark, FirstOf;
  }

  /** `grade`: the result is accepted exactly when it is honest, and every error is raised for its own reason. */
  method Grade(rows: seq<Row>, skips: map<string, set<string>>, sketchIds: seq<string>) returns (errors: seq<Error>)
    ensures errors == [] <==> Honest(rows, skips, sketchIds)
    ensures forall e :: e in errors <==> Deserved(e, rows, skips, sketchIds)
  {
    hide Honest, Orderly, Tabled, Lists, Fleet, StatusesFine, NoDarkBoard, SomePass, TableHonest, ErrorsAre, RowError,
         StatusError, Dark;
    BadFleetFails(rows, skips, sketchIds);
    if skips.Keys == {} || sketchIds == [] {
      return [EmptyFleet];
    }
    var seen, cells;
    errors, seen, cells := Tabulate(rows, skips.Keys, sketchIds);
    ghost var orderly := errors == [];
    RowErrorsAre(errors, rows, skips.Keys, sketchIds);
    var statuses := CheckStatuses(cells, seen, skips);
    errors := errors + statuses;
    var whole := |seen| >= |skips| * |sketchIds|;
    if !whole {
      errors := errors + [Incomplete(|skips| * |sketchIds|, |seen|)];
    }
    if !SomePass(cells, seen) {
      errors := errors + [NothingPassed];
    }
    var dark := CheckBoards(skips.Keys, cells, seen);
    errors := errors + dark;
    AllRaised(rows, seen, cells, skips, sketchIds, errors);
    if orderly {
      HonestTable(rows, seen, skips, sketchIds);
      RulesMeanHonest(rows, seen, cells, skips, sketchIds);
    }
  }

  lemma RowErrorsAre(errors: seq<Error>, rows: seq<Row>, boards: set<string>, sketches: seq<string>)
    requires ErrorsAre(errors, rows, |rows|, boards, sketches)
    ensures forall e :: e in errors <==> RowError(e, rows, |rows|, boards, sketches)
  {
  }

  lemma AllRaised(rows: seq<Row>, seen: map<Cell, Option<string>>, cells: seq<Cell>, skips: map<string, set<string>>,
                  sketchIds: seq<string>, errors: seq<Error>)
    requires Tabled(rows, |rows|, seen) && Lists(cells, seen) && skips.Keys != {} && sketchIds != []
    requires forall e :: e in errors <==> Raised(e, rows, seen, cells, skips, sketchIds)
    ensures forall e :: e in errors <==> Deserved(e, rows, skips, sketchIds)
  {
    hide Tabled, Lists, Raised, Deserved;
    forall e ensures e in errors <==> Deserved(e, rows, skips, sketchIds) {
      RaisedIsDeserved(e, rows, seen, cells, skips, sketchIds);
    }
  }

  lemma BadFleetFails(rows: seq<Row>, skips: map<string, set<string>>, sketchIds: seq<string>)
    ensures skips.Keys == {} || sketchIds == [] || !Orderly(rows, |rows|, skips.Keys, sketchIds) ==>
              !Honest(rows, skips, sketchIds)
  {
    OrderlyMeans(rows, skips.Keys, sketchIds);
    hide Orderly, RowsDiffer, RowsInFleet;
  }

  lemma RulesMeanHonest(rows: seq<Row>, seen: map<Cell, Option<string>>, cells: seq<Cell>,
                        skips: map<string, set<string>>, sketchIds: seq<string>)
    requires skips.Keys != {} && sketchIds != [] && Lists(cells, seen)
    requires Orderly(rows, |rows|, skips.Keys, sketchIds) && Tabled(rows, |rows|, seen)
    ensures TableHonest(seen, skips, sketchIds) <==>
            (StatusesFine(seen, skips) && |seen| >= |skips| * |sketchIds| && SomePass(cells, seen)
             && NoDarkBoard(skips.Keys, cells, seen))
  {
    CellsInFleet(rows, seen, skips, sketchIds);
    WholeFleet(seen.Keys, skips.Keys, sketchIds);
    assert |seen| == |seen.Keys| && |skips| == |skips.Keys|;
    assert Whole(seen, skips, sketchIds) <==> |seen| >= |skips| * |sketchIds|;
    hide StatusesFine, SomePass, NoDarkBoard, Orderly, Tabled, Whole, EveryBoardPassed;
    if Whole(seen, skips, sketchIds) {
      BoardsPassed(seen, cells, skips, sketchIds);
    }
  }

  lemma BoardsPassed(seen: map<Cell, Option<string>>, cells: seq<Cell>, skips: map<string, set<string>>,
                     sketchIds: seq<string>)
    requires skips.Keys != {} && sketchIds != [] && Lists(cells, seen) && Whole(seen, skips, sketchIds)
    ensures EveryBoardPassed(seen, skips) <==> SomePass(cells, seen) && NoDarkBoard(skips.Keys, cells, seen)
  {
    AllReported(seen, cells, skips, sketchIds);
    SomeBoardPassed(seen, cells, skips);
    hide Whole, BoardReported, BoardPassed, Lists;
  }

  lemma AllReported(seen: map<Cell, Option<string>>, cells: seq<Cell>, skips: map<string, set<string>>,
                    sketchIds: seq<string>)
    requires sketchIds != [] && Lists(cells, seen) && seen.Keys == Fleet(skips.Keys, Elements(sketchIds))
    ensures forall b :: b in skips ==> BoardReported(cells, b)
  {
    forall b | b in skips ensures BoardReported(cells, b) {
      assert Cell(Some(b), Some(sketchIds[0])) in seen.Keys;
    }
  }

  lemma SomeBoardPassed(seen: map<Cell, Option<string>>, cells: seq<Cell>, skips: map<string, set<string>>)
    requires skips.Keys != {} && Lists(cells, seen)
    ensures forall b :: BoardPassed(cells, seen, b) <==> exists c :: c in seen && c.board == Some(b) && seen[c] == PASS
    ensures (forall b :: b in skips ==> BoardPassed(cells, seen, b)) ==>
              SomePass(cells, seen)
  {
    if forall b :: b in skips ==> BoardPassed(cells, seen, b) {
      var b :| b in skips.Keys;
      assert BoardPassed(cells, seen, b);
    }
  }

  lemma CellsInFleet(rows: seq<Row>, seen: map<Cell, Option<string>>, skips: map<string, set<string>>,
                     sketchIds: seq<string>)
    requires Orderly(rows, |rows|, skips.Keys, sketchIds) && Tabled(rows, |rows|, seen)
    ensures seen.Keys <= Fleet(skips.Keys, Elements(sketchIds))
  {
    forall c | c in seen ensures c in Fleet(skips.Keys, Elements(sketchIds)) {
      assert Among(rows, |rows|, c);
      var i :| 0 <= i < |rows| && CellOf(rows[i]) == c;
      FleetIs(c, skips.Keys, sketchIds);
    }
  }
}
