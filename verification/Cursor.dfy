/** The selection cursor of src/hstr_selection.c: rows of the screen, and the items they stand for. */
module Cursor {

  const IN_PROMPT: int := -1
  const PG_JUMP_SIZE: int := 10

  function Min(a: int, b: int): int {
    if a < b then a else b
  }

  /** hstr_selection_index. */
  function SelectionIndex(cursor: int, promptBottom: bool, promptItems: int, selectionSize: int): int {
    if cursor == IN_PROMPT then -1
    else
      var index := if promptBottom then promptItems - cursor - 1 else cursor;
      if 0 <= index < selectionSize then index else -1
  }

  /** The rows that hold items, and the first of them. */
  function Rows(promptItems: int, selectionSize: int): int {
    Min(selectionSize, promptItems)
  }

  function FirstRow(promptBottom: bool, promptItems: int, selectionSize: int): int {
    if promptBottom then promptItems - Rows(promptItems, selectionSize) else 0
  }

  /** hstr_selection_cursor_move. */
  function CursorMove(cursor: int, step: int, promptBottom: bool, promptItems: int, selectionSize: int): int {
    var rows := Rows(promptItems, selectionSize);
    if rows <= 0 then IN_PROMPT
    else
      var first := FirstRow(promptBottom, promptItems, selectionSize);
      var last := first + rows - 1;
      if cursor == IN_PROMPT then (if step == -1 then last else first)
      else
        var moved := cursor + step;
        if step == -1 || step == 1 then (if moved < first then last else if moved > last then first else moved)
        else if moved < first then first else if moved > last then last else moved
  }

  /** The cursor is on a row that holds an item. */
  predicate OnRow(cursor: int, promptBottom: bool, promptItems: int, selectionSize: int) {
    var first := FirstRow(promptBottom, promptItems, selectionSize);
    first <= cursor < first + Rows(promptItems, selectionSize)
  }

  /** The row that shows item i. */
  function RowOf(i: int, promptBottom: bool, promptItems: int): int {
    if promptBottom then promptItems - 1 - i else i
  }

  /** The rows that hold items are exactly those with an index below the row count, and different rows
      have different indices: row to index is a bijection onto [0, rows). */
  lemma RowsAreIndices(promptBottom: bool, promptItems: nat, selectionSize: nat)
    requires selectionSize <= promptItems
    ensures forall cursor :: OnRow(cursor, promptBottom, promptItems, selectionSize)
                        <==> SelectionIndex(cursor, promptBottom, promptItems, selectionSize) >= 0
    ensures forall c, d ::
              OnRow(c, promptBottom, promptItems, selectionSize) && OnRow(d, promptBottom, promptItems, selectionSize)
              && c != d ==>
              SelectionIndex(c, promptBottom, promptItems, selectionSize)
              != SelectionIndex(d, promptBottom, promptItems, selectionSize)
    ensures forall i :: 0 <= i < selectionSize ==>
              OnRow(RowOf(i, promptBottom, promptItems), promptBottom, promptItems, selectionSize)
              && SelectionIndex(RowOf(i, promptBottom, promptItems), promptBottom, promptItems, selectionSize) == i
  {
  }

  /** Any move, from anywhere, ends on a row that holds an item, or in the prompt if there is none. */
  lemma MoveLandsOnRow(cursor: int, step: int, promptBottom: bool, promptItems: int, selectionSize: int)
    ensures var moved := CursorMove(cursor, step, promptBottom, promptItems, selectionSize);
            if Rows(promptItems, selectionSize) > 0 then OnRow(moved, promptBottom, promptItems, selectionSize)
            else moved == IN_PROMPT
  {
  }

  /** Page moves, and the move by no row after a deletion, end on the row nearest to where they aim. */
  lemma PageMoveIsNearest(cursor: int, step: int, promptBottom: bool, promptItems: int, selectionSize: int, row: int)
    requires cursor != IN_PROMPT && step != 1 && step != -1 && OnRow(row, promptBottom, promptItems, selectionSize)
    ensures var moved, aim := CursorMove(cursor, step, promptBottom, promptItems, selectionSize), cursor + step;
            OnRow(moved, promptBottom, promptItems, selectionSize) && Distance(moved, aim) <= Distance(row, aim)
  {
  }

  function Distance(a: int, b: int): nat {
    if a < b then b - a else a - b
  }

  // ---- line moves

  /** k line moves down. */
  function Downs(cursor: int, k: nat, promptBottom: bool, promptItems: int, selectionSize: int): int {
    if k == 0 then cursor
    else CursorMove(Downs(cursor, k - 1, promptBottom, promptItems, selectionSize), 1, promptBottom, promptItems,
                    selectionSize)
  }

  /** Line moves go round the rows. */
  lemma {:induction false} DownsAreCyclic(cursor: int, k: nat, promptBottom: bool, promptItems: int, selectionSize: int)
    requires OnRow(cursor, promptBottom, promptItems, selectionSize)
    ensures var first, rows := FirstRow(promptBottom, promptItems, selectionSize), Rows(promptItems, selectionSize);
            Downs(cursor, k, promptBottom, promptItems, selectionSize) == first + (cursor - first + k) % rows
  {
    var first, rows := FirstRow(promptBottom, promptItems, selectionSize), Rows(promptItems, selectionSize);
    if k > 0 {
      DownsAreCyclic(cursor, k - 1, promptBottom, promptItems, selectionSize);
      NextRemainder(cursor - first + k - 1, rows);
    } else {
      SmallRemainder(cursor - first, rows);
    }
  }

  lemma SmallRemainder(a: int, n: int)
    requires 0 <= a < n
    ensures a % n == a
  {
  }

  lemma NextRemainder(a: int, n: int)
    requires n > 0
    ensures (a + 1) % n == if a % n + 1 == n then 0 else a % n + 1
  {
    var q, r := a / n, a % n;
    assert a == q * n + r;
    if r + 1 == n {
      assert a + 1 == (q + 1) * n;
      RemainderIs(a + 1, n, q + 1, 0);
    } else {
      RemainderIs(a + 1, n, q, r + 1);
    }
  }

  lemma RemainderIs(a: int, n: int, q: int, r: int)
    requires n > 0 && 0 <= r < n && a == q * n + r
    ensures a % n == r
  {
    var p, s := a / n, a % n;
    var d := p - q;
    assert d * n == r - s by {
      assert a == p * n + s;
      assert d * n == p * n - q * n;
    }
    if d >= 1 {
      ProductNonNegative(d - 1, n);
    } else if d <= -1 {
      ProductNonNegative(-d - 1, n);
    }
  }

  lemma ProductNonNegative(x: int, y: int)
    requires x >= 0 && y >= 0
    ensures x * y >= 0
  {
  }

  /** The prompt lies between the last row and the first: up enters where up from the first row goes, and any other
      move enters where down from the last row goes. */
  lemma PromptIsBetween(step: int, promptBottom: bool, promptItems: int, selectionSize: int)
    requires Rows(promptItems, selectionSize) > 0
    ensures var first := FirstRow(promptBottom, promptItems, selectionSize);
            var last := first + Rows(promptItems, selectionSize) - 1;
            CursorMove(IN_PROMPT, step, promptBottom, promptItems, selectionSize) ==
              if step == -1 then CursorMove(first, -1, promptBottom, promptItems, selectionSize)
              else CursorMove(last, 1, promptBottom, promptItems, selectionSize)
  {
  }

  /** Up and down undo each other. */
  lemma UpUndoesDown(cursor: int, promptBottom: bool, promptItems: int, selectionSize: int)
    requires OnRow(cursor, promptBottom, promptItems, selectionSize)
    ensures var down := CursorMove(cursor, 1, promptBottom, promptItems, selectionSize);
            CursorMove(down, -1, promptBottom, promptItems, selectionSize) == cursor
    ensures var up := CursorMove(cursor, -1, promptBottom, promptItems, selectionSize);
            CursorMove(up, 1, promptBottom, promptItems, selectionSize) == cursor
  {
  }

  // ---- the prompt at the bottom

  /** The row that shows the same item with the prompt at the other end. */
  function Mirror(cursor: int, promptItems: int): int {
    promptItems - 1 - cursor
  }

  /** With the prompt at the bottom the rows are upside down: a row and its mirror stand for the same item,
      and a move there is the opposite move here. */
  lemma BottomMirrorsTop(cursor: int, step: int, promptItems: int, selectionSize: int)
    requires OnRow(cursor, false, promptItems, selectionSize)
    ensures OnRow(Mirror(cursor, promptItems), true, promptItems, selectionSize)
    ensures SelectionIndex(Mirror(cursor, promptItems), true, promptItems, selectionSize)
         == SelectionIndex(cursor, false, promptItems, selectionSize)
    ensures CursorMove(Mirror(cursor, promptItems), -step, true, promptItems, selectionSize)
         == Mirror(CursorMove(cursor, step, false, promptItems, selectionSize), promptItems)
  {
  }
}
