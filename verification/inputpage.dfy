/** The editing state of the input page: the text being edited, a cursor
    counted in characters, the selected cell of the ledger, and the
    operations that move the cursor, edit the text, reload it from a cell
    and step to the next row. Scrolling, styling and the widget's own
    selection clamping are not part of this model. */
module InputPage {
  import opened Wrappers
  import opened Text
  import opened Transactions
  import opened Ledger

  datatype EditPage = EditPage(
    table: Table,
    selectedRow: Option<nat>,
    selectedColumn: Option<nat>,
    cursor: nat,
    input: string,
    errorMsg: string)

  /** `InputPage::new`: row 0 selected, no column, empty input, and the
      cursor at 1, past the end of the empty input. */
  function NewPage(table: Table): (p: EditPage)
    ensures p.table == table && p.input == "" && p.errorMsg == ""
    ensures p.selectedRow == Some(0) && p.selectedColumn.None?
    ensures p.cursor == 1 && !CursorInRange(p)
  {
    EditPage(table, Some(0), None, 1, "", "")
  }

  /** The cursor sits on a character of the input or just after the last. */
  predicate CursorInRange(p: EditPage) {
    p.cursor <= |p.input|
  }

  /** `TableState::selected_cell`: a cell is selected when both a row and a
      column are. */
  function SelectedCell(p: EditPage): (c: Option<(nat, nat)>)
    ensures c.Some? <==> p.selectedRow.Some? && p.selectedColumn.Some?
    ensures c.Some? ==> c.value == (p.selectedRow.value, p.selectedColumn.value)
  {
    match (p.selectedRow, p.selectedColumn)
    case (Some(r), Some(c)) => Some((r, c))
    case _ => None
  }

  // ---------------------------------------------------------------------------
  // Cursor moves
  // ---------------------------------------------------------------------------

  /** `clamp_cursor`: `pos.clamp(0, input.chars().count())`. */
  function ClampCursor(input: string, pos: nat): (r: nat)
    ensures r <= |input|
    ensures pos <= |input| ==> r == pos
    ensures pos > |input| ==> r == |input|
  {
    if pos <= |input| then pos else |input|
  }

  /** `move_cursor_right`: one character right, stopping at the end. */
  function MoveCursorRight(p: EditPage): (p': EditPage)
    ensures p' == p.(cursor := p'.cursor)
    ensures CursorInRange(p')
    ensures p.cursor < |p.input| ==> p'.cursor == p.cursor + 1
    ensures p.cursor >= |p.input| ==> p'.cursor == |p.input|
  {
    p.(cursor := ClampCursor(p.input, p.cursor + 1))
  }

  /** `move_cursor_left`: one character left, stopping at the start. */
  function MoveCursorLeft(p: EditPage): (p': EditPage)
    ensures p' == p.(cursor := p'.cursor)
    ensures CursorInRange(p')
    ensures p.cursor == 0 ==> p'.cursor == 0
    ensures 0 < p.cursor <= |p.input| ==> p'.cursor == p.cursor - 1
    ensures p.cursor > |p.input| ==> p'.cursor == |p.input|
  {
    p.(cursor := ClampCursor(p.input, if p.cursor == 0 then 0 else p.cursor - 1))
  }

  /** `move_cursor_home`. */
  function MoveCursorHome(p: EditPage): (p': EditPage)
    ensures p' == p.(cursor := 0)
  {
    p.(cursor := ClampCursor(p.input, 0))
  }

  /** `move_cursor_to_end`: hectec clamps the input's byte length, which
      is never below its character count, so the cursor lands exactly after
      the last character. */
  function MoveCursorToEnd(p: EditPage): (p': EditPage)
    ensures p' == p.(cursor := |p.input|)
  {
    Utf8LenBounds(p.input);
    p.(cursor := ClampCursor(p.input, Utf8Len(p.input)))
  }

  /** Left undoes right, except at the end of the input. */
  lemma RightThenLeft(p: EditPage)
    requires p.cursor < |p.input|
    ensures MoveCursorLeft(MoveCursorRight(p)) == p
  {
  }

  // ---------------------------------------------------------------------------
  // Byte offsets of characters
  // ---------------------------------------------------------------------------

  /** `char_indices().map(|(i, _)| i).nth(k)`: the byte offset at which the
      character at position `k` starts, if there is one. */
  function NthCharOffset(s: string, k: nat): (r: Option<nat>)
    ensures r.Some? <==> k < |s|
    decreases |s|
  {
    if |s| == 0 then None
    else if k == 0 then Some(0)
    else match NthCharOffset(s[1..], k - 1)
      case Some(b) => Some(Utf8Width(s[0]) + b)
      case None => None
  }

  /** The offset of the `k`-th character is the byte length of the
      characters before it. */
  lemma {:induction false} NthCharOffsetIsPrefixLength(s: string, k: nat)
    requires k < |s|
    ensures NthCharOffset(s, k) == Some(Utf8Len(s[..k]))
    decreases |s|
  {
    if k > 0 {
      NthCharOffsetIsPrefixLength(s[1..], k - 1);
      assert s[..k][1..] == s[1..][..k - 1];
    }
  }

  /** `editing_text_byte_index`: the byte offset of the character under the
      cursor, or the input's byte length when the cursor is past the end. */
  function EditingTextByteIndex(input: string, cursor: nat): (b: nat)
    ensures b == Utf8Len(input[..Min(cursor, |input|)])
  {
    if cursor < |input| then
      NthCharOffsetIsPrefixLength(input, cursor);
      NthCharOffset(input, cursor).value
    else
      assert input[..|input|] == input;
      NthCharOffset(input, cursor).GetOr(Utf8Len(input))
  }

  /** `String::insert`: inserts `ch` at byte offset `b`; `None` stands for
      the panic when `b` is not on a character boundary. */
  function InsertAtByte(s: string, b: nat, ch: char): (r: Option<string>)
    ensures r.Some? ==> |r.value| == |s| + 1
    decreases |s|
  {
    if b == 0 then Some([ch] + s)
    else if |s| == 0 || b < Utf8Width(s[0]) then None
    else match InsertAtByte(s[1..], b - Utf8Width(s[0]), ch)
      case Some(x) => Some([s[0]] + x)
      case None => None
  }

  /** Inserting at the byte offset of a character boundary inserts at that
      character position. */
  lemma {:induction false} InsertAtBoundary(s: string, j: nat, ch: char)
    requires j <= |s|
    ensures InsertAtByte(s, Utf8Len(s[..j]), ch) == Some(s[..j] + [ch] + s[j..])
    decreases j
  {
    if j > 0 {
      assert s[..j][1..] == s[1..][..j - 1];
      InsertAtBoundary(s[1..], j - 1, ch);
      assert s[1..][..j - 1] + [ch] + s[1..][j - 1..] == s[1..j] + [ch] + s[j..];
      assert [s[0]] + (s[1..j] + [ch] + s[j..]) == s[..j] + [ch] + s[j..];
      Utf8LenBounds(s[1..][..j - 1]);
      assert Utf8Len(s[..j]) >= Utf8Width(s[0]);
    } else {
      assert s[..0] + [ch] + s[0..] == [ch] + s;
      assert Utf8Len(s[..0]) == 0;
      assert InsertAtByte(s, 0, ch) == Some([ch] + s);
    }
  }

  /** Inside a character, the insertion panics. */
  lemma InsertInsideCharacterPanics()
    ensures InsertAtByte("\U{E9}", 1, 'a').None?
  {
    assert Utf8Width('\U{E9}') == 2;
  }

  // ---------------------------------------------------------------------------
  // Editing
  // ---------------------------------------------------------------------------

  /** `update_recommendation`: a new recommendation search for the selected
      cell and the current input; nothing else changes. */
  function UpdateRecommendation(p: EditPage): (p': EditPage)
    ensures p' == p.(table := p'.table)
    ensures p'.table.transactions == p.table.transactions
    ensures SelectedCell(p).None? ==> p' == p
    ensures SelectedCell(p).Some? ==>
      p'.table == UpdateRecommendedInput(p.table, SelectedCell(p).value.0, SelectedCell(p).value.1, p.input)
  {
    match SelectedCell(p)
    case Some((row, column)) => p.(table := UpdateRecommendedInput(p.table, row, column, p.input))
    case None => p
  }

  /** `enter_char`: inserts `ch` at the cursor (at the end when the cursor is
      past it), moves the cursor after it and searches again. */
  function EnterChar(p: EditPage, ch: char): (p': EditPage)
    ensures var k := Min(p.cursor, |p.input|);
            p'.input == p.input[..k] + [ch] + p.input[k..]
    ensures p'.cursor == Min(p.cursor, |p.input|) + 1
    ensures CursorInRange(p')
    ensures p' == UpdateRecommendation(p'.(table := p.table))
    ensures p'.selectedRow == p.selectedRow && p'.selectedColumn == p.selectedColumn
    ensures p'.errorMsg == p.errorMsg && p'.table.transactions == p.table.transactions
  {
    var k := Min(p.cursor, |p.input|);
    var b := EditingTextByteIndex(p.input, p.cursor);
    InsertAtBoundary(p.input, k, ch);
    var inserted := p.(input := InsertAtByte(p.input, b, ch).value);
    UpdateRecommendation(MoveCursorRight(inserted))
  }

  /** `s.chars().take(n)`. */
  function Take(s: string, n: nat): (r: string)
    ensures |r| == Min(n, |s|)
  {
    s[..Min(n, |s|)]
  }

  /** `s.chars().skip(n)`. */
  function Skip(s: string, n: nat): (r: string)
    ensures |r| == |s| - Min(n, |s|)
  {
    s[Min(n, |s|)..]
  }

  /** `delete_char` (backspace): at the start nothing happens; otherwise
      the character before the cursor goes, every other character keeps its
      order, and the cursor moves back by one. */
  function DeleteChar(p: EditPage): (p': EditPage)
    ensures p.cursor == 0 ==> p' == p
    ensures 0 < p.cursor <= |p.input| ==>
      && |p'.input| == |p.input| - 1
      && (forall k :: 0 <= k < p.cursor - 1 ==> p'.input[k] == p.input[k])
      && (forall k :: p.cursor - 1 <= k < |p'.input| ==> p'.input[k] == p.input[k + 1])
      && p'.cursor == p.cursor - 1
    ensures p.cursor > |p.input| ==> p'.input == p.input && p'.cursor == |p.input|
    ensures p.cursor > 0 ==> CursorInRange(p') && p' == UpdateRecommendation(p'.(table := p.table))
    ensures p'.selectedRow == p.selectedRow && p'.selectedColumn == p.selectedColumn
    ensures p'.errorMsg == p.errorMsg && p'.table.transactions == p.table.transactions
  {
    if p.cursor == 0 then p
    else
      var input := Take(p.input, p.cursor - 1) + Skip(p.input, p.cursor);
      assert p.cursor > |p.input| ==> input == p.input;
      UpdateRecommendation(MoveCursorLeft(p.(input := input)))
  }

  /** `delete_char_forward`: deletes the character under the cursor and
      leaves the cursor where it was; at the end of the input (or past it)
      it only drops the recommendation, moving a cursor that was past the
      end back to the end. */
  function DeleteCharForward(p: EditPage): (p': EditPage)
    ensures p.cursor < |p.input| ==>
      && p'.input == p.input[..p.cursor] + p.input[p.cursor + 1..]
      && p'.cursor == p.cursor
      && p' == UpdateRecommendation(p'.(table := p.table))
    ensures p.cursor >= |p.input| ==>
      && p'.input == p.input
      && p'.cursor == |p.input|
      && p'.table == ClearRecommended(p.table)
    ensures CursorInRange(p')
    ensures p'.selectedRow == p.selectedRow && p'.selectedColumn == p.selectedColumn
    ensures p'.errorMsg == p.errorMsg && p'.table.transactions == p.table.transactions
  {
    var moved := MoveCursorRight(p);
    if moved.cursor > p.cursor then
      var p' := DeleteChar(moved);
      assert p'.input == p.input[..p.cursor] + p.input[p.cursor + 1..];
      p'
    else moved.(table := ClearRecommended(moved.table))
  }

  /** Backspace undoes typing a character. */
  lemma EnterThenDelete(p: EditPage, ch: char)
    requires CursorInRange(p)
    ensures DeleteChar(EnterChar(p, ch)).input == p.input
    ensures DeleteChar(EnterChar(p, ch)).cursor == p.cursor
  {
    var q := EnterChar(p, ch);
    var r := DeleteChar(q);
    assert r.input == p.input;
  }

  /** Forward delete undoes typing a character once the cursor is moved back
      over it. */
  lemma EnterThenLeftThenDeleteForward(p: EditPage, ch: char)
    requires CursorInRange(p)
    ensures DeleteCharForward(MoveCursorLeft(EnterChar(p, ch))).input == p.input
    ensures DeleteCharForward(MoveCursorLeft(EnterChar(p, ch))).cursor == p.cursor
  {
    var q := MoveCursorLeft(EnterChar(p, ch));
    assert q.input[..q.cursor] + q.input[q.cursor + 1..] == p.input;
  }

  /** Every edit keeps the cursor within the input. */
  lemma EditsKeepCursorInRange(p: EditPage, ch: char)
    requires CursorInRange(p)
    ensures CursorInRange(EnterChar(p, ch))
    ensures CursorInRange(DeleteChar(p))
    ensures CursorInRange(DeleteCharForward(p))
    ensures CursorInRange(MoveCursorLeft(p)) && CursorInRange(MoveCursorRight(p))
    ensures CursorInRange(MoveCursorHome(p)) && CursorInRange(MoveCursorToEnd(p))
    ensures CursorInRange(UpdateEditingText(p))
  {
  }

  // ---------------------------------------------------------------------------
  // Reloading from the selected cell, and rows
  // ---------------------------------------------------------------------------

  /** `update_editing_text`: when a cell is selected and exists, its text
      becomes the input, the cursor goes to its end, the error is cleared
      and a recommendation search runs; otherwise nothing changes. */
  function UpdateEditingText(p: EditPage): (p': EditPage)
    ensures p'.selectedRow == p.selectedRow && p'.selectedColumn == p.selectedColumn
    ensures p'.table.transactions == p.table.transactions
    ensures SelectedCell(p).None? ==> p' == p
    ensures SelectedCell(p).Some? ==>
      var (row, column) := SelectedCell(p).value;
      match GetCellText(p.table, row, column)
      case None => p' == p
      case Some(text) =>
        && p'.input == text && p'.cursor == |text| && p'.errorMsg == ""
        && p'.table == UpdateRecommendedInput(p.table, row, column, text)
    ensures CursorInRange(p) ==> CursorInRange(p')
  {
    match SelectedCell(p)
    case None => p
    case Some((row, column)) =>
      match GetCellText(p.table, row, column)
      case None => p
      case Some(text) =>
        EditPage(UpdateRecommendedInput(p.table, row, column, text), p.selectedRow, p.selectedColumn,
                 |text|, text, "")
  }

  /** `update_selected`: selects row `i` and reloads the input. */
  function UpdateSelected(p: EditPage, i: nat): (p': EditPage)
    ensures p'.selectedRow == Some(i) && p'.selectedColumn == p.selectedColumn
    ensures p'.table.transactions == p.table.transactions
    ensures p.selectedColumn.None? ==> p' == p.(selectedRow := Some(i))
    ensures p.selectedColumn.Some? ==>
      var column := p.selectedColumn.value;
      match GetCellText(p.table, i, column)
      case None => p' == p.(selectedRow := Some(i))
      case Some(text) =>
        && p'.input == text && p'.cursor == |text| && p'.errorMsg == ""
        && p'.table == UpdateRecommendedInput(p.table, i, column, text)
  {
    UpdateEditingText(p.(selectedRow := Some(i)))
  }

  /** Selecting an existing cell shows exactly that cell's text, with the
      cursor at its end. */
  lemma SelectShowsCell(p: EditPage, i: nat)
    requires p.selectedColumn.Some? && p.selectedColumn.value < FieldCount
    requires i < |p.table.transactions|
    ensures var q := UpdateSelected(p, i);
            && GetCellText(q.table, i, p.selectedColumn.value) == Some(q.input)
            && q.cursor == |q.input| && CursorInRange(q)
  {
  }

  /** Whether stepping past the last row appends a record. */
  datatype ShouldAddNewRow = Yes | No

  /** `next_row`: steps to the next row. At the last row (or past it) it
      either appends a record and selects it, or stays on the last row; with
      no row selected it selects row 0. hectec computes `len() - 1`
      unguarded when a row is selected, so the table must not be empty then. */
  function NextRow(p: EditPage, add: ShouldAddNewRow): (p': EditPage)
    requires p.selectedRow.Some? ==> |p.table.transactions| > 0
    ensures p'.selectedColumn == p.selectedColumn
    ensures p.selectedRow.None? ==> p'.selectedRow == Some(0) && p'.table.transactions == p.table.transactions
    ensures p.selectedRow.Some? && p.selectedRow.value + 1 < |p.table.transactions| ==>
      p'.selectedRow == Some(p.selectedRow.value + 1) && p'.table.transactions == p.table.transactions
    ensures p.selectedRow.Some? && p.selectedRow.value + 1 >= |p.table.transactions| && add == Yes ==>
      && p'.selectedRow == Some(|p.table.transactions|)
      && p'.table.transactions == AppendTransaction(p.table).transactions
    ensures p.selectedRow.Some? && p.selectedRow.value + 1 >= |p.table.transactions| && add == No ==>
      p'.selectedRow == Some(|p.table.transactions| - 1) && p'.table.transactions == p.table.transactions
    ensures p.selectedRow.Some? ==> p'.selectedRow.value < |p'.table.transactions|
    ensures p'.selectedRow.Some?
    ensures p.selectedColumn.None? ==> p'.input == p.input && p'.cursor == p.cursor && p'.errorMsg == p.errorMsg
    ensures p.selectedColumn.Some? ==>
      match GetCellText(p'.table, p'.selectedRow.value, p.selectedColumn.value)
      case None => p'.input == p.input && p'.cursor == p.cursor && p'.errorMsg == p.errorMsg
      case Some(text) => p'.input == text && p'.cursor == |text| && p'.errorMsg == ""
  {
    match p.selectedRow
    case None => UpdateSelected(p, 0)
    case Some(i) =>
      var n := |p.table.transactions|;
      if i >= n - 1 then
        match add
        case Yes =>
          var appended := UpdateSelected(p.(table := AppendTransaction(p.table)), n);
          UpdateSelected(appended, n)
        case No => UpdateSelected(p, n - 1)
      else UpdateSelected(p, i + 1)
  }

  /** Stepping with `Yes` from the last row adds exactly one record, an
      empty one dated like the last, and selects it. */
  lemma NextRowAppendsOne(p: EditPage)
    requires p.selectedRow.Some? && |p.table.transactions| > 0
    requires p.selectedRow.value >= |p.table.transactions| - 1
    ensures var q := NextRow(p, Yes);
            var n := |p.table.transactions|;
            && |q.table.transactions| == n + 1
            && q.table.transactions[..n] == p.table.transactions
            && q.selectedRow == Some(n)
            && q.table.transactions[n].date == p.table.transactions[n - 1].date
            && q.table.transactions[n].amount == 0.0
  {
  }

  /** `commit_input`: writes the input (or the pending recommendation) into
      the selected cell; with no cell selected nothing happens. */
  function CommitInput(p: EditPage): (r: (EditPage, Result<(), string>))
    ensures r.0 == p.(table := r.0.table)
    ensures SelectedCell(p).None? ==> r == (p, Ok(()))
    ensures SelectedCell(p).Some? ==>
      var out := UpdateTransaction(p.table, SelectedCell(p).value.0, SelectedCell(p).value.1, p.input);
      r == (p.(table := out.table), out.status)
  {
    match SelectedCell(p)
    case None => (p, Ok(()))
    case Some((row, column)) =>
      var out := UpdateTransaction(p.table, row, column, p.input);
      (p.(table := out.table), out.status)
  }

  /** Typing into a text cell with no recommendation pending, committing and
      reloading the cell gives back what was typed, cursor at the end. */
  lemma CommitThenReloadShowsInput(p: EditPage)
    requires SelectedCell(p).Some? && p.table.recommended.None?
    requires SelectedCell(p).value.0 < |p.table.transactions|
    requires SelectedCell(p).value.1 < FieldCount && IsTextField(FieldAt(SelectedCell(p).value.1).value)
    ensures var q := UpdateEditingText(CommitInput(p).0);
            CommitInput(p).1.Ok? && q.input == p.input && q.cursor == |p.input|
  {
  }

  /** `delete_transaction`: removes the selected row's record, if any. */
  function DeleteSelected(p: EditPage): (p': EditPage)
    ensures p' == p.(table := p'.table)
    ensures p.selectedRow.None? ==> p' == p
    ensures p.selectedRow.Some? ==> p'.table == DeleteTransaction(p.table, p.selectedRow.value)
  {
    match p.selectedRow
    case Some(i) => p.(table := DeleteTransaction(p.table, i))
    case None => p
  }
}
