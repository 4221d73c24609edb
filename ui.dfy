/** The arithmetic of evdoc's screen layout: the terminal is cut into a
    title row, a framed editor and a prompt row. */
module Ui {
  import opened Text
  import Core

  const TitleRows := 1
  const PromptRows := 1

  /** A window: its size and the screen cell of its top-left corner. */
  datatype Rect = Rect(rows: int, cols: int, startRow: int, startCol: int)
  {
    /** The first row below the window. */
    function EndRow(): int { startRow + rows }

    /** The first column right of the window. */
    function EndCol(): int { startCol + cols }
  }

  datatype Layout = Layout(terminalRows: int, terminalCols: int,
                           title: Rect, frame: Rect, editor: Rect, prompt: Rect)

  /** The layout of a terminal of `rows` by `cols` cells. Nothing guards a
      terminal too small to hold the windows: sizes may then be negative. */
  function MakeLayout(rows: int, cols: int): (l: Layout)
    ensures l.terminalRows == rows && l.terminalCols == cols
    // the title and prompt are one row each, the frame takes the rest
    ensures l.title.rows == 1 && l.prompt.rows == 1 && l.frame.rows == rows - 2
    // title, frame and prompt tile the terminal from top to bottom
    ensures l.title.startRow == 0 && l.title.EndRow() == l.frame.startRow == 1
    ensures l.frame.EndRow() == l.prompt.startRow == rows - 1 && l.prompt.EndRow() == rows
    // each of them spans the full width
    ensures l.title.startCol == 0 && l.title.EndCol() == cols
    ensures l.frame.startCol == 0 && l.frame.EndCol() == cols
    ensures l.prompt.startCol == 0 && l.prompt.EndCol() == cols
    // the editor sits one cell inside the frame on every side
    ensures l.editor.startRow == l.frame.startRow + 1 && l.editor.EndRow() == l.frame.EndRow() - 1
    ensures l.editor.startCol == l.frame.startCol + 1 && l.editor.EndCol() == l.frame.EndCol() - 1
  {
    var title := Rect(TitleRows, cols, 0, 0);
    var frame := Rect(rows - TitleRows - PromptRows, cols, 1, 0);
    var editor := Rect(frame.rows - 2, frame.cols - 2, frame.startRow + 1, frame.startCol + 1);
    var prompt := Rect(PromptRows, cols, rows - 1, 0);
    Layout(rows, cols, title, frame, editor, prompt)
  }

  /** The column where the title text starts, centred in a window
      `titleCols` wide. Python 2's `/` on integers rounds down, as Dafny's
      `/` does for a positive divisor. */
  function TitleStartCol(titleCols: int, text: string): (c: int)
    // c is the floor of half the free space
    ensures 2 * c <= titleCols - |text| < 2 * c + 2
    // when the text fits, the right margin equals the left one or exceeds it by one
    ensures |text| <= titleCols ==> 0 <= c && c <= titleCols - (c + |text|) <= c + 1
  {
    (titleCols - |text|) / 2
  }

  /** The contents of an edit box: its document's lines joined with "\n".
      For a valid document that is the text around the cursor, with one
      newline per line break, and splitting it gives the lines back. */
  function Contents(document: Core.Document): (s: string)
    reads document
    ensures document.Valid() ==> s == document.Before() + document.After()
    ensures document.Valid() ==> Split(s) == document.lines
    ensures document.Valid() ==> Newlines(s) == |document.lines| - 1
  {
    if document.Valid() then
      Core.TextAroundCursor(document.State());
      SplitJoin(document.lines);
      JoinNewlines(document.lines);
      Join(document.lines)
    else
      Join(document.lines)
  }
}
