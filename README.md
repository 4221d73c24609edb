# evdoc document model in Dafny

evdoc is a terminal text editor written in Python 2 and curses. Its core is
`Document`. A document is a list of lines that is never empty, plus a cursor
`(line, col)`. Characters and strings are inserted at the cursor. A newline
splits the current line in two. Around the document, the UI computes a
screen layout of title, frame, editor and prompt windows, centres the title,
and produces the editor contents by joining the lines with `"\n"`.

The project has three modules:

- `Text` (`text.dfy`): `Split` and `Join`, which behave like Python's
  `s.split("\n")` and `"\n".join(lines)`, and their round-trip lemmas.
- `Core` (`core.dfy`): the class `Document`, with fields `lines`, `line` and
  `col`, and one method per operation of the Python class. Beside it is the
  value `DocState`, used to state facts about a document.
- `Ui` (`ui.dfy`): the layout arithmetic, the title's start column and
  `Contents`.

The central idea is a flat-text view of a document. `Before()` is the text in
front of the cursor and `After()` is the text from the cursor on, each with
its lines joined by `"\n"`.

- Every insertion is specified by what it appends to `Before()` while leaving
  `After()` as it was.
- The lemma `Determined` shows that a valid document is fixed by these two
  strings. From that, `AddStr` gets its closed form: the new lines are
  `Split(before + s + after)`.
- `FreshInsertion` draws the consequence for a new document: the lines are
  `Split(s)`, their join is `s`, and the cursor ends at the end of the last
  line. `FreshAddStr` states the same of a new `Document` after `AddStr(s)`.

The document invariant `Valid()` has three parts: at least one line, the
cursor in bounds, and no stored line holding a newline.

- `AddChar` and `AddStr` require it, and every method preserves it.
- The two private helpers, `_insert_string` and `_insert_new_line`, need only
  the bounds part (`InBounds()`). `InsertString` keeps the no-newline part
  when its argument has no newline. The source only assumes that in a
  docstring (evdoc/core.py:51-53).

Printable means `curses.ascii.isprint`, the ASCII codes 32 to 126. `addstr`
does not apply that filter: every character except `"\n"` is spliced in as it
is. `set_cursor` clamps only from above. Its arguments are `nat`, so the
negative indices Python would allow are not modelled.

The terminal size, which the source reads by running `stty size`, is a pair
of parameters of `MakeLayout`. Python 2's integer `/` rounds down. Dafny's `/`
does the same for the positive divisor 2, so the title column is
`(cols - |text|) / 2` in both languages.

## Model

| member | source | states |
|---|---|---|
| `Core.Document.constructor` | evdoc/core.py:8-11 | a new document is `[""]` with the cursor at (0, 0); it is valid, with empty text on both sides of the cursor |
| `Core.Document.SetCursor` | evdoc/core.py:14-19 | `line := min(l, |lines|-1)`, then `col := min(c, |lines[line]|)`; `lines` is unchanged; the cursor ends in bounds and validity is kept |
| `Core.Document.GetCursor` | evdoc/core.py:21-23 | returns `(line, col)` and changes nothing |
| `Core.Document.InsertString` | evdoc/core.py:50-63 | the current line becomes `lhs + s + rhs`, split at `col`; other lines and the line count are unchanged; `col` grows by `|s|` (so an empty `s` changes nothing); `s` is appended to the text before the cursor and the text after it is unchanged; bounds are kept, and validity is kept for a newline-free `s` |
| `Core.Document.InsertNewLine` | evdoc/core.py:65-77 | the line count grows by one; the current line is replaced by its parts before and after `col`; earlier lines are unchanged and later ones shift down by one; the cursor moves to `(line+1, 0)`; `"\n"` is appended to the text before the cursor; validity is kept |
| `Core.Document.AddChar` | evdoc/core.py:25-33 | `"\n"` splits the line; a printable ASCII character is spliced in and `col` advances by one; any other character leaves the document unchanged; the text before the cursor grows by exactly the accepted character |
| `Core.Document.AddStr` | evdoc/core.py:35-48 | `s` is appended, unfiltered, to the text before the cursor, and the text after it is unchanged; the new lines are `Split(before + s + after)`; the cursor is on the last line of `before + s`, at its end; validity is kept |
| `Core.IsPrint` | evdoc/core.py:32 | the printable characters are ASCII 32 to 126, so a newline is never printable and the branches of `addchar` are disjoint |
| `Core.FreshAddStr` | evdoc/core.py:35-48 | a new document after `addstr(s)` has `lines == Split(s)`, their join is `s`, and the cursor is on the last line at its end |
| `Core.TextAroundCursor` | evdoc/core.py:57-59 | the joined lines are the text before the cursor followed by the text after it |
| `Core.Determined` | evdoc/core.py:39-47 | a valid document's lines are the `Split` of its whole text, and its cursor is at the end of the last line of the text before the cursor |
| `Core.DeterminedUnique` | evdoc/core.py:39-47 | two valid documents with the same text on each side of the cursor are equal |
| `Core.FreshInsertion` | evdoc/core.py:35-48 | inserting `s` into a fresh document gives `lines == Split(s)` with `Join(lines) == s`, and the cursor on the last line at the length of the text after the last newline |
| `Text.Split` | evdoc/core.py:39-45 | a string always has at least one line |
| `Text.SplitNoNewline` | evdoc/core.py:42-45 | no line produced by the scan contains `"\n"` |
| `Text.SplitNewlines` | evdoc/core.py:42-47 | there is one more line than there are newlines |
| `Text.SplitPlain` | evdoc/core.py:50-53 | a newline-free string is one line |
| `Text.SplitAppend` | evdoc/core.py:44-47 | the lines of `x + y` are those of `x` and of `y`, with the last line of `x` fused to the first line of `y` |
| `Text.JoinConcat` | evdoc/core.py:73-74 | joining two non-empty line lists puts one newline between their joins |
| `Text.JoinGlue` | evdoc/core.py:57-61 | cutting one line in two at any point does not change the text around the cut |
| `Text.JoinEnds` | evdoc/ui.py:101 | the joined text starts with the first line and ends with the last line |
| `Text.JoinSplit` | evdoc/ui.py:99-101 | joining the lines of a string gives the string back |
| `Text.SplitJoin` | evdoc/ui.py:99-101 | splitting the join of newline-free lines gives the lines back |
| `Text.JoinNewlines` | evdoc/ui.py:99-101 | the join of `n` newline-free lines holds `n - 1` newlines |
| `Ui.MakeLayout` | evdoc/ui.py:10-41 | the title and prompt are one row each and the frame has `rows - 2` rows; title, frame and prompt tile the terminal from row 0 (frame from row 1, prompt from `rows - 1`) and span its full width from column 0; the editor is inset one cell inside the frame on every side |
| `Ui.TitleStartCol` | evdoc/ui.py:57 | the start column is the floor of half the free width; when the text fits, the right margin equals the left margin or exceeds it by one |
| `Ui.Contents` | evdoc/ui.py:99-101 | for a valid document, the contents are the text before the cursor followed by the text after it; they hold `|lines| - 1` newlines, and splitting them gives back `lines` |

## Left out

- `Layout.terminal_size` (evdoc/ui.py:44-47) runs `stty size` through `os.popen`. The terminal size is a parameter instead.
- All curses window work is foreign library I/O and is not modelled: `newwin`, drawing with `addstr`, `border`, `refresh`, `redrawln`, `move`, `getch` and `keypad`.
- `EditBox.edit`, `Prompt.edit` and `App.start` are interactive loops over curses key codes that also write a debug log. They are I/O, so they are not modelled.
- The `App` curses start/stop lifecycle and its class-level `running` flag are global state guarding curses. They are not modelled.
- Argument parsing and version printing in `evdoc/main.py` are not modelled.
- `Document.addch`, `backspace`, `delete`, `move_up`, `move_down`, `move_left`, `move_right`, `getyx` and `clear` are called from `evdoc/ui.py` but have no definition in `evdoc/core.py`. No semantics are given to them.
- There is no scrolling or viewport in the code: `EditBox.redraw` draws `lines[0:rows]` from the top. Nothing of it is modelled.
- `WordWrappedDocument` is an empty stub with no behaviour.
- `Core.Document.SetCursor`: Python would accept negative arguments and index from the end of the list. The model takes `nat` arguments, so that case is not covered.
- `Core.Document.InsertString`: a string that contains a newline is spliced in as it is, just as the source would do. The no-newline invariant is then promised only for newline-free strings.
