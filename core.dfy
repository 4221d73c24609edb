/** The line-structured text document of evdoc: a non-empty list of lines
    and a cursor (line, col) into them. */
module Core {
  import opened Text

  /** Python's `curses.ascii.isprint`: the ASCII codes 32 to 126. */
  predicate IsPrint(c: char)
    ensures IsPrint(c) ==> c != '\n'
  {
    32 <= c as int <= 126
  }

  /** The value of a document at one moment: its lines and its cursor. */
  datatype DocState = DocState(lines: seq<string>, line: nat, col: nat)
  {
    /** There is at least one line, and the cursor is on a line and at most
        one past its last character. */
    predicate InBounds()
    {
      |lines| >= 1 && line < |lines| && col <= |lines[line]|
    }

    /** The document invariant: cursor in bounds and no stored line holds
        a newline. */
    predicate Valid()
    {
      InBounds() && AllNoNewline(lines)
    }

    /** The text of the document before the cursor, lines joined with "\n". */
    function Before(): string
      requires InBounds()
    {
      Join(lines[..line] + [lines[line][..col]])
    }

    /** The text of the document from the cursor on. */
    function After(): string
      requires InBounds()
    {
      Join([lines[line][col..]] + lines[line + 1..])
    }
  }

  /** The cursor cuts the document's text in two. */
  lemma TextAroundCursor(st: DocState)
    requires st.InBounds()
    ensures Join(st.lines) == st.Before() + st.After()
  {
    var cur := st.lines[st.line];
    assert cur == cur[..st.col] + cur[st.col..];
    assert st.lines == st.lines[..st.line] + [cur[..st.col] + cur[st.col..]] + st.lines[st.line + 1..];
    JoinGlue(st.lines[..st.line], cur[..st.col], cur[st.col..], st.lines[st.line + 1..]);
  }

  /** A valid document is determined by the text on either side of its
      cursor: its lines are the lines of the whole text, and its cursor sits
      at the end of the last line of the text before it. */
  lemma Determined(st: DocState)
    requires st.Valid()
    ensures st.lines == Split(st.Before() + st.After())
    ensures st.line == |Split(st.Before())| - 1
    ensures st.col == |Last(Split(st.Before()))|
  {
    TextAroundCursor(st);
    SplitJoin(st.lines);
    var cur := st.lines[st.line];
    NoNewlineSlice(cur, 0, st.col);
    var upto := st.lines[..st.line] + [cur[..st.col]];
    assert AllNoNewline(upto) by {
      forall i | 0 <= i < |upto| ensures NoNewline(upto[i]) {
        if i < st.line {
          assert upto[i] == st.lines[i];
        }
      }
    }
    SplitJoin(upto);
  }

  /** Two valid documents with the same text on each side of the cursor are
      the same document. */
  lemma DeterminedUnique(st1: DocState, st2: DocState)
    requires st1.Valid() && st2.Valid()
    requires st1.Before() == st2.Before() && st1.After() == st2.After()
    ensures st1 == st2
  {
    Determined(st1);
    Determined(st2);
  }

  /** Inserting `s` into a fresh document, whatever the steps, leaves the
      lines of `s`, whose join is `s` again, with the cursor at the end of
      the last of them. */
  lemma FreshInsertion(s: string, st: DocState)
    requires st.Valid()
    requires st.Before() == s && st.After() == ""
    ensures st.lines == Split(s) && Join(st.lines) == s
    ensures st.line == |Split(s)| - 1 && st.col == |Last(Split(s))|
  {
    assert st.Before() + st.After() == s;
    Determined(st);
    JoinSplit(s);
  }

  class Document {
    var lines: seq<string>
    var line: nat
    var col: nat

    function State(): DocState
      reads this
    {
      DocState(lines, line, col)
    }

    predicate InBounds()
      reads this
    {
      State().InBounds()
    }

    predicate Valid()
      reads this
    {
      State().Valid()
    }

    ghost function Before(): string
      reads this
      requires InBounds()
    {
      State().Before()
    }

    ghost function After(): string
      reads this
      requires InBounds()
    {
      State().After()
    }

    /** A new document holds one empty line, with the cursor at its start. */
    constructor ()
      ensures lines == [""] && line == 0 && col == 0
      ensures Valid() && Before() == "" && After() == ""
    {
      lines := [""];
      line := 0;
      col := 0;
    }

    /** Places the cursor, moving it back onto the last line and to the end
        of its line when it lies beyond them. */
    method SetCursor(l: nat, c: nat)
      requires |lines| >= 1
      modifies this
      ensures InBounds() && (old(Valid()) ==> Valid())
      ensures lines == old(lines)
      ensures line == if l > |lines| - 1 then |lines| - 1 else l
      ensures col == if c > |lines[line]| then |lines[line]| else c
    {
      var maxLine := |lines| - 1;
      line := if l > maxLine then maxLine else l;
      var maxCol := |lines[line]|;
      col := if c > maxCol then maxCol else c;
    }

    method GetCursor() returns (cursor: (nat, nat))
      ensures cursor == (line, col)
    {
      cursor := (line, col);
    }

    /** Splices `s` into the current line at the cursor and moves the cursor
        past it. The caller is to pass a string without newlines. */
    method InsertString(s: string)
      requires InBounds()
      modifies this
      ensures InBounds()
      ensures lines == old(lines[line := lines[line][..col] + s + lines[line][col..]])
      ensures line == old(line) && col == old(col) + |s|
      ensures Before() == old(Before()) + s && After() == old(After())
      ensures old(Valid()) && NoNewline(s) ==> Valid()
    {
      if |s| > 0 {
        ghost var prefix := lines[..line];
        ghost var suffix := lines[line + 1..];
        ghost var was := lines;
        var current := lines[line];
        var lhs := current[..col];
        var rhs := current[col..];
        lines := lines[line := lhs + s + rhs];
        col := col + |s|;
        assert lines[..line] == prefix && lines[line + 1..] == suffix;
        assert lines[line][..col] == lhs + s && lines[line][col..] == rhs;
        JoinGlue(prefix, lhs, s, []);
        assert prefix + [lhs + s] + [] == prefix + [lhs + s];
        assert Join([s]) == s;
        if AllNoNewline(was) && NoNewline(s) {
          NoNewlineSlice(current, 0, |lhs|);
          NoNewlineSlice(current, |lhs|, |current|);
          assert NoNewline(lhs + s + rhs);
        }
      } else {
        assert lines[line][..col] + s + lines[line][col..] == lines[line];
      }
    }

    /** Splits the current line at the cursor: the text after the cursor
        becomes a new line below, and the cursor moves to its start. */
    method InsertNewLine()
      requires InBounds()
      modifies this
      ensures InBounds()
      ensures |lines| == old(|lines|) + 1
      ensures lines == old(lines[..line] + [lines[line][..col], lines[line][col..]] + lines[line + 1..])
      ensures line == old(line) + 1 && col == 0
      ensures Before() == old(Before()) + "\n" && After() == old(After())
      ensures old(Valid()) ==> Valid()
    {
      ghost var prefix := lines[..line];
      ghost var suffix := lines[line + 1..];
      ghost var was := lines;
      var current := lines[line];
      var lhs := current[..col];
      var rhs := current[col..];
      lines := lines[..line + 1] + [rhs] + lines[line + 1..];
      lines := lines[line := lhs];
      line := line + 1;
      col := 0;
      assert lines == prefix + [lhs, rhs] + suffix;
      assert lines[..line] + [lines[line][..col]] == (prefix + [lhs]) + [""];
      JoinConcat(prefix + [lhs], [""]);
      assert [lines[line][col..]] + lines[line + 1..] == [rhs] + suffix;
      if AllNoNewline(was) {
        NoNewlineSlice(current, 0, |lhs|);
        NoNewlineSlice(current, |lhs|, |current|);
        forall i | 0 <= i < |lines| ensures NoNewline(lines[i]) {
          if i > line {
            assert lines[i] == was[i - 1];
          } else if i < line - 1 {
            assert lines[i] == was[i];
          }
        }
      }
    }

    /** Inserts one character: a newline splits the line, a printable
        character is spliced in, and anything else is ignored. */
    method AddChar(c: char)
      requires Valid()
      modifies this
      ensures Valid()
      ensures c == '\n' ==>
        lines == old(lines[..line] + [lines[line][..col], lines[line][col..]] + lines[line + 1..]) &&
        line == old(line) + 1 && col == 0
      ensures IsPrint(c) ==>
        lines == old(lines[line := lines[line][..col] + [c] + lines[line][col..]]) &&
        line == old(line) && col == old(col) + 1
      ensures c != '\n' && !IsPrint(c) ==> lines == old(lines) && line == old(line) && col == old(col)
      ensures Before() == old(Before()) + (if c == '\n' || IsPrint(c) then [c] else [])
      ensures After() == old(After())
    {
      if c == '\n' {
        InsertNewLine();
      } else if IsPrint(c) {
        InsertString([c]);
      } else {
        assert old(Before()) + [] == old(Before());
      }
    }

    /** Inserts a string at the cursor. Each run of characters up to the next
        newline is spliced in as it is (no printable filter), and each
        newline splits the line. */
    method AddStr(s: string)
      requires Valid()
      modifies this
      ensures Valid()
      ensures Before() == old(Before()) + s && After() == old(After())
      ensures lines == Split(old(Before()) + s + old(After()))
      ensures line == |Split(old(Before()) + s)| - 1
      ensures col == |Last(Split(old(Before()) + s))|
    {
      ghost var before0, after0 := Before(), After();
      var start := 0;
      var length := |s|;
      while start < length
        invariant 0 <= start <= length + 1
        invariant Valid()
        invariant Before() == before0 + s[..if start <= length then start else length]
        invariant After() == after0
        decreases length + 1 - start
      {
        var end := start;
        while end < length && s[end] != '\n'
          invariant start <= end <= length
          invariant forall k :: start <= k < end ==> s[k] != '\n'
        {
          end := end + 1;
        }
        assert s[..start] + s[start..end] == s[..end];
        InsertString(s[start..end]);
        if end < length && s[end] == '\n' {
          assert s[..end] + "\n" == s[..end + 1];
          InsertNewLine();
        }
        start := end + 1;
      }
      assert s[..length] == s;
      Determined(State());
    }
  }

  /** A new document after `addstr(s)`: its lines are the lines of `s`,
      their join is `s`, and the cursor is at the end of the last line. */
  method FreshAddStr(s: string) returns (d: Document)
    ensures d.lines == Split(s) && Join(d.lines) == s
    ensures d.line == |Split(s)| - 1 && d.col == |Last(Split(s))|
  {
    d := new Document();
    d.AddStr(s);
    assert "" + s + "" == s && "" + s == s;
    JoinSplit(s);
  }
}
