/** Newline-separated text: splitting a string into its lines and joining
    lines back with "\n" separators, as Python's `s.split("\n")` and
    `"\n".join(lines)` do. */
module Text {

  /** The number of newline characters in `s`. */
  function Newlines(s: string): nat
  {
    multiset(s)['\n']
  }

  predicate NoNewline(s: string)
  {
    '\n' !in s
  }

  predicate AllNoNewline(ls: seq<string>)
  {
    forall i :: 0 <= i < |ls| ==> NoNewline(ls[i])
  }

  function Last(ls: seq<string>): string
    requires |ls| > 0
  {
    ls[|ls| - 1]
  }

  /** `"\n".join(ls)`: the lines with one newline between neighbours. */
  function Join(ls: seq<string>): string
  {
    if |ls| == 0 then ""
    else if |ls| == 1 then ls[0]
    else ls[0] + "\n" + Join(ls[1..])
  }

  /** The joined text opens with the first line and closes with the last. */
  lemma {:induction false} JoinEnds(ls: seq<string>)
    requires |ls| >= 1
    ensures ls[0] <= Join(ls)
    ensures |Last(ls)| <= |Join(ls)| && Join(ls)[|Join(ls)| - |Last(ls)|..] == Last(ls)
  {
    if |ls| > 1 {
      JoinEnds(ls[1..]);
      var j := Join(ls[1..]);
      assert Join(ls) == ls[0] + ("\n" + j);
      assert Last(ls[1..]) == Last(ls);
      assert Join(ls)[|Join(ls)| - |Last(ls)|..] == j[|j| - |Last(ls)|..];
    }
  }

  /** `s.split("\n")`: the maximal newline-free runs of `s`, in order,
      never none. */
  function Split(s: string): (r: seq<string>)
    ensures |r| >= 1
  {
    if |s| == 0 then [""]
    else
      var rest := Split(s[1..]);
      if s[0] == '\n' then [""] + rest
      else [[s[0]] + rest[0]] + rest[1..]
  }

  /** Every line `Split` produces is free of newlines. */
  lemma {:induction false} SplitNoNewline(s: string)
    ensures AllNoNewline(Split(s))
  {
    if |s| > 0 {
      SplitNoNewline(s[1..]);
    }
  }

  /** `Split` produces one more line than there are newlines. */
  lemma {:induction false} SplitNewlines(s: string)
    ensures |Split(s)| == Newlines(s) + 1
  {
    if |s| > 0 {
      assert s == [s[0]] + s[1..];
      SplitNewlines(s[1..]);
    }
  }

  lemma NoNewlineSlice(s: string, i: nat, j: nat)
    requires i <= j <= |s|
    requires NoNewline(s)
    ensures NoNewline(s[i..j])
  {
  }

  /** A newline-free string is a single line. */
  lemma {:induction false} SplitPlain(s: string)
    requires NoNewline(s)
    ensures Split(s) == [s]
  {
    if |s| > 0 {
      NoNewlineSlice(s, 1, |s|);
      SplitPlain(s[1..]);
      assert s == [s[0]] + s[1..];
    }
  }

  /** One unfolding of `Split` on a string that starts with `c`. */
  lemma SplitCons(c: char, t: string)
    ensures Split([c] + t)
         == if c == '\n' then [""] + Split(t) else [[c] + Split(t)[0]] + Split(t)[1..]
  {
    assert ([c] + t)[0] == c;
    assert ([c] + t)[1..] == t;
  }

  /** The lines of `a` followed by the lines of `b`, where the last line of
      `a` and the first line of `b` are one and the same line. */
  function Fuse(a: seq<string>, b: seq<string>): seq<string>
    requires |a| >= 1 && |b| >= 1
  {
    a[..|a| - 1] + [Last(a) + b[0]] + b[1..]
  }

  lemma FuseCons(h: string, a: seq<string>, b: seq<string>)
    requires |a| >= 1 && |b| >= 1
    ensures Fuse([h] + a, b) == [h] + Fuse(a, b)
  {
    assert ([h] + a)[..|a|] == [h] + a[..|a| - 1];
  }

  lemma FuseSingle(h: string, b: seq<string>)
    requires |b| >= 1
    ensures Fuse([h], b) == [h + b[0]] + b[1..]
  {
  }

  /** Splitting a concatenation: the last line of `x` and the first line of
      `y` fuse into one line, all other lines are kept. */
  lemma {:induction false} SplitAppend(x: string, y: string)
    ensures Split(x + y) == Fuse(Split(x), Split(y))
  {
    if |x| == 0 {
      assert x + y == y;
      assert Split(x) == [""];
      FuseSingle("", Split(y));
      assert "" + Split(y)[0] == Split(y)[0];
      assert Split(y) == [Split(y)[0]] + Split(y)[1..];
    } else {
      var c, t := x[0], x[1..];
      assert x == [c] + t;
      assert x + y == [c] + (t + y);
      SplitAppend(t, y);
      SplitCons(c, t);
      SplitCons(c, t + y);
      var st, sy, sty := Split(t), Split(y), Split(t + y);
      if c == '\n' {
        FuseCons("", st, sy);
      } else if |st| == 1 {
        assert Split(x) == [[c] + st[0]];
        FuseSingle([c] + st[0], sy);
        assert st == [st[0]];
        FuseSingle(st[0], sy);
        assert sty[0] == st[0] + sy[0] && sty[1..] == sy[1..];
        assert [c] + st[0] + sy[0] == [c] + (st[0] + sy[0]);
      } else {
        assert st == [st[0]] + st[1..];
        FuseCons(st[0], st[1..], sy);
        FuseCons([c] + st[0], st[1..], sy);
      }
    }
  }

  lemma {:induction false} JoinConcat(a: seq<string>, b: seq<string>)
    requires |a| >= 1 && |b| >= 1
    ensures Join(a + b) == Join(a) + "\n" + Join(b)
  {
    assert (a + b)[0] == a[0];
    assert (a + b)[1..] == a[1..] + b;
    if |a| > 1 {
      JoinConcat(a[1..], b);
    }
  }

  /** Cutting the first line of a list in two at any point. */
  lemma JoinGlueHead(x: string, y: string, b: seq<string>)
    ensures Join([x + y] + b) == x + Join([y] + b)
  {
    if |b| == 0 {
      assert [x + y] + b == [x + y];
      assert [y] + b == [y];
    } else {
      JoinConcat([x + y], b);
      JoinConcat([y], b);
    }
  }

  /** Joining is insensitive to where one line is cut in two around a
      join point: the text of `a + [x + y] + b` is the text of `a + [x]`
      followed by the text of `[y] + b`. */
  lemma JoinGlue(a: seq<string>, x: string, y: string, b: seq<string>)
    ensures Join(a + [x + y] + b) == Join(a + [x]) + Join([y] + b)
  {
    JoinGlueHead(x, y, b);
    if |a| > 0 {
      assert a + [x + y] + b == a + ([x + y] + b);
      JoinConcat(a, [x + y] + b);
      JoinConcat(a, [x]);
    } else {
      assert a + [x + y] + b == [x + y] + b;
      assert a + [x] == [x];
    }
  }

  /** Joining the lines of a string gives the string back. */
  lemma {:induction false} JoinSplit(s: string)
    ensures Join(Split(s)) == s
  {
    if |s| > 0 {
      var rest := Split(s[1..]);
      JoinSplit(s[1..]);
      if s[0] == '\n' {
        JoinConcat([""], rest);
        assert s == "\n" + s[1..];
      } else {
        assert rest == [rest[0]] + rest[1..];
        JoinGlue([], [s[0]], rest[0], rest[1..]);
        assert [] + [[s[0]] + rest[0]] + rest[1..] == [[s[0]] + rest[0]] + rest[1..];
        assert s == [s[0]] + s[1..];
      }
    }
  }

  /** Splitting the join of non-empty, newline-free lines gives the lines back. */
  lemma {:induction false} SplitJoin(ls: seq<string>)
    requires |ls| >= 1
    requires AllNoNewline(ls)
    ensures Split(Join(ls)) == ls
  {
    var h := ls[0];
    SplitPlain(h);
    if |ls| > 1 {
      var j := Join(ls[1..]);
      assert Join(ls) == h + (['\n'] + j);
      SplitJoin(ls[1..]);
      SplitCons('\n', j);
      SplitAppend(h, ['\n'] + j);
      FuseSingle(h, [""] + ls[1..]);
      assert h + "" == h;
      assert ls == [h] + ls[1..];
    }
  }

  /** The join of `n` newline-free lines holds `n - 1` newlines. */
  lemma JoinNewlines(ls: seq<string>)
    requires |ls| >= 1
    requires AllNoNewline(ls)
    ensures Newlines(Join(ls)) == |ls| - 1
  {
    SplitJoin(ls);
    SplitNewlines(Join(ls));
  }
}
