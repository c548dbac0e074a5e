/** `remove_excessive_blank_lines`: every newline followed by two or more
    lines holding only spaces and tabs becomes exactly two newlines. */
module BlankLinesPass {
  import opened Options
  import opened Text
  import opened Patterns
  import opened Scan

  /** `re.sub(r'\n([ \t]*\n){2,}', '\n\n', s)`. */
  function CollapseBlankLines(s: string): string {
    PatternsSound();
    Sub(BlankRunAt, s, "\n\n")
  }

  /** A character the pass may drop or insert: a space, a tab or a newline. */
  predicate Layout(c: char) {
    IsBlank(c) || c == '\n'
  }

  /** The characters of `s` other than spaces, tabs and newlines, in order. */
  function Visible(s: string): (r: string)
    ensures |r| <= |s|
  {
    if |s| == 0 then []
    else (if Layout(s[0]) then [] else [s[0]]) + Visible(s[1..])
  }

  /** `Visible` distributes over concatenation. */
  lemma {:induction false} VisibleAppend(a: string, b: string)
    ensures Visible(a + b) == Visible(a) + Visible(b)
    decreases |a|
  {
    if |a| == 0 {
      assert a + b == b;
    } else {
      assert (a + b)[0] == a[0];
      assert (a + b)[1..] == a[1..] + b;
      VisibleAppend(a[1..], b);
    }
  }

  /** A text made only of layout characters has nothing visible. */
  lemma {:induction false} VisibleOfLayout(x: string)
    requires forall k :: 0 <= k < |x| ==> Layout(x[k])
    ensures Visible(x) == []
    decreases |x|
  {
    if |x| > 0 {
      VisibleOfLayout(x[1..]);
    }
  }

  /** Every match of the pass is a newline and at least two further lines,
      so it is at least three characters long and holds only layout. */
  lemma RunShape(s: string, i: nat)
    requires BlankRunAt(s, i).Some?
    ensures BlankRunAt(s, i).value.end - i >= 3
    ensures forall k :: i <= k < BlankRunAt(s, i).value.end ==> Layout(s[k])
  {
  }

  /** Replacing layout-only matches by layout-only text keeps the visible
      text. */
  lemma {:induction false} SpliceKeepsVisible(s: string, ms: seq<Match>, reps: seq<string>, from: nat)
    requires from <= |s| && |reps| == |ms| && InOrder(ms, from, |s|)
    requires forall k :: 0 <= k < |ms| ==> Visible(s[ms[k].start..ms[k].end]) == []
    requires forall k :: 0 <= k < |ms| ==> Visible(reps[k]) == []
    ensures Visible(Splice(s, ms, reps, from)) == Visible(s[from..])
    decreases |ms|
  {
    if |ms| > 0 {
      var m := ms[0];
      InOrderTail(ms, from, |s|);
      SpliceKeepsVisible(s, ms[1..], reps[1..], m.end);
      var rest := Splice(s, ms[1..], reps[1..], m.end);
      assert Visible(s[m.start..m.end]) == [] && Visible(reps[0]) == [];
      VisibleAround(s[from..m.start], reps[0], rest);
      VisibleSplit(s, from, m.start, m.end);
    }
  }

  /** Visible text of three pieces, the middle one invisible. */
  lemma VisibleAround(a: string, x: string, b: string)
    requires Visible(x) == []
    ensures Visible(a + x + b) == Visible(a) + Visible(b)
  {
    VisibleAppend(a + x, b);
    VisibleAppend(a, x);
  }

  /** The visible text of a suffix, cut in three. */
  lemma VisibleSplit(s: string, from: nat, i: nat, j: nat)
    requires from <= i <= j <= |s|
    ensures Visible(s[from..]) == Visible(s[from..i]) + Visible(s[i..j]) + Visible(s[j..])
  {
    assert s[from..] == s[from..i] + s[i..j] + s[j..];
    VisibleAppend(s[from..i] + s[i..j], s[j..]);
    VisibleAppend(s[from..i], s[i..j]);
  }

  /** What a run matches has nothing visible. */
  lemma RunInvisible(s: string, m: Match)
    requires BlankRunAt(s, m.start) == Some(m)
    ensures Visible(s[m.start..m.end]) == []
  {
    RunShape(s, m.start);
    VisibleOfLayout(s[m.start..m.end]);
  }

  /** The pass touches only layout: the text with spaces, tabs and newlines
      removed is the same before and after. */
  lemma CollapseKeepsVisible(s: string)
    ensures Visible(CollapseBlankLines(s)) == Visible(s)
  {
    PatternsSound();
    var ms := FindAll(BlankRunAt, s, 0);
    var reps := Repeat("\n\n", |ms|);
    forall k | 0 <= k < |ms|
      ensures Visible(s[ms[k].start..ms[k].end]) == []
    {
      RunInvisible(s, ms[k]);
    }
    VisibleOfLayout("\n\n");
    SpliceKeepsVisible(s, ms, reps, 0);
    assert s[0..] == s;
  }

  /** A text changes exactly when it holds a run: a newline followed by at
      least two lines of only spaces and tabs. */
  lemma CollapseUnchangedIff(s: string)
    ensures CollapseBlankLines(s) == s <==> forall p :: 0 <= p < |s| ==> BlankRunAt(s, p).None?
  {
    PatternsSound();
    var ms := FindAll(BlankRunAt, s, 0);
    forall k | 0 <= k < |ms|
      ensures ms[k].end - ms[k].start > 2
    {
      assert BlankRunAt(s, ms[k].start) == Some(ms[k]);
      RunShape(s, ms[k].start);
    }
    SubUnchangedIff(BlankRunAt, s, "\n\n");
  }

  /** A text whose first run reaches every later one has that run
      replaced, and nothing else. */
  lemma SingleRun(s: string, m: Match)
    requires m.start < |s| && BlankRunAt(s, m.start) == Some(m)
    requires forall p :: 0 <= p < |s| && !(m.start <= p < m.end) ==> BlankRunAt(s, p).None?
    ensures CollapseBlankLines(s) == s[..m.start] + "\n\n" + s[m.end..]
  {
    PatternsSound();
    SubSingle(BlankRunAt, s, "\n\n", m);
  }

  /** No space, tab or newline in `a`. */
  predicate NoLayout(a: string) {
    forall k :: 0 <= k < |a| ==> !Layout(a[k])
  }

  /** Only spaces and tabs in `x`. */
  predicate AllBlank(x: string) {
    forall k :: 0 <= k < |x| ==> IsBlank(x[k])
  }

  /** `n` newlines. */
  function Newlines(n: nat): (r: string)
    ensures |r| == n && forall k :: 0 <= k < n ==> r[k] == '\n'
  {
    seq(n, k => '\n')
  }

  /** `[ \t]*` stops exactly at the end of a run of spaces and tabs. */
  lemma {:induction false} SkipBlankRun(s: string, j: nat, e: nat)
    requires j <= e <= |s|
    requires forall k :: j <= k < e ==> IsBlank(s[k])
    requires e == |s| || !IsBlank(s[e])
    ensures SkipBlanks(s, j) == e
    decreases e - j
  {
    if j < e {
      SkipBlankRun(s, j + 1, e);
    }
  }

  /** From inside a block of newlines that ends before a non-layout
      character, every newline left is one blank line. */
  lemma {:induction false} NewlineLines(s: string, j: nat, e: nat)
    requires j <= e <= |s|
    requires forall k :: j <= k < e ==> s[k] == '\n'
    requires e == |s| || !Layout(s[e])
    ensures BlankLines(s, j) == (e, e - j)
    decreases e - j
  {
    SkipBlankRun(s, j, j);
    if j < e {
      NewlineLines(s, j + 1, e);
    }
  }

  /** A position holding no newline starts no run. */
  lemma NoRunOffNewline(s: string, p: nat)
    requires p < |s| && s[p] != '\n'
    ensures BlankRunAt(s, p).None?
  {
  }

  /** Text without layout on both sides of `mid` starts no run, and ends
      any run inside `mid`. */
  lemma Framed(a: string, mid: string, b: string)
    requires NoLayout(a) && NoLayout(b)
    ensures var s := a + mid + b;
            && (forall p :: 0 <= p < |s| && !(|a| <= p < |a| + |mid|) ==> BlankRunAt(s, p).None?)
            && (|a| + |mid| == |s| || !Layout(s[|a| + |mid|]))
            && s[..|a|] == a && s[|a| + |mid|..] == b
  {
    var s := a + mid + b;
    var e := |a| + |mid|;
    forall p | 0 <= p < |s| && !(|a| <= p < e)
      ensures BlankRunAt(s, p).None?
    {
      if p < |a| {
        assert s[p] == a[p];
      } else {
        assert s[p] == b[p - e];
      }
      NoRunOffNewline(s, p);
    }
    if e < |s| {
      assert s[e] == b[0];
    }
    assert s[..|a|] == a && s[e..] == b;
  }

  /** A run that fills `mid` exactly, between text without layout, is the
      only change. */
  lemma CollapseFramed(a: string, mid: string, b: string)
    requires NoLayout(a) && NoLayout(b)
    requires BlankRunAt(a + mid + b, |a|) == Some(Match(|a|, |a| + |mid|, ""))
    ensures CollapseBlankLines(a + mid + b) == a + "\n\n" + b
  {
    Framed(a, mid, b);
    SingleRun(a + mid + b, Match(|a|, |a| + |mid|, ""));
  }

  /** Around a block of newlines between text without layout: three or more
      newlines (two or more blank lines) become exactly two (one blank line),
      and fewer are left alone. */
  lemma NewlineBlock(a: string, b: string, n: nat)
    requires NoLayout(a) && NoLayout(b)
    ensures CollapseBlankLines(a + Newlines(n) + b) == if n >= 3 then a + "\n\n" + b else a + Newlines(n) + b
  {
    var s := a + Newlines(n) + b;
    Framed(a, Newlines(n), b);
    assert forall k :: |a| <= k < |a| + n ==> s[k] == '\n';
    if n >= 3 {
      NewlineLines(s, |a| + 1, |a| + n);
      CollapseFramed(a, Newlines(n), b);
    } else {
      ShortBlockKept(s, |a|, |a| + n);
    }
  }

  /** One or two newlines in a row, with no layout after, start no run. */
  lemma ShortBlockKept(s: string, i: nat, e: nat)
    requires i <= e <= |s| && e - i < 3
    requires forall k :: i <= k < e ==> s[k] == '\n'
    requires e == |s| || !Layout(s[e])
    requires forall p :: 0 <= p < |s| && !(i <= p < e) ==> BlankRunAt(s, p).None?
    ensures CollapseBlankLines(s) == s
  {
    forall p | i <= p < e
      ensures BlankRunAt(s, p).None?
    {
      NewlineLines(s, p + 1, e);
    }
    CollapseUnchangedIff(s);
  }

  /** A newline, then two lines of only spaces and tabs, is one run. */
  lemma TwoIndentedLines(s: string, i: nat, j1: nat, j2: nat)
    requires i < j1 < j2 < |s| && s[i] == '\n' && s[j1] == '\n' && s[j2] == '\n'
    requires forall k :: i < k < j1 ==> IsBlank(s[k])
    requires forall k :: j1 < k < j2 ==> IsBlank(s[k])
    requires j2 + 1 == |s| || !Layout(s[j2 + 1])
    ensures BlankRunAt(s, i) == Some(Match(i, j2 + 1, ""))
  {
    var r := BlankLines(s, i + 1);
    assert r == (j2 + 1, 2) by {
      TwoLinesCount(s, i, j1, j2);
    }
  }

  /** The two lines of `TwoIndentedLines`, counted. */
  lemma TwoLinesCount(s: string, i: nat, j1: nat, j2: nat)
    requires i < j1 < j2 < |s| && s[j1] == '\n' && s[j2] == '\n'
    requires forall k :: i < k < j1 ==> IsBlank(s[k])
    requires forall k :: j1 < k < j2 ==> IsBlank(s[k])
    requires j2 + 1 == |s| || !Layout(s[j2 + 1])
    ensures BlankLines(s, i + 1) == (j2 + 1, 2)
  {
    SkipBlankRun(s, j2 + 1, j2 + 1);
    BlankLinesStop(s, j2 + 1);
    OneMoreLine(s, j1, j2, j2 + 1, 0);
    OneMoreLine(s, i, j1, j2 + 1, 1);
  }

  /** A line of only spaces and tabs before `j + 1` adds one repetition. */
  lemma OneMoreLine(s: string, i: nat, j: nat, e: nat, n: nat)
    requires i < j < |s| && s[j] == '\n'
    requires forall k :: i < k < j ==> IsBlank(s[k])
    requires BlankLines(s, j + 1) == (e, n)
    ensures BlankLines(s, i + 1) == (e, n + 1)
  {
    SkipBlankRun(s, i + 1, j);
    BlankLinesLine(s, i + 1, j, e, n);
  }

  /** `[ \t]*\n` matches up to the newline at `k`, then repeats from there. */
  lemma BlankLinesLine(s: string, j: nat, k: nat, e: nat, n: nat)
    requires j <= k < |s| && SkipBlanks(s, j) == k && s[k] == '\n'
    requires BlankLines(s, k + 1) == (e, n)
    ensures BlankLines(s, j) == (e, n + 1)
  {
  }

  /** Where `[ \t]*` reaches no newline, there is no further line. */
  lemma BlankLinesStop(s: string, j: nat)
    requires j <= |s| && (SkipBlanks(s, j) == |s| || s[SkipBlanks(s, j)] != '\n')
    ensures BlankLines(s, j) == (j, 0)
  {
  }

  /** Lines holding only spaces and tabs count as blank: a newline and two
      such lines become one blank line. */
  lemma IndentedBlankLines(a: string, x: string, y: string, b: string)
    requires NoLayout(a) && NoLayout(b) && AllBlank(x) && AllBlank(y)
    ensures CollapseBlankLines(a + ("\n" + x + "\n" + y + "\n") + b) == a + "\n\n" + b
  {
    var mid := "\n" + x + "\n" + y + "\n";
    var s := a + mid + b;
    var i := |a|;
    var j1 := i + 1 + |x|;
    var j2 := j1 + 1 + |y|;
    Framed(a, mid, b);
    IndentedShape(s, a, x, y, b);
    TwoIndentedLines(s, i, j1, j2);
    CollapseFramed(a, mid, b);
  }

  /** Where the newlines and the blanks of `IndentedBlankLines` lie. */
  lemma IndentedShape(s: string, a: string, x: string, y: string, b: string)
    requires AllBlank(x) && AllBlank(y)
    requires s == a + ("\n" + x + "\n" + y + "\n") + b
    ensures var i := |a|; var j1 := i + 1 + |x|; var j2 := j1 + 1 + |y|;
            && s[i] == '\n' && s[j1] == '\n' && s[j2] == '\n'
            && (forall k :: i < k < j1 ==> IsBlank(s[k]))
            && (forall k :: j1 < k < j2 ==> IsBlank(s[k]))
  {
    var i := |a|;
    var j1 := i + 1 + |x|;
    forall k | i < k < j1
      ensures IsBlank(s[k])
    {
      assert s[k] == x[k - i - 1];
    }
    forall k | j1 < k < j1 + 1 + |y|
      ensures IsBlank(s[k])
    {
      assert s[k] == y[k - j1 - 1];
    }
  }
}
