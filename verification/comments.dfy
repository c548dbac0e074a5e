/** `remove_comments`: three deletion passes, in order — line comments,
    `comment` environments, and `\iffalse ... \fi` blocks. */
module Comments {
  import opened Options
  import opened Text
  import opened Patterns
  import opened Scan

  /** First pass: every unescaped `%` through the end of its line. */
  function RemoveLineComments(s: string): string {
    PatternsSound();
    Sub(LineCommentAt, s, "")
  }

  /** Second pass: `\begin{comment}` through the first `\end{comment}`. */
  function RemoveCommentEnvs(s: string): string {
    PatternsSound();
    Sub(CommentEnvAt, s, "")
  }

  /** Third pass: `\iffalse` through the first `\fi`. */
  function RemoveIfFalse(s: string): string {
    PatternsSound();
    Sub(IfFalseAt, s, "")
  }

  /** `remove_comments`: the three passes in the source's order. */
  function RemoveComments(s: string): string {
    RemoveIfFalse(RemoveCommentEnvs(RemoveLineComments(s)))
  }

  // ---------------------------------------------------------------------
  // Line comments

  /** Position `p` lies in a line comment: an unescaped `%` occurs at or
      before it on the same line. */
  ghost predicate InLineComment(s: string, p: nat) {
    p < |s| && exists q: nat :: q <= p && CommentStart(s, q) && NoNewline(s, q, p + 1)
  }

  /** The characters of `s[from..]` outside line comments, in order. */
  ghost function Uncommented(s: string, from: nat): string
    requires from <= |s|
    decreases |s| - from
  {
    if from == |s| then []
    else (if InLineComment(s, from) then [] else [s[from]]) + Uncommented(s, from + 1)
  }

  /** Every position inside a match of the first pass lies in a line
      comment. */
  lemma CoveredInComment(s: string, p: nat)
    requires p < |s|
    ensures Covers(FindAll(LineCommentAt, s, 0), p) ==> InLineComment(s, p)
  {
    PatternsSound();
    var ms := FindAll(LineCommentAt, s, 0);
    if Covers(ms, p) {
      var k :| 0 <= k < |ms| && ms[k].start <= p < ms[k].end;
      var m := ms[k];
      assert LineCommentAt(s, m.start) == Some(m);
      assert NoNewline(s, m.start, p + 1);
    }
  }

  /** The line-comment match covering an unescaped `%` also covers the
      rest of that line. */
  lemma MatchReachesLineEnd(s: string, q: nat, p: nat, m: Match)
    requires CommentStart(s, q) && q <= p < |s| && NoNewline(s, q, p + 1)
    requires LineCommentAt(s, m.start) == Some(m) && m.start <= q < m.end
    ensures m.start <= p < m.end
  {
  }

  /** Every position in a line comment lies inside a match of the first
      pass: the match covering its `%` runs to the end of the line. */
  lemma CommentCovered(s: string, p: nat)
    requires InLineComment(s, p)
    ensures Covers(FindAll(LineCommentAt, s, 0), p)
  {
    PatternsSound();
    CommentCoveredBy(s, p, FindAll(LineCommentAt, s, 0));
  }

  /** `CommentCovered`, for any scan of the first pass. */
  lemma CommentCoveredBy(s: string, p: nat, ms: seq<Match>)
    requires InLineComment(s, p) && IsScan(LineCommentAt, s, 0, ms)
    ensures Covers(ms, p)
  {
    var q: nat :| q <= p && CommentStart(s, q) && NoNewline(s, q, p + 1);
    assert LineCommentAt(s, q).Some?;
    assert Covers(ms, q);
    var k :| 0 <= k < |ms| && ms[k].start <= q < ms[k].end;
    MatchReachesLineEnd(s, q, p, ms[k]);
  }

  /** The first pass deletes exactly the positions that lie in a line
      comment: a position is inside some match iff an unescaped `%` precedes
      it (or is it) with no newline in between. */
  lemma LineCommentCoverage(s: string, p: nat)
    requires p < |s|
    ensures Covers(FindAll(LineCommentAt, s, 0), p) <==> InLineComment(s, p)
  {
    CoveredInComment(s, p);
    if InLineComment(s, p) {
      CommentCovered(s, p);
    }
  }

  /** `Kept` and `Uncommented` agree wherever coverage and being in a line
      comment agree. */
  lemma {:induction false} KeptIsUncommented(s: string, ms: seq<Match>, from: nat)
    requires from <= |s|
    requires forall p :: from <= p < |s| ==> (Covers(ms, p) <==> InLineComment(s, p))
    ensures Kept(s, ms, from) == Uncommented(s, from)
    decreases |s| - from
  {
    if from < |s| {
      KeptIsUncommented(s, ms, from + 1);
    }
  }

  /** The first pass keeps exactly the characters outside line comments, in
      their original order: every unescaped `%` goes together with the rest
      of its line, the newline stays, and nothing else changes. */
  lemma RemoveLineCommentsSpec(s: string)
    ensures RemoveLineComments(s) == Uncommented(s, 0)
  {
    PatternsSound();
    var ms := FindAll(LineCommentAt, s, 0);
    forall p | 0 <= p < |s|
      ensures Covers(ms, p) <==> InLineComment(s, p)
    {
      LineCommentCoverage(s, p);
    }
    DeleteKeepsUncovered(s, ms, 0);
    KeptIsUncommented(s, ms, 0);
  }

  /** An escaped `\%` never starts a comment: it survives the first pass
      unless an unescaped `%` earlier on its line already started one. */
  lemma EscapedPercentKept(s: string, p: nat)
    requires 0 < p < |s| && s[p] == '%' && s[p - 1] == '\\'
    requires forall q: nat :: q < p && NoNewline(s, q, p) ==> !CommentStart(s, q)
    ensures !InLineComment(s, p)
  {
    if InLineComment(s, p) {
      var q: nat :| q <= p && CommentStart(s, q) && NoNewline(s, q, p + 1);
      assert q != p;
      assert NoNewline(s, q, p);
    }
  }

  /** A `%` whose predecessor is not a backslash starts a comment that
      reaches to the end of its line: the first pass deletes every character
      from the `%` up to the line break. */
  lemma BarePercentRemovesRestOfLine(s: string, q: nat, p: nat)
    requires CommentStart(s, q) && q <= p < |s| && NoNewline(s, q, p + 1)
    ensures Covers(FindAll(LineCommentAt, s, 0), p)
  {
    CommentCovered(s, p);
  }

  // ---------------------------------------------------------------------
  // Block comments

  /** The block passes change the text exactly when there is a block to
      remove: an opening tag with a closing tag somewhere after it. An
      opening tag with no closing tag after it is left alone. */
  lemma CommentEnvUnchangedIff(s: string)
    ensures RemoveCommentEnvs(s) == s <==> forall p :: 0 <= p < |s| ==> CommentEnvAt(s, p).None?
  {
    PatternsSound();
    SubUnchangedIff(CommentEnvAt, s, "");
  }

  /** `\iffalse` counterpart of `CommentEnvUnchangedIff`. */
  lemma IfFalseUnchangedIff(s: string)
    ensures RemoveIfFalse(s) == s <==> forall p :: 0 <= p < |s| ==> IfFalseAt(s, p).None?
  {
    PatternsSound();
    SubUnchangedIff(IfFalseAt, s, "");
  }

  /** An `\iffalse` with no `\fi` after it is never closed: the text from
      it on comes out of the third pass untouched, whatever blocks before it
      were removed. */
  lemma UnterminatedIfFalseKept(s: string, q: nat)
    requires LitAt(s, q, "\\iffalse")
    requires forall p :: q <= p ==> TagEnd(Fi, s, p).None?
    ensures EndsWith(RemoveIfFalse(s), s[q..])
  {
    LitAtChars(s, q, "\\iffalse");
    forall c | TagEnd(Fi, s, c).Some?
      ensures TagEnd(Fi, s, c).value <= q
    {
      LitAtChars(s, c, "\\fi");
      forall j | c < j < c + 3
        ensures s[j] != '\\'
      {
        assert s[c + (j - c)] == "\\fi"[j - c];
      }
    }
    PatternsSound();
    BlocksEndBy(s, FindAll(IfFalseAt, s, 0), IfFalse, Fi, q);
    DeleteKeepsSuffix(IfFalseAt, s, q);
  }

  /** A `\begin{comment}` with no `\end{comment}` after it is never closed:
      the text from it on comes out of the second pass untouched. */
  lemma UnterminatedCommentEnvKept(s: string, q: nat)
    requires TagEnd(BeginComment, s, q).Some?
    requires forall p :: q <= p ==> TagEnd(EndComment, s, p).None?
    ensures EndsWith(RemoveCommentEnvs(s), s[q..])
  {
    assert s[q] == '\\' by {
      LitAtChars(s, q, "\\begin");
    }
    EndTagsBefore(s, q);
    PatternsSound();
    BlocksEndBy(s, FindAll(CommentEnvAt, s, 0), BeginComment, EndComment, q);
    DeleteKeepsSuffix(CommentEnvAt, s, q);
  }

  /** With a backslash at `q` and no `\end{comment}` from `q` on, every
      `\end{comment}` ends by `q`: none can run across the backslash. */
  lemma EndTagsBefore(s: string, q: nat)
    requires q < |s| && s[q] == '\\'
    requires forall p :: q <= p ==> TagEnd(EndComment, s, p).None?
    ensures forall c :: TagEnd(EndComment, s, c).Some? ==> TagEnd(EndComment, s, c).value <= q
  {
    forall c | TagEnd(EndComment, s, c).Some?
      ensures TagEnd(EndComment, s, c).value <= q
    {
      EnvTagNoBackslash(s, c, "\\end");
    }
  }

  /** When every closing tag ends by `q`, so does every block. */
  lemma BlocksEndBy(s: string, ms: seq<Match>, open: Tag, close: Tag, q: nat)
    requires forall k :: 0 <= k < |ms| ==> BlockAt(s, ms[k].start, open, close) == Some(ms[k])
    requires forall c :: TagEnd(close, s, c).Some? ==> TagEnd(close, s, c).value <= q
    ensures forall k :: 0 <= k < |ms| ==> ms[k].end <= q
  {
    forall k | 0 <= k < |ms|
      ensures ms[k].end <= q
    {
      var oe := TagEnd(open, s, ms[k].start).value;
      var c :| oe <= c < |s| && TagEnd(close, s, c) == Some(ms[k].end)
               && forall p :: oe <= p < c ==> TagEnd(close, s, p).None?;
    }
  }

  /** An environment tag holds no backslash after its first character. */
  lemma EnvTagNoBackslash(s: string, c: nat, kw: string)
    requires |kw| > 0 && forall k :: 0 < k < |kw| ==> kw[k] != '\\'
    requires EnvTagEnd(s, c, kw).Some?
    ensures forall j :: c < j < EnvTagEnd(s, c, kw).value ==> s[j] != '\\'
  {
    var b := SkipSpaces(s, c + |kw|);
    var k := SkipSpaces(s, b + 1);
    var m := SkipSpaces(s, k + 7);
    assert LitAt(s, c, kw) && b < |s| && s[b] == '{' && LitAt(s, k, "comment");
    assert m < |s| && s[m] == '}' && EnvTagEnd(s, c, kw) == Some(m + 1);
    assert forall j :: c < j < c + |kw| ==> s[j] != '\\' by {
      LitAtChars(s, c, kw);
      forall j | c < j < c + |kw|
        ensures s[j] != '\\'
      {
        assert s[c + (j - c)] == kw[j - c];
      }
    }
    assert forall j :: k <= j < k + 7 ==> s[j] != '\\' by {
      CommentNoBackslash(s, k);
    }
    assert !IsSpace('\\');
  }

  /** The word `comment` holds no backslash. */
  lemma CommentNoBackslash(s: string, k: nat)
    requires LitAt(s, k, "comment")
    ensures forall j :: k <= j < k + 7 ==> s[j] != '\\'
  {
    LitAtChars(s, k, "comment");
    forall j | k <= j < k + 7
      ensures s[j] != '\\'
    {
      assert s[k + (j - k)] == "comment"[j - k];
    }
  }

  /** The first pass changes the text exactly when it holds an unescaped
      `%`. */
  lemma LineCommentsUnchangedIff(s: string)
    ensures RemoveLineComments(s) == s <==> forall p :: 0 <= p < |s| ==> !CommentStart(s, p)
  {
    PatternsSound();
    SubUnchangedIff(LineCommentAt, s, "");
    forall p | 0 <= p < |s|
      ensures LineCommentAt(s, p).None? <==> !CommentStart(s, p)
    {
    }
  }

  /** Every pass only deletes: the result of `remove_comments` is a
      subsequence of its input. */
  lemma RemoveCommentsDeletes(s: string)
    ensures IsSubsequence(RemoveComments(s), s)
  {
    PatternsSound();
    var a := RemoveLineComments(s);
    var b := RemoveCommentEnvs(a);
    DeleteIsSubsequence(LineCommentAt, s);
    DeleteIsSubsequence(CommentEnvAt, a);
    DeleteIsSubsequence(IfFalseAt, b);
    SubsequenceTrans(b, a, s);
    SubsequenceTrans(RemoveIfFalse(b), b, s);
  }

  // ---------------------------------------------------------------------
  // Quirks of the patterns

  /** The lookbehind inspects one character, so the `%` after a LaTeX line
      break `\\` counts as escaped and the comment after it survives. */
  lemma DoubleBackslashPercentKept()
    ensures RemoveLineComments("a\\\\% b") == "a\\\\% b"
  {
    var s := "a\\\\% b";
    assert forall p :: 0 <= p < |s| ==> !CommentStart(s, p);
    LineCommentsUnchangedIff(s);
  }

  /** `\fi` needs no word boundary: the `\fi` of `\fill` closes an
      `\iffalse` block, leaving the rest of the word behind. */
  lemma FillClosesIfFalse()
    ensures RemoveIfFalse("\\iffalse x\\fill") == "ll"
  {
    var s := "\\iffalse x\\fill";
    FillBlock(s);
    PatternsSound();
    SubSingle(IfFalseAt, s, "", Match(0, 13, ""));
    assert s[..0] + "" + s[13..] == "ll";
  }

  /** No `\iffalse` block starts where `\iffalse` does not occur. */
  lemma NoIfFalseAt(s: string, p: nat)
    requires !LitAt(s, p, "\\iffalse")
    ensures IfFalseAt(s, p).None?
  {
  }

  /** The only `\iffalse` block of `FillClosesIfFalse`'s text. */
  lemma FillBlock(s: string)
    requires s == "\\iffalse x\\fill"
    ensures IfFalseAt(s, 0) == Some(Match(0, 13, ""))
    ensures forall p :: 0 <= p < |s| && !(0 <= p < 13) ==> IfFalseAt(s, p).None?
  {
    assert s[0..8] == "\\iffalse";
    assert TagEnd(IfFalse, s, 0) == Some(8);
    FillFirstFi(s);
    forall p | 0 < p < |s|
      ensures IfFalseAt(s, p).None?
    {
      FillElsewhere(s, p);
      NoIfFalseAt(s, p);
    }
  }

  /** The first `\fi` after `\iffalse` in `FillClosesIfFalse`'s text is
      the start of `\fill`. */
  lemma FillFirstFi(s: string)
    requires s == "\\iffalse x\\fill"
    ensures FirstTag(Fi, s, 8) == Some(10)
  {
    assert s[10..13] == "\\fi";
    LitAtChars(s, 8, "\\fi");
    LitAtChars(s, 9, "\\fi");
    assert TagEnd(Fi, s, 10) == Some(13);
    assert FirstTag(Fi, s, 10) == Some(10);
  }

  /** No `\iffalse` starts after the first character of
      `FillClosesIfFalse`'s text. */
  lemma FillElsewhere(s: string, p: nat)
    requires s == "\\iffalse x\\fill" && 0 < p < |s|
    ensures !LitAt(s, p, "\\iffalse")
  {
    LitAtChars(s, p, "\\iffalse");
    if p < 10 {
      assert s[p] != '\\';
    }
  }

  /** A text with no `%` and no `\begin`, holding exactly one `\iffalse`
      block, loses exactly that block. */
  lemma SingleIfFalseBlock(s: string, m: Match)
    requires forall p :: 0 <= p < |s| ==> s[p] != '%'
    requires forall p :: !LitAt(s, p, "\\begin")
    requires m.start < |s| && IfFalseAt(s, m.start) == Some(m)
    requires forall p :: 0 <= p < |s| && p != m.start ==> IfFalseAt(s, p).None?
    ensures RemoveComments(s) == s[..m.start] + s[m.end..]
  {
    PlainThroughFirstPasses(s);
    PatternsSound();
    SubSingle(IfFalseAt, s, "", m);
  }

  /** A text with no `%` and no `\begin` passes the first two passes
      unchanged. */
  lemma PlainThroughFirstPasses(s: string)
    requires forall p :: 0 <= p < |s| ==> s[p] != '%'
    requires forall p :: !LitAt(s, p, "\\begin")
    ensures RemoveCommentEnvs(RemoveLineComments(s)) == s
  {
    LineCommentsUnchangedIff(s);
    CommentEnvUnchangedIff(s);
  }

  /** A text without the letter `b` holds no `\begin`. */
  lemma NoLetterB(s: string)
    requires forall p :: 0 <= p < |s| ==> s[p] != 'b'
    ensures forall p :: !LitAt(s, p, "\\begin")
  {
    forall p
      ensures !LitAt(s, p, "\\begin")
    {
      LitAtChars(s, p, "\\begin");
    }
  }

  /** The only `\iffalse` block of `\iffalse\fi` is all of it. */
  lemma EmptyBlockMatch()
    ensures IfFalseAt("\\iffalse\\fi", 0) == Some(Match(0, 11, ""))
    ensures forall p :: 0 < p < 11 ==> IfFalseAt("\\iffalse\\fi", p).None?
  {
    var s := "\\iffalse\\fi";
    LitAtChars(s, 0, "\\iffalse");
    LitAtChars(s, 8, "\\fi");
    forall p | 0 < p < |s|
      ensures IfFalseAt(s, p).None?
    {
      LitAtChars(s, p, "\\iffalse");
    }
  }

  /** `\iffalse\fi` is an empty block, removed entirely. */
  lemma EmptyIfFalseRemoved()
    ensures RemoveComments("\\iffalse\\fi") == ""
  {
    var s := "\\iffalse\\fi";
    EmptyBlockMatch();
    NoLetterB(s);
    SingleIfFalseBlock(s, Match(0, 11, ""));
  }

  /** The only `\iffalse` block of `\if\iffalse\fifalse\fi` is the one
      starting at index 3, closed by the `\fi` of `\fifalse`. */
  lemma NestedLookingMatch()
    ensures IfFalseAt("\\if\\iffalse\\fifalse\\fi", 3) == Some(Match(3, 14, ""))
    ensures forall p :: 0 <= p < 22 && p != 3 ==> IfFalseAt("\\if\\iffalse\\fifalse\\fi", p).None?
  {
    var s := "\\if\\iffalse\\fifalse\\fi";
    assert s[3..11] == "\\iffalse" && s[11..14] == "\\fi";
    assert TagEnd(IfFalse, s, 3) == Some(11);
    assert FirstTag(Fi, s, 11) == Some(11);
    forall p | 0 <= p < |s| && p != 3
      ensures IfFalseAt(s, p).None?
    {
      NestedLookingElsewhere(s, p);
      NoIfFalseAt(s, p);
    }
  }

  /** No `\iffalse` starts anywhere else in `NestedLookingMatch`'s text. */
  lemma NestedLookingElsewhere(s: string, p: nat)
    requires s == "\\if\\iffalse\\fifalse\\fi" && p < |s| && p != 3
    ensures !LitAt(s, p, "\\iffalse")
  {
    LitAtChars(s, p, "\\iffalse");
    if p == 0 {
      assert s[3] != "\\iffalse"[3];
    } else if p == 11 {
      assert s[12] != "\\iffalse"[1];
    } else if p < 15 {
      assert s[p] != '\\';
    }
  }

  /** The text left around the block of `NestedLookingMatch`. */
  lemma JoinedAroundBlock()
    ensures "\\if\\iffalse\\fifalse\\fi"[..3] + "\\if\\iffalse\\fifalse\\fi"[14..] == "\\iffalse\\fi"
  {
    var s := "\\if\\iffalse\\fifalse\\fi";
    var r := s[..3] + s[14..];
    forall k | 0 <= k < 11
      ensures r[k] == "\\iffalse\\fi"[k]
    {
      if k < 3 { assert r[k] == s[k]; } else { assert r[k] == s[k + 11]; }
    }
  }

  /** Removing one block can join the text around it into a new block, so
      `remove_comments` is not idempotent: a second application removes
      more. */
  lemma RemoveCommentsNotIdempotent()
    ensures RemoveComments("\\if\\iffalse\\fifalse\\fi") == "\\iffalse\\fi"
    ensures RemoveComments(RemoveComments("\\if\\iffalse\\fifalse\\fi")) == ""
  {
    var s := "\\if\\iffalse\\fifalse\\fi";
    var t := "\\iffalse\\fi";
    NestedLookingMatch();
    NoLetterB(s);
    SingleIfFalseBlock(s, Match(3, 14, ""));
    JoinedAroundBlock();
    assert RemoveComments(s) == t;
    EmptyIfFalseRemoved();
  }
}
