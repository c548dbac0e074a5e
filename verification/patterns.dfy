/** The nine fixed regular expressions of `main.py`, each written out as a
    matcher that answers Python's question "does the pattern match at index
    `i`, and where does that match end?". Backtracking is resolved by hand:
    greedy runs take what they can, lazy `.*?` takes the first position from
    which the rest of the pattern succeeds.

      LineCommentAt      (?<!\\)%.*?$                                  MULTILINE
      CommentEnvAt       \\begin\s*\{\s*comment\s*\}.*?\\end\s*\{\s*comment\s*\}  DOTALL
      IfFalseAt          \\iffalse.*?\\fi                              DOTALL
      BlankRunAt         \n([ \t]*\n){2,}
      DirectiveAt        \\(?:input|include)\s*\{\s*([^}]+)\s*\}
      IncludeGraphicsAt  \\includegraphics(?:\[.*?\])?\{([^}]+)\}      IGNORECASE
      IncludePdfAt       \\includepdf(?:\[.*?\])?\{([^}]+)\}           IGNORECASE
      PdfXImageAt        \\pdfximage\{([^}]+)\}                        IGNORECASE
      CaptionPdfAt       \\caption\{.*?([a-zA-Z0-9_\-]+\.pdf).*?\}      IGNORECASE
 */
module Patterns {
  import opened Options
  import opened Text

  /** One successful match: the text `s[start..end]`, and group 1 (empty
      for patterns without a group). */
  datatype Match = Match(start: nat, end: nat, group: string)

  /** A matcher answers, for a text and an index, whether its pattern
      matches there and with what extent. */
  type Matcher = (string, nat) -> Option<Match>

  /** Every match a matcher reports starts where it was asked and consumes at
      least one character of the text. */
  ghost predicate Sound(at: Matcher) {
    forall s: string, i: nat :: at(s, i).Some? ==> at(s, i).value.start == i < at(s, i).value.end <= |s|
  }

  /** The nine patterns of the tool are sound matchers. */
  lemma PatternsSound()
    ensures Sound(LineCommentAt) && Sound(CommentEnvAt) && Sound(IfFalseAt) && Sound(BlankRunAt)
    ensures Sound(DirectiveAt) && Sound(IncludeGraphicsAt) && Sound(IncludePdfAt)
    ensures Sound(PdfXImageAt) && Sound(CaptionPdfAt)
  {
  }

  // ---------------------------------------------------------------------
  // Line comments

  /** A `%` that is not immediately preceded by a backslash. The lookbehind
      inspects one character only, so the `%` of `\\%` counts as escaped. */
  predicate CommentStart(s: string, i: nat) {
    i < |s| && s[i] == '%' && (i == 0 || s[i - 1] != '\\')
  }

  /** `(?<!\\)%.*?$`: from an unescaped `%` up to, not including, the next
      newline (or the end of the text). */
  function LineCommentAt(s: string, i: nat): (r: Option<Match>)
    ensures r.Some? <==> CommentStart(s, i)
    ensures r.Some? ==> r.value.start == i < r.value.end <= |s|
    ensures r.Some? ==> r.value.end == |s| || s[r.value.end] == '\n'
    ensures r.Some? ==> NoNewline(s, i, r.value.end)
  {
    if CommentStart(s, i) then Some(Match(i, LineEnd(s, i + 1), "")) else None
  }

  // ---------------------------------------------------------------------
  // Comment blocks

  /** The delimiters of the two block forms. */
  datatype Tag = BeginComment | EndComment | IfFalse | Fi

  /** `kw\s*\{\s*comment\s*\}` at `i`, giving the index just past it. */
  function EnvTagEnd(s: string, i: nat, kw: string): (r: Option<nat>)
    requires |kw| > 0
    ensures r.Some? ==> i < r.value <= |s|
  {
    if !LitAt(s, i, kw) then None
    else
      var j := SkipSpaces(s, i + |kw|);
      if j < |s| && s[j] == '{' then
        var k := SkipSpaces(s, j + 1);
        if LitAt(s, k, "comment") then
          var m := SkipSpaces(s, k + 7);
          if m < |s| && s[m] == '}' then Some(m + 1) else None
        else None
      else None
  }

  /** The index just past tag `t` when it occurs at `i`. `\fi` needs no word
      boundary, so the `\fi` of `\fill` is a closing tag. */
  function TagEnd(t: Tag, s: string, i: nat): (r: Option<nat>)
    ensures r.Some? ==> i < r.value <= |s|
  {
    match t
    case BeginComment => EnvTagEnd(s, i, "\\begin")
    case EndComment => EnvTagEnd(s, i, "\\end")
    case IfFalse => if LitAt(s, i, "\\iffalse") then Some(i + 8) else None
    case Fi => if LitAt(s, i, "\\fi") then Some(i + 3) else None
  }

  /** The first index at or after `j` where tag `t` occurs. */
  function FirstTag(t: Tag, s: string, j: nat): (r: Option<nat>)
    requires j <= |s|
    ensures r.Some? ==> j <= r.value < |s| && TagEnd(t, s, r.value).Some?
    ensures r.Some? ==> forall q :: j <= q < r.value ==> TagEnd(t, s, q).None?
    ensures r.None? ==> forall q :: j <= q ==> TagEnd(t, s, q).None?
    decreases |s| - j
  {
    if j == |s| then None
    else if TagEnd(t, s, j).Some? then Some(j)
    else FirstTag(t, s, j + 1)
  }

  /** The first closing tag at or after `j` ends at `e`. */
  predicate ClosesFirst(s: string, j: nat, close: Tag, e: nat) {
    exists q :: j <= q < |s| && TagEnd(close, s, q) == Some(e) && forall p :: j <= p < q ==> TagEnd(close, s, p).None?
  }

  /** `\\begin\s*\{\s*comment\s*\}.*?\\end\s*\{\s*comment\s*\}` (DOTALL) at `i`. */
  function CommentEnvAt(s: string, i: nat): (r: Option<Match>)
    ensures r.Some? ==> r.value.start == i < r.value.end <= |s|
  {
    BlockAt(s, i, BeginComment, EndComment)
  }

  /** `\\iffalse.*?\\fi` (DOTALL) at `i`. */
  function IfFalseAt(s: string, i: nat): (r: Option<Match>)
    ensures r.Some? ==> r.value.start == i < r.value.end <= |s|
  {
    BlockAt(s, i, IfFalse, Fi)
  }

  /** `open.*?close` (DOTALL) at `i`: the opening tag, then everything up to
      and including the FIRST closing tag after it. With no closing tag the
      pattern does not match at `i` and the text is left alone. */
  function BlockAt(s: string, i: nat, open: Tag, close: Tag): (r: Option<Match>)
    ensures r.Some? ==> r.value.start == i < r.value.end <= |s|
    ensures r.Some? ==> TagEnd(open, s, i).Some? && ClosesFirst(s, TagEnd(open, s, i).value, close, r.value.end)
    ensures r.None? ==> TagEnd(open, s, i).None? || forall q :: TagEnd(open, s, i).value <= q ==> TagEnd(close, s, q).None?
  {
    match TagEnd(open, s, i)
    case None => None
    case Some(oe) =>
      match FirstTag(close, s, oe)
      case None => None
      case Some(q) => Some(Match(i, TagEnd(close, s, q).value, ""))
  }

  // ---------------------------------------------------------------------
  // Blank lines

  /** Greedy repetition of `[ \t]*\n` from `j`: the index after the last
      repetition, and how many repetitions there were. */
  function BlankLines(s: string, j: nat): (r: (nat, nat))
    requires j <= |s|
    ensures j <= r.0 <= |s|
    ensures forall k :: j <= k < r.0 ==> IsBlank(s[k]) || s[k] == '\n'
    ensures r.1 <= r.0 - j
    ensures r.1 == 0 <==> r.0 == j
    ensures r.1 > 0 ==> s[r.0 - 1] == '\n'
    ensures SkipBlanks(s, r.0) == |s| || s[SkipBlanks(s, r.0)] != '\n'
    decreases |s| - j
  {
    var k := SkipBlanks(s, j);
    if k < |s| && s[k] == '\n' then
      var rest := BlankLines(s, k + 1);
      (rest.0, rest.1 + 1)
    else
      (j, 0)
  }

  /** The repetition count is the number of lines taken: the newlines
      among the characters the repetition covers. */
  lemma {:induction false} BlankLinesCount(s: string, j: nat)
    requires j <= |s|
    ensures BlankLines(s, j).1 == multiset(s[j..BlankLines(s, j).0])['\n']
    decreases |s| - j
  {
    var k := SkipBlanks(s, j);
    if k < |s| && s[k] == '\n' {
      BlankLinesCount(s, k + 1);
      CountStep(s, j, k, BlankLines(s, k + 1).0, BlankLines(s, k + 1).1);
    } else {
      CountStop(s, j, k);
    }
  }

  /** With no newline after the blanks, nothing is taken and nothing counted. */
  lemma CountStop(s: string, j: nat, k: nat)
    requires j <= |s| && k == SkipBlanks(s, j) && (k == |s| || s[k] != '\n')
    ensures BlankLines(s, j).1 == multiset(s[j..BlankLines(s, j).0])['\n']
  {
    assert BlankLines(s, j) == (j, 0);
  }

  /** `BlankLinesCount` one line up: the newline at `k` is counted once. */
  lemma CountStep(s: string, j: nat, k: nat, e: nat, n: nat)
    requires j <= k < |s| && k == SkipBlanks(s, j) && s[k] == '\n'
    requires BlankLines(s, k + 1) == (e, n) && k < e <= |s|
    requires n == multiset(s[k + 1..e])['\n']
    ensures BlankLines(s, j).1 == multiset(s[j..BlankLines(s, j).0])['\n']
  {
    NewlineCountStep(s, j, k, e);
    BlankLinesNext(s, j, k);
    CountLine(s, j, e, n);
  }

  /** After blanks, a newline at `k` is one more repetition. */
  lemma BlankLinesNext(s: string, j: nat, k: nat)
    requires j <= |s| && k == SkipBlanks(s, j) && k < |s| && s[k] == '\n'
    ensures BlankLines(s, j) == (BlankLines(s, k + 1).0, BlankLines(s, k + 1).1 + 1)
  {
  }

  /** `BlankLinesCount` one line up, once the line itself is counted. */
  lemma CountLine(s: string, j: nat, e: nat, n: nat)
    requires j <= e <= |s| && BlankLines(s, j) == (e, n + 1)
    requires multiset(s[j..e])['\n'] == n + 1
    ensures BlankLines(s, j).1 == multiset(s[j..BlankLines(s, j).0])['\n']
  {
  }

  /** One more line: the newlines of `s[j..e]` are the one at `k`, after
      blanks, and those after it. */
  lemma NewlineCountStep(s: string, j: nat, k: nat, e: nat)
    requires j <= k < e <= |s| && s[k] == '\n'
    requires forall q :: j <= q < k ==> IsBlank(s[q])
    ensures multiset(s[j..e])['\n'] == multiset(s[k + 1..e])['\n'] + 1
  {
    assert s[j..e] == s[j..k] + [s[k]] + s[k + 1..e];
    assert '\n' !in s[j..k];
  }

  /** `\n([ \t]*\n){2,}`: a newline followed by at least two lines holding
      nothing but spaces and tabs, as many as there are. */
  function BlankRunAt(s: string, i: nat): (r: Option<Match>)
    ensures r.Some? <==> i < |s| && s[i] == '\n' && BlankLines(s, i + 1).1 >= 2
    ensures r.Some? ==> r.value.start == i < r.value.end <= |s| && r.value.end == BlankLines(s, i + 1).0
    ensures r.Some? ==> s[r.value.end - 1] == '\n'
    ensures r.Some? ==> forall k :: i <= k < r.value.end ==> IsBlank(s[k]) || s[k] == '\n'
  {
    if i < |s| && s[i] == '\n' then
      var (e, n) := BlankLines(s, i + 1);
      if n >= 2 then Some(Match(i, e, "")) else None
    else None
  }

  // ---------------------------------------------------------------------
  // Inclusion directives

  /** The brace group `\{([^}]+)\}` at `r`: the index after the closing
      brace and the (non-empty) text between the braces. */
  function BraceGroup(s: string, r: nat): (g: Option<(nat, string)>)
    ensures g.Some? ==> r + 2 < g.value.0 <= |s| && s[r] == '{' && s[g.value.0 - 1] == '}'
    ensures g.Some? ==> g.value.1 == s[r + 1..g.value.0 - 1]
    ensures g.Some? ==> forall k :: r < k < g.value.0 - 1 ==> s[k] != '}'
    ensures g.None? ==> || r >= |s| || s[r] != '{'
                        || (r + 1 < |s| && s[r + 1] == '}')
                        || forall k :: r < k < |s| ==> s[k] != '}'
  {
    if r < |s| && s[r] == '{' then
      match IndexFrom(s, r + 1, '}')
      case None => None
      case Some(c) => if c > r + 1 then Some((c + 1, s[r + 1..c])) else None
    else None
  }

  /** `\\(?:input|include)\s*\{\s*([^}]+)\s*\}` at `i`. The brace must follow
      the keyword after optional whitespace, so `\includegraphics{...}` is not
      a directive. */
  function DirectiveAt(s: string, i: nat): (r: Option<Match>)
    ensures r.Some? ==> r.value.start == i < r.value.end <= |s|
    ensures r.Some? ==> s[i] == '\\' && (LitAt(s, i + 1, "input") || LitAt(s, i + 1, "include"))
    ensures r.Some? ==> s[r.value.end - 1] == '}' && |r.value.group| > 0
    ensures r.Some? ==> forall k :: 0 <= k < |r.value.group| ==> r.value.group[k] != '}'
    ensures r.Some? <==> && i < |s| && s[i] == '\\'
                         && ((LitAt(s, i + 1, "input") && DirectiveArgument(s, SkipSpaces(s, i + 6)).Some?)
                             || (LitAt(s, i + 1, "include") && DirectiveArgument(s, SkipSpaces(s, i + 8)).Some?))
  {
    if i < |s| && s[i] == '\\' then
      InputNotInclude(s, i + 1);
      var kw := if LitAt(s, i + 1, "input") then 5 else if LitAt(s, i + 1, "include") then 7 else 0;
      if kw == 0 then None
      else
        match DirectiveArgument(s, SkipSpaces(s, i + 1 + kw))
        case None => None
        case Some((e, g)) => Some(Match(i, e, g))
    else None
  }

  /** `input` and `include` never occur at the same position. */
  lemma InputNotInclude(s: string, i: nat)
    ensures !(LitAt(s, i, "input") && LitAt(s, i, "include"))
  {
    LitAtChars(s, i, "input");
    LitAtChars(s, i, "include");
    assert LitAt(s, i, "input") ==> s[i + 2] == "input"[2];
    assert LitAt(s, i, "include") ==> s[i + 2] == "include"[2];
  }

  /** `\{\s*([^}]+)\s*\}` at `j`: the index after the brace group, and
      group 1, the brace content without its leading whitespace, except that
      all-whitespace content keeps its last character (the group cannot be
      empty). Trailing whitespace stays in the group, since `[^}]+` takes
      it first. */
  function DirectiveArgument(s: string, j: nat): (g: Option<(nat, string)>)
    ensures g.Some? ==> j < g.value.0 <= |s| && s[g.value.0 - 1] == '}'
    ensures g.Some? ==> |g.value.1| > 0 && forall k :: 0 <= k < |g.value.1| ==> g.value.1[k] != '}'
    ensures g.Some? ==> s[j] == '{' && j + |g.value.1| + 1 < g.value.0
    ensures g.Some? <==> BraceGroup(s, j).Some?
    ensures g.Some? ==> g.value.0 == BraceGroup(s, j).value.0
  {
    match BraceGroup(s, j)
    case None => None
    case Some((e, _)) =>
      var w := SkipSpaces(s, j + 1);
      assert !IsSpace(s[e - 1]);
      var start := if w < e - 1 then w else e - 2;
      Some((e, s[start..e - 1]))
  }

  /** A directive is its keyword, then whitespace, then the brace part. */
  lemma DirectiveParts(s: string, i: nat) returns (b: nat)
    requires DirectiveAt(s, i).Some?
    ensures b == SkipSpaces(s, i + 1 + if LitAt(s, i + 1, "input") then 5 else 7)
    ensures DirectiveArgument(s, b) == Some((DirectiveAt(s, i).value.end, DirectiveAt(s, i).value.group))
  {
    b := SkipSpaces(s, i + 1 + if LitAt(s, i + 1, "input") then 5 else 7);
  }

  /** Whitespace just inside the braces does not change the name: group 1,
      stripped, is the whole brace content, stripped. With `DirectiveParts`
      this holds for every directive `DirectiveAt` finds. */
  lemma ArgumentStripped(s: string, j: nat, e: nat, g: string)
    requires DirectiveArgument(s, j) == Some((e, g))
    ensures j + 1 < e <= |s| && s[j] == '{' && Strip(g) == Strip(s[j + 1..e - 1])
  {
    var w := ArgumentShape(s, j);
    ArgumentStrippedStep(s, j, e, w, g);
  }

  /** `ArgumentStripped` once the group is known as a suffix of the brace
      content. */
  lemma ArgumentStrippedStep(s: string, j: nat, e: nat, w: nat, g: string)
    requires j + 1 <= w < e <= |s| && j + 2 < e
    requires forall k :: j + 1 <= k < w ==> IsSpace(s[k])
    requires g == s[if w < e - 1 then w else e - 2..e - 1]
    ensures Strip(g) == Strip(s[j + 1..e - 1])
  {
    ArgumentSlice(s, j, e, w, g);
    StripSkippingSpaces(s[j + 1..e - 1], w - j - 1);
  }

  /** The group as a suffix of the brace content. */
  lemma ArgumentSlice(s: string, j: nat, e: nat, w: nat, g: string)
    requires j + 1 <= w < e <= |s| && j + 2 < e
    requires forall k :: j + 1 <= k < w ==> IsSpace(s[k])
    requires g == s[if w < e - 1 then w else e - 2..e - 1]
    ensures var x := s[j + 1..e - 1]; var k := w - j - 1;
            && 0 < |x| && k <= |x| && (forall q :: 0 <= q < k ==> IsSpace(x[q]))
            && g == x[if k < |x| then k else |x| - 1..]
  {
    LeadingSpaces(s, j + 1, w, e - 1);
  }

  /** Where the group of a directive's brace part starts: after the
      whitespace that follows `{`, or at the last character of content that
      is all whitespace. */
  lemma ArgumentShape(s: string, j: nat) returns (w: nat)
    requires DirectiveArgument(s, j).Some?
    ensures var (e, g) := DirectiveArgument(s, j).value;
            && j + 1 < e <= |s| && s[j] == '{' && j + 1 <= w < e
            && (forall k :: j + 1 <= k < w ==> IsSpace(s[k]))
            && g == s[if w < e - 1 then w else e - 2..e - 1]
  {
    var e := BraceGroup(s, j).value.0;
    w := SkipSpaces(s, j + 1);
    assert !IsSpace(s[e - 1]);
  }

  /** A whitespace run `s[lo..w]`, seen from the slice `s[lo..hi]`. */
  lemma LeadingSpaces(s: string, lo: nat, w: nat, hi: nat)
    requires lo <= w <= hi <= |s|
    requires forall k :: lo <= k < w ==> IsSpace(s[k])
    ensures forall q :: 0 <= q < w - lo ==> IsSpace(s[lo..hi][q])
  {
  }

  // ---------------------------------------------------------------------
  // Graphics references

  /** The match ends at `e` with a brace group holding `g`: a `{`, then the
      non-empty text `g` without `}`, then the `}` at `e - 1`. */
  predicate ClosesGroup(s: string, e: nat, g: string) {
    && |g| + 2 <= e <= |s|
    && s[e - |g| - 2] == '{' && s[e - 1] == '}'
    && s[e - |g| - 1..e - 1] == g
    && |g| > 0 && forall k :: 0 <= k < |g| ==> g[k] != '}'
  }

  /** A `]` at `p` that is directly followed by a brace group. */
  predicate OptionsEnd(s: string, p: nat) {
    p < |s| && s[p] == ']' && BraceGroup(s, p + 1).Some?
  }

  /** The lazy option search of `\[.*?\]` followed by a brace group: the
      first `]` at or after `q`, on the same line, that is directly followed
      by a brace group. */
  function BracketThenBrace(s: string, q: nat): (g: Option<(nat, string)>)
    requires q <= |s|
    ensures g.Some? ==> q + 3 < g.value.0 <= |s| && ClosesGroup(s, g.value.0, g.value.1)
    ensures g.Some? ==> var k := g.value.0 - |g.value.1| - 3;
                        && q <= k && OptionsEnd(s, k) && BraceGroup(s, k + 1) == g
                        && NoNewline(s, q, k) && forall p :: q <= p < k ==> !OptionsEnd(s, p)
    ensures g.None? ==> forall p :: q <= p < |s| && NoNewline(s, q, p) ==> !OptionsEnd(s, p)
  {
    match OptionsEndFrom(s, q)
    case None => None
    case Some(k) => BraceGroup(s, k + 1)
  }

  /** Where the options end: the first `]` at or after `q`, on the same
      line, that a brace group follows. */
  function OptionsEndFrom(s: string, q: nat): (r: Option<nat>)
    requires q <= |s|
    ensures r.Some? ==> && q <= r.value && OptionsEnd(s, r.value) && NoNewline(s, q, r.value)
                        && forall p :: q <= p < r.value ==> !OptionsEnd(s, p)
    ensures r.None? ==> forall p :: q <= p < |s| && NoNewline(s, q, p) ==> !OptionsEnd(s, p)
    decreases |s| - q
  {
    if q == |s| then None
    else if OptionsEnd(s, q) then Some(q)
    else if s[q] != '\n' then OptionsEndFrom(s, q + 1)
    else None
  }

  /** The options end at the first `]` on the line that a brace group
      follows: whatever lies before it, `[` included, belongs to the
      options. */
  lemma BracketThenBraceFirst(s: string, q: nat, k: nat)
    requires q <= k && OptionsEnd(s, k) && NoNewline(s, q, k)
    requires forall p :: q <= p < k ==> !OptionsEnd(s, p)
    ensures BracketThenBrace(s, q) == BraceGroup(s, k + 1)
  {
    var r := OptionsEndFrom(s, q);
    if r.Some? {
      assert r.value <= k;
      assert k <= r.value;
    }
  }

  /** `(?:\[.*?\])?\{([^}]+)\}` at `p`: the optional option argument is tried
      first, then its absence. */
  function OptionsThenBrace(s: string, p: nat): (g: Option<(nat, string)>)
    ensures g.Some? ==> p < g.value.0 <= |s| && ClosesGroup(s, g.value.0, g.value.1)
    ensures p < |s| && s[p] == '{' ==> g == BraceGroup(s, p)
    ensures p < |s| && s[p] == '[' ==> g == BracketThenBrace(s, p + 1)
    ensures p >= |s| || (s[p] != '{' && s[p] != '[') ==> g.None?
  {
    var withOptions := if p < |s| && s[p] == '[' then BracketThenBrace(s, p + 1) else None;
    if withOptions.Some? then withOptions else BraceGroup(s, p)
  }

  /** `cmd(?:\[.*?\])?\{([^}]+)\}` at `i`, the command name ignoring case. */
  function OptionsCommandAt(s: string, i: nat, cmd: string): (r: Option<Match>)
    ensures r.Some? ==> r.value.start == i < r.value.end <= |s|
    ensures r.Some? ==> LitAtIgnoreCase(s, i, cmd) && ClosesGroup(s, r.value.end, r.value.group)
    ensures r.Some? <==> LitAtIgnoreCase(s, i, cmd) && OptionsThenBrace(s, i + |cmd|).Some?
    ensures r.Some? ==> (r.value.end, r.value.group) == OptionsThenBrace(s, i + |cmd|).value
  {
    if LitAtIgnoreCase(s, i, cmd) then
      match OptionsThenBrace(s, i + |cmd|)
      case None => None
      case Some((e, g)) => Some(Match(i, e, g))
    else None
  }

  /** `\\includegraphics(?:\[.*?\])?\{([^}]+)\}` at `i`, ignoring case. */
  function IncludeGraphicsAt(s: string, i: nat): (r: Option<Match>)
    ensures r.Some? ==> r.value.start == i < r.value.end <= |s|
    ensures r.Some? ==> LitAtIgnoreCase(s, i, "\\includegraphics") && ClosesGroup(s, r.value.end, r.value.group)
    ensures r.Some? <==> LitAtIgnoreCase(s, i, "\\includegraphics") && OptionsThenBrace(s, i + 16).Some?
    ensures r.Some? ==> (r.value.end, r.value.group) == OptionsThenBrace(s, i + 16).value
  {
    OptionsCommandAt(s, i, "\\includegraphics")
  }

  /** `\\includepdf(?:\[.*?\])?\{([^}]+)\}` at `i`, ignoring case. */
  function IncludePdfAt(s: string, i: nat): (r: Option<Match>)
    ensures r.Some? ==> r.value.start == i < r.value.end <= |s|
    ensures r.Some? ==> LitAtIgnoreCase(s, i, "\\includepdf") && ClosesGroup(s, r.value.end, r.value.group)
    ensures r.Some? <==> LitAtIgnoreCase(s, i, "\\includepdf") && OptionsThenBrace(s, i + 11).Some?
    ensures r.Some? ==> (r.value.end, r.value.group) == OptionsThenBrace(s, i + 11).value
  {
    OptionsCommandAt(s, i, "\\includepdf")
  }

  /** `\\pdfximage\{([^}]+)\}` at `i`, ignoring case. */
  function PdfXImageAt(s: string, i: nat): (r: Option<Match>)
    ensures r.Some? ==> r.value.start == i < r.value.end <= |s|
    ensures r.Some? ==> LitAtIgnoreCase(s, i, "\\pdfximage") && r.value.end == i + 10 + |r.value.group| + 2
    ensures r.Some? ==> ClosesGroup(s, r.value.end, r.value.group)
    ensures r.Some? <==> LitAtIgnoreCase(s, i, "\\pdfximage") && BraceGroup(s, i + 10).Some?
  {
    if LitAtIgnoreCase(s, i, "\\pdfximage") then
      match BraceGroup(s, i + 10)
      case None => None
      case Some((e, g)) => Some(Match(i, e, g))
    else None
  }

  /** The character class `[a-zA-Z0-9_\-]`. */
  predicate NameChar(c: char) {
    ('a' <= c <= 'z') || ('A' <= c <= 'Z') || ('0' <= c <= '9') || c == '_' || c == '-'
  }

  /** The end of the longest run of name characters starting at `a`. */
  function NameRunEnd(s: string, a: nat): (r: nat)
    requires a <= |s|
    ensures a <= r <= |s|
    ensures forall k :: a <= k < r ==> NameChar(s[k])
    ensures r == |s| || !NameChar(s[r])
    decreases |s| - a
  {
    if a < |s| && NameChar(s[a]) then NameRunEnd(s, a + 1) else a
  }

  /** The lazy `.*?\}` at `j`: the first `}` at or after `j` before the end
      of the line. */
  function BraceOnLine(s: string, j: nat): (r: Option<nat>)
    requires j <= |s|
    ensures r.Some? ==> j <= r.value < |s| && s[r.value] == '}' && NoNewline(s, j, r.value)
    ensures r.Some? ==> forall k :: j <= k < r.value ==> s[k] != '}'
    ensures r.None? ==> forall k :: j <= k < |s| && NoNewline(s, j, k) ==> s[k] != '}'
    decreases |s| - j
  {
    if j == |s| then None
    else if s[j] == '}' then Some(j)
    else if s[j] != '\n' then BraceOnLine(s, j + 1)
    else None
  }

  /** A caption's file name can start at `b`: the longest run of name
      characters from `b` is followed by `.pdf`, ignoring case, and a `}`
      follows later on the same line. */
  predicate NameAt(s: string, b: nat) {
    && b <= |s|
    && var run := NameRunEnd(s, b);
       run > b && LitAtIgnoreCase(s, run, ".pdf") && BraceOnLine(s, run + 4).Some?
  }

  /** `b` is the first position from `a`, on the same line, where a
      caption's file name can start. */
  predicate FirstNameAt(s: string, a: nat, b: nat) {
    && a <= b <= |s| && NoNewline(s, a, b) && NameAt(s, b)
    && forall p :: a <= p < b ==> !NameAt(s, p)
  }

  /** No caption's file name can start from `a` to the end of its line. */
  predicate NoNameFrom(s: string, a: nat) {
    forall p :: a <= p <= |s| && NoNewline(s, a, p) ==> !NameAt(s, p)
  }

  /** `.*?([a-zA-Z0-9_\-]+\.pdf).*?\}` at `a`: the name starts at the first
      position on the line where one can start. Because `.` is not a name
      character, the name is always the longest run from its start. The
      match records where the name starts, where the match ends, and the
      name. */
  function CaptionName(s: string, a: nat): (g: Option<Match>)
    requires a <= |s|
    ensures g.Some? ==> a < g.value.end <= |s| && EndsWithPdf(g.value.group) && s[g.value.end - 1] == '}'
    ensures g.Some? ==> forall k :: 0 <= k < |g.value.group| - 4 ==> NameChar(g.value.group[k])
    ensures g.Some? ==> && FirstNameAt(s, a, g.value.start)
                        && g.value.group == s[g.value.start..NameRunEnd(s, g.value.start) + 4]
                        && g.value.end == BraceOnLine(s, NameRunEnd(s, g.value.start) + 4).value + 1
    ensures g.None? ==> NoNameFrom(s, a)
  {
    match FirstName(s, a)
    case None => None
    case Some(b) => NameHere(s, b)
  }

  /** Where the first name on the line from `a` starts, if one does. */
  function FirstName(s: string, a: nat): (r: Option<nat>)
    requires a <= |s|
    ensures r.Some? ==> FirstNameAt(s, a, r.value)
    ensures r.None? ==> NoNameFrom(s, a)
    decreases |s| - a
  {
    if NameAt(s, a) then
      Some(a)
    else if a < |s| && s[a] != '\n' then
      var r := FirstName(s, a + 1);
      if r.Some? then FirstNameStep(s, a, r.value); r
      else NoNameStep(s, a); r
    else
      NoNameHere(s, a);
      None
  }

  /** The match of a caption's file name that starts at `a`. */
  function NameHere(s: string, a: nat): (g: Option<Match>)
    requires NameAt(s, a)
    ensures g.Some? && g.value.start == a
    ensures a < g.value.end <= |s| && EndsWithPdf(g.value.group) && s[g.value.end - 1] == '}'
    ensures forall k :: 0 <= k < |g.value.group| - 4 ==> NameChar(g.value.group[k])
    ensures g.value.group == s[a..NameRunEnd(s, a) + 4]
    ensures g.value.end == BraceOnLine(s, NameRunEnd(s, a) + 4).value + 1
  {
    var run := NameRunEnd(s, a);
    var e := BraceOnLine(s, run + 4).value;
    NameShape(s, a, run, s[a..run + 4]);
    Some(Match(a, e + 1, s[a..run + 4]))
  }

  /** The name from `a` to `run`, then `.pdf`, is a name ending in `.pdf`. */
  lemma NameShape(s: string, a: nat, run: nat, x: string)
    requires a < run && run + 4 <= |s| && x == s[a..run + 4]
    requires forall k :: a <= k < run ==> NameChar(s[k])
    requires LitAtIgnoreCase(s, run, ".pdf")
    ensures EndsWithPdf(x)
    ensures forall k :: 0 <= k < |x| - 4 ==> NameChar(x[k])
  {
    var j := |x| - 4;
    forall k | 0 <= k < 4
      ensures Lower(x[j + k]) == Lower(".pdf"[k])
    {
      assert x[j + k] == s[run + k];
    }
    assert forall k :: 0 <= k < j ==> x[k] == s[a + k];
  }

  /** Where no name starts at `a`, the first one is the first from `a + 1`. */
  lemma FirstNameStep(s: string, a: nat, b: nat)
    requires a < |s| && s[a] != '\n' && !NameAt(s, a) && FirstNameAt(s, a + 1, b)
    ensures FirstNameAt(s, a, b)
  {
  }

  /** Where no name starts at `a`, none starts on the line from `a` if none
      starts from `a + 1`. */
  lemma NoNameStep(s: string, a: nat)
    requires a < |s| && s[a] != '\n' && !NameAt(s, a) && NoNameFrom(s, a + 1)
    ensures NoNameFrom(s, a)
  {
    forall p | a <= p <= |s| && NoNewline(s, a, p)
      ensures !NameAt(s, p)
    {
      if p > a {
        assert NoNewline(s, a + 1, p);
      }
    }
  }

  /** At the end of a line, with no name starting there, no name starts. */
  lemma NoNameHere(s: string, a: nat)
    requires a <= |s| && !NameAt(s, a) && (a == |s| || s[a] == '\n')
    ensures NoNameFrom(s, a)
  {
    forall p | a <= p <= |s| && NoNewline(s, a, p)
      ensures !NameAt(s, p)
    {
      assert p == a;
    }
  }

  /** Wherever the first name on the line starts, `CaptionName` takes the
      name that starts there. */
  lemma CaptionNameFirst(s: string, a: nat, b: nat)
    requires FirstNameAt(s, a, b)
    ensures CaptionName(s, a).Some? && CaptionName(s, a).value.start == b
  {
    var g := CaptionName(s, a);
    if g.Some? {
      var c := g.value.start;
      assert c <= b;
      assert b <= c;
    }
  }

  /** `\\caption\{.*?([a-zA-Z0-9_\-]+\.pdf).*?\}` at `i`, ignoring case: a
      loose heuristic that may look past the caption's own closing brace. */
  function CaptionPdfAt(s: string, i: nat): (r: Option<Match>)
    ensures r.Some? ==> r.value.start == i < r.value.end <= |s|
    ensures r.Some? ==> EndsWithPdf(r.value.group) && s[r.value.end - 1] == '}'
    ensures r.Some? ==> LitAtIgnoreCase(s, i, "\\caption{")
    ensures r.Some? <==> LitAtIgnoreCase(s, i, "\\caption{") && CaptionName(s, i + 9).Some?
    ensures r.Some? ==> r.value.end == CaptionName(s, i + 9).value.end
                        && r.value.group == CaptionName(s, i + 9).value.group
  {
    if LitAtIgnoreCase(s, i, "\\caption{") then
      match CaptionName(s, i + 9)
      case None => None
      case Some(n) => Some(Match(i, n.end, n.group))
    else None
  }

  // ---------------------------------------------------------------------
  // Examples: each pattern recognises what it is written for

  /** `\input{c}` is a directive naming `c`. */
  lemma InputRecognised(s: string, c: char)
    requires s == "\\input{" + [c] + "}" && c != '}' && !IsSpace(c)
    ensures DirectiveAt(s, 0) == Some(Match(0, 9, [c]))
  {
    assert s[1..6] == "input";
    assert SkipSpaces(s, 6) == 6;
    IndexFromUnique(s, 7, '}', Some(8));
    assert BraceGroup(s, 6) == Some((9, s[7..8]));
    assert SkipSpaces(s, 7) == 7;
    assert s[7..8] == [c];
  }

  /** `\include {b}`: whitespace may separate the keyword from the brace. */
  lemma IncludeRecognised()
    ensures DirectiveAt("\\include {b}", 0) == Some(Match(0, 12, "b"))
  {
    var s := "\\include {b}";
    assert s[1..8] == "include";
    InputNotInclude(s, 1);
    assert SkipSpaces(s, 9) == 9;
    assert SkipSpaces(s, 8) == 9;
    IndexFromUnique(s, 10, '}', Some(11));
    assert BraceGroup(s, 9) == Some((12, s[10..11]));
    assert SkipSpaces(s, 10) == 10;
    assert s[10..11] == "b";
  }

  /** `\includegraphics[width=1cm]{x}`: the options are skipped. */
  lemma GraphicsRecognised()
    ensures IncludeGraphicsAt(WithOptions, 0) == Some(Match(0, 30, "x"))
  {
    var s := WithOptions;
    WithOptionsShape(s);
    BracketThenBraceFirst(s, 17, 26);
  }

  /** A graphics command with an option argument. */
  const WithOptions := "\\includegraphics[width=1cm]{x}"

  /** The option argument of `WithOptions` ends at index 26, where its
      brace group starts. */
  lemma WithOptionsShape(s: string)
    requires s == WithOptions
    ensures |s| == 30 && LitAtIgnoreCase(s, 0, "\\includegraphics") && s[16] == '['
    ensures BraceGroup(s, 27) == Some((30, "x")) && OptionsEnd(s, 26)
    ensures NoNewline(s, 17, 26) && forall p :: 17 <= p < 26 ==> !OptionsEnd(s, p)
  {
    IndexFromUnique(s, 28, '}', Some(29));
    assert BraceGroup(s, 27) == Some((30, s[28..29]));
    assert s[28..29] == "x";
    assert forall p :: 17 <= p < 26 ==> s[p] != ']' && s[p] != '\n';
  }

  /** `\includepdf{x}`, without options. */
  lemma IncludePdfRecognised()
    ensures IncludePdfAt("\\includepdf{x}", 0) == Some(Match(0, 14, "x"))
  {
    var s := "\\includepdf{x}";
    assert LitAtIgnoreCase(s, 0, "\\includepdf");
    IndexFromUnique(s, 12, '}', Some(13));
    assert BraceGroup(s, 11) == Some((14, s[12..13]));
    assert s[12..13] == "x";
  }

  /** `\pdfximage{x}`. */
  lemma PdfXImageRecognised()
    ensures PdfXImageAt("\\pdfximage{x}", 0) == Some(Match(0, 13, "x"))
  {
    var s := "\\pdfximage{x}";
    assert LitAtIgnoreCase(s, 0, "\\pdfximage");
    IndexFromUnique(s, 11, '}', Some(12));
    assert BraceGroup(s, 10) == Some((13, s[11..12]));
    assert s[11..12] == "x";
  }

  /** A caption mentioning a PDF file. */
  const SeePlot := "\\caption{see plot.pdf}"

  /** The caption's name is `plot.pdf`, the first name on the line, and the
      match runs to the closing brace. */
  lemma CaptionRecognised()
    ensures CaptionPdfAt(SeePlot, 0) == Some(Match(0, 22, "plot.pdf"))
  {
    var s := SeePlot;
    assert LitAtIgnoreCase(s, 0, "\\caption{");
    SeeIsNoName(s);
    PlotIsName(s);
    assert NoNewline(s, 9, 13);
    CaptionNameFirst(s, 9, 13);
  }

  /** No name starts inside `see `: `see` is not followed by `.pdf`. */
  lemma SeeIsNoName(s: string)
    requires s == SeePlot
    ensures forall p :: 9 <= p < 13 ==> !NameAt(s, p)
  {
    assert NameRunEnd(s, 12) == 12;
    assert NameRunEnd(s, 11) == 12;
    assert NameRunEnd(s, 10) == 12;
    assert NameRunEnd(s, 9) == 12;
    assert Lower(s[12]) != Lower(".pdf"[0]);
  }

  /** A name starts at `plot`. */
  lemma PlotIsName(s: string)
    requires s == SeePlot
    ensures NameAt(s, 13) && NameRunEnd(s, 13) == 17 && BraceOnLine(s, 21) == Some(21)
    ensures s[13..21] == "plot.pdf"
  {
    assert NameRunEnd(s, 17) == 17;
    assert NameRunEnd(s, 13) == 17;
    assert LitAtIgnoreCase(s, 17, ".pdf");
    assert BraceOnLine(s, 21) == Some(21);
  }
}
