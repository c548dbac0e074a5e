/** `expand_input_commands`: every `\input{...}` or `\include{...}` is
    replaced by the contents of the file it names, with comments removed and
    its own directives expanded relative to that file's directory.

    The file system is a map from absolute paths to contents; a path that is
    missing from the map is one whose read fails, and its directive
    contributes nothing. The source removes the comments of each file right
    after reading it, so the expansion reads `StripFiles(fs)`: every
    readable file with its comments already removed. The source recurses without bound; here `fuel`
    bounds the nesting depth, and a file that would need more nesting than
    the fuel allows contributes nothing, as a read failure does, while the
    result records that it was cut short. */
module Includes {
  import opened Options
  import opened Text
  import opened Paths
  import opened Patterns
  import opened Scan
  import opened Comments

  /** The file system the expansion reads: the readable files and their
      contents. */
  type FileSystem = map<Path, string>

  /** Every readable file as the expansion sees it: with its comments
      removed. */
  function StripFiles(fs: FileSystem): FileSystem {
    map p | p in fs :: RemoveComments(fs[p])
  }

  /** Expanded text, and whether no inclusion was cut short for lack of
      fuel. */
  datatype Expansion = Expansion(text: string, complete: bool)

  /** The file name a directive names: its argument stripped, with `.tex`
      appended when it has no extension. */
  function TexName(arg: string): string {
    var name := Strip(arg);
    if HasExtension(name) then name else name + ".tex"
  }

  /** The file a directive match refers to, resolved against `base`. */
  function Target(base: Path, m: Match): (r: Path)
    requires Normal(base)
    ensures Normal(r)
    ensures ProperSegment(TexName(m.group)) ==> r == Path(base.segs + [TexName(m.group)])
  {
    var name := TexName(m.group);
    if ProperSegment(name) then
      ResolveComponent(base, name);
      Resolve(base, name)
    else
      Resolve(base, name)
  }

  /** A directive naming a single file in the directory resolves to that
      file there: as written when it has an extension, with `.tex` appended
      when it has none. */
  lemma TargetComponent(base: Path, m: Match)
    requires Normal(base) && ProperSegment(Strip(m.group))
    ensures HasExtension(Strip(m.group)) ==> Target(base, m) == Path(base.segs + [Strip(m.group)])
    ensures !HasExtension(Strip(m.group)) ==> Target(base, m) == Path(base.segs + [Strip(m.group) + ".tex"])
  {
    var x := Strip(m.group);
    if !HasExtension(x) {
      TexSegment(x);
    }
  }

  /** Appending `.tex` keeps a component proper. */
  lemma TexSegment(x: string)
    requires ProperSegment(x)
    ensures ProperSegment(x + ".tex")
  {
    var t := x + ".tex";
    assert |t| > 2;
    assert forall k :: |x| <= k < |t| ==> t[k] == ".tex"[k - |x|];
  }

  /** The text `s`, as seen from directory `base`, with its directives
      expanded. */
  function Expand(fs: FileSystem, s: string, base: Path, fuel: nat): Expansion
    requires Normal(base)
    decreases fuel, 3, 0
  {
    ExpandFrom(fs, s, 0, base, fuel)
  }

  /** `s[from..]` with its directives expanded, the scan starting at `from`. */
  function ExpandFrom(fs: FileSystem, s: string, from: nat, base: Path, fuel: nat): Expansion
    requires Normal(base) && from <= |s|
    decreases fuel, 2, 0
  {
    PatternsSound();
    ExpandMatches(fs, s, FindAll(DirectiveAt, s, from), from, base, fuel)
  }

  /** The output buffer: the text before each match copied, then what the
      match includes, then the rest after the last match. */
  function ExpandMatches(fs: FileSystem, s: string, ms: seq<Match>, from: nat, base: Path, fuel: nat): Expansion
    requires Normal(base) && from <= |s| && InOrder(ms, from, |s|)
    decreases fuel, 1, |ms|
  {
    if |ms| == 0 then Expansion(s[from..], true)
    else
      InOrderTail(ms, from, |s|);
      var inc := Include(fs, Target(base, ms[0]), fuel);
      var rest := ExpandMatches(fs, s, ms[1..], ms[0].end, base, fuel);
      Expansion(s[from..ms[0].start] + inc.text + rest.text, inc.complete && rest.complete)
  }

  /** What one directive contributes: nothing when the file cannot be read;
      otherwise its (comment-free) contents with its own directives expanded
      from the file's own directory. */
  function Include(fs: FileSystem, p: Path, fuel: nat): Expansion
    requires Normal(p)
    decreases fuel, 0, 0
  {
    if p !in fs then Expansion("", true)
    else if fuel == 0 then Expansion("", false)
    else Expand(fs, fs[p], Dirname(p), fuel - 1)
  }

  // ---------------------------------------------------------------------
  // The output buffer, step by step

  /** Where no directive starts in `s[from..]`, it is copied unchanged. */
  lemma ExpandFromNone(fs: FileSystem, s: string, from: nat, base: Path, fuel: nat)
    requires Normal(base) && from <= |s|
    requires forall p :: from <= p < |s| ==> DirectiveAt(s, p).None?
    ensures ExpandFrom(fs, s, from, base, fuel) == Expansion(s[from..], true)
  {
    PatternsSound();
    ScanEmptyIff(DirectiveAt, s, from);
  }

  /** The first directive at or after `from` splits the output: the text
      before it verbatim, then what it includes, then the expansion of the
      text after it. */
  lemma ExpandFromStep(fs: FileSystem, s: string, from: nat, base: Path, fuel: nat, i: nat, m: Match)
    requires Normal(base) && from <= i < |s|
    requires DirectiveAt(s, i) == Some(m)
    requires forall p :: from <= p < i ==> DirectiveAt(s, p).None?
    ensures m.end <= |s|
    ensures ExpandFrom(fs, s, from, base, fuel).text
            == s[from..i] + Include(fs, Target(base, m), fuel).text + ExpandFrom(fs, s, m.end, base, fuel).text
    ensures ExpandFrom(fs, s, from, base, fuel).complete
            == (Include(fs, Target(base, m), fuel).complete && ExpandFrom(fs, s, m.end, base, fuel).complete)
  {
    PatternsSound();
    FindAllSkipTo(DirectiveAt, s, from, i, m);
    var ms := FindAll(DirectiveAt, s, from);
    assert ms[0] == m && ms[1..] == FindAll(DirectiveAt, s, m.end);
  }

  /** A text without directives is returned unchanged. */
  lemma ExpandNoDirective(fs: FileSystem, s: string, base: Path, fuel: nat)
    requires Normal(base)
    requires forall p :: 0 <= p < |s| ==> DirectiveAt(s, p).None?
    ensures Expand(fs, s, base, fuel) == Expansion(s, true)
  {
    ExpandFromNone(fs, s, 0, base, fuel);
  }

  /** A directive whose file cannot be read is dropped, and the text after
      it is still expanded. */
  lemma MissingFileDropped(fs: FileSystem, s: string, from: nat, base: Path, fuel: nat, i: nat, m: Match)
    requires Normal(base) && from <= i < |s|
    requires DirectiveAt(s, i) == Some(m)
    requires forall p :: from <= p < i ==> DirectiveAt(s, p).None?
    requires Target(base, m) !in fs
    ensures m.end <= |s|
    ensures ExpandFrom(fs, s, from, base, fuel)
            == Expansion(s[from..i] + ExpandFrom(fs, s, m.end, base, fuel).text,
                         ExpandFrom(fs, s, m.end, base, fuel).complete)
  {
    ExpandFromStep(fs, s, from, base, fuel, i, m);
    var inc := Include(fs, Target(base, m), fuel);
    assert inc == Expansion("", true);
    assert s[from..i] + inc.text == s[from..i];
  }

  /** A readable file is included with its directives resolved against its
      own directory, one level of fuel down. */
  lemma IncludeReadable(fs: FileSystem, p: Path, fuel: nat)
    requires Normal(p) && p in fs && fuel > 0
    ensures Include(fs, p, fuel) == Expand(fs, fs[p], Dirname(p), fuel - 1)
  {
  }

  /** A readable file with no directive left after comment removal is
      included as its comment-free text. */
  lemma IncludeLeaf(files: FileSystem, p: Path, fuel: nat)
    requires Normal(p) && p in files && fuel > 0
    requires forall q :: 0 <= q < |files[p]| ==> DirectiveAt(files[p], q).None?
    ensures Include(files, p, fuel) == Expansion(files[p], true)
  {
    IncludeReadable(files, p, fuel);
    ExpandNoDirective(files, files[p], Dirname(p), fuel - 1);
  }

  /** A readable file with no directive left after comment removal
      contributes its text with the comments removed, as the expansion of a
      document sees it: a `%` comment inside such a file never reaches the
      output. */
  lemma LeafStripped(fs: FileSystem, p: Path, fuel: nat)
    requires Normal(p) && p in fs && fuel > 0
    requires forall q :: 0 <= q < |RemoveComments(fs[p])| ==> DirectiveAt(RemoveComments(fs[p]), q).None?
    ensures Include(StripFiles(fs), p, fuel) == Expansion(RemoveComments(fs[p]), true)
  {
    IncludeLeaf(StripFiles(fs), p, fuel);
  }

  // ---------------------------------------------------------------------
  // Whole documents

  /** A text that is a single directive expands to what that directive
      includes. */
  lemma SoleDirective(fs: FileSystem, s: string, m: Match, base: Path, fuel: nat)
    requires Normal(base)
    requires DirectiveAt(s, 0) == Some(m) && m.end == |s|
    ensures Expand(fs, s, base, fuel) == Include(fs, Target(base, m), fuel)
  {
    ExpandFromStep(fs, s, 0, base, fuel, 0, m);
    ExpandFromNone(fs, s, |s|, base, fuel);
    var inc := Include(fs, Target(base, m), fuel);
    assert s[0..0] + inc.text + s[|s|..] == inc.text;
  }

  /** A text that is a single directive naming a file of the directory
      without extension expands to that file with `.tex` appended. */
  lemma DirectiveComponent(fs: FileSystem, s: string, m: Match, base: Path, fuel: nat)
    requires Normal(base)
    requires DirectiveAt(s, 0) == Some(m) && m.end == |s|
    requires ProperSegment(Strip(m.group)) && !HasExtension(Strip(m.group))
    ensures ProperSegment(Strip(m.group) + ".tex")
    ensures Expand(fs, s, base, fuel) == Include(fs, Path(base.segs + [Strip(m.group) + ".tex"]), fuel)
  {
    SoleDirective(fs, s, m, base, fuel);
    TargetComponent(base, m);
    TexSegment(Strip(m.group));
  }

  /** `\input{c}`, for a one-character name `c`, expands to the file `c.tex`
      in the current directory. */
  lemma InputExpands(fs: FileSystem, s: string, c: char, base: Path, fuel: nat)
    requires Normal(base)
    requires s == "\\input{" + [c] + "}" && c != '}' && c != '/' && c != '.' && !IsSpace(c)
    ensures ProperSegment([c] + ".tex")
    ensures Expand(fs, s, base, fuel) == Include(fs, Path(base.segs + [[c] + ".tex"]), fuel)
  {
    var x := [c];
    var m := Match(0, 9, x);
    assert DirectiveAt(s, 0) == Some(m) && m.end == |s| by {
      InputRecognised(s, c);
    }
    assert Strip(m.group) == x && ProperSegment(x) && !HasExtension(x) by {
      StripTrimmed(x);
      LastIndexUnique(x, '.', -1);
    }
    DirectiveComponent(fs, s, m, base, fuel);
  }

  /** Nested inclusion: the file `a` of directory `d` is a single directive
      naming `b` without extension; `b` is resolved against `d`, the
      directory of `a`, so the text of `b.tex` there comes out. Two levels
      of nesting need two units of fuel. */
  lemma NestedInclude(fs: FileSystem, d: Path, a: string, m: Match, t: string)
    requires Normal(d) && ProperSegment(a)
    requires Path(d.segs + [a]) in fs
    requires DirectiveAt(fs[Path(d.segs + [a])], 0) == Some(m) && m.end == |fs[Path(d.segs + [a])]|
    requires ProperSegment(Strip(m.group)) && !HasExtension(Strip(m.group))
    requires Path(d.segs + [Strip(m.group) + ".tex"]) in fs
    requires fs[Path(d.segs + [Strip(m.group) + ".tex"])] == t
    requires forall q :: 0 <= q < |t| ==> DirectiveAt(t, q).None?
    ensures Include(fs, Path(d.segs + [a]), 2) == Expansion(t, true)
  {
    var pa := Path(d.segs + [a]);
    assert Dirname(pa) == d;
    DirectiveComponent(fs, fs[pa], m, d, 1);
    IncludeLeaf(fs, Path(d.segs + [Strip(m.group) + ".tex"]), 1);
  }

  /** `NestedInclude` for `a.tex` holding `\input{b}` and `b.tex` holding
      `X`. */
  lemma NestedExample(fs: FileSystem, d: Path)
    requires Normal(d)
    requires Path(d.segs + ["a.tex"]) in fs && fs[Path(d.segs + ["a.tex"])] == "\\input{b}"
    requires Path(d.segs + ["b.tex"]) in fs && fs[Path(d.segs + ["b.tex"])] == "X"
    ensures Include(fs, Path(d.segs + ["a.tex"]), 2) == Expansion("X", true)
  {
    var m := Match(0, 9, "b");
    assert DirectiveAt(fs[Path(d.segs + ["a.tex"])], 0) == Some(m) by {
      assert "\\input{" + ['b'] + "}" == "\\input{b}";
      InputRecognised(fs[Path(d.segs + ["a.tex"])], 'b');
    }
    ExampleNames("a.tex", m.group, "b.tex");
    var t := "X";
    assert forall q :: 0 <= q < |t| ==> DirectiveAt(t, q).None?;
    NestedInclude(fs, d, "a.tex", m, t);
  }

  /** The file names of `NestedExample`. */
  lemma ExampleNames(a: string, b: string, bt: string)
    requires a == "a.tex" && b == "b" && bt == "b.tex"
    ensures ProperSegment(a) && ProperSegment(b) && Strip(b) == b && !HasExtension(b)
    ensures b + ".tex" == bt
  {
    StripTrimmed(b);
    LastIndexUnique(b, '.', -1);
  }

  // ---------------------------------------------------------------------
  // The loop of the source

  /** `expand_input_commands` as the source writes it: a buffer and the end
      of the last match, extended match by match. */
  method ExpandBuffer(fs: FileSystem, s: string, base: Path, fuel: nat) returns (out: string)
    requires Normal(base)
    ensures out == Expand(fs, s, base, fuel).text
  {
    PatternsSound();
    var ms := FindAll(DirectiveAt, s, 0);
    ghost var whole := ExpandMatches(fs, s, ms, 0, base, fuel).text;
    assert whole == Expand(fs, s, base, fuel).text;
    assert ms[0..] == ms;
    out := "";
    var last: nat := 0;
    var k := 0;
    while k < |ms|
      invariant 0 <= k <= |ms|
      invariant last <= |s| && InOrder(ms[k..], last, |s|)
      invariant out + ExpandMatches(fs, s, ms[k..], last, base, fuel).text == whole
    {
      var m := ms[k];
      assert ms[k..][0] == m && ms[k..][1..] == ms[k + 1..];
      MatchesStep(fs, s, ms[k..], last, base, fuel);
      var inc := Include(fs, Target(base, m), fuel).text;
      var rest := ExpandMatches(fs, s, ms[k + 1..], m.end, base, fuel).text;
      Regroup(out, s[last..m.start], inc, rest);
      out := out + s[last..m.start] + inc;
      last := m.end;
      k := k + 1;
    }
    assert ms[k..] == [];
    out := out + s[last..];
  }

  /** One step of the output buffer: the text before the first match, what
      it includes, then the rest. */
  lemma MatchesStep(fs: FileSystem, s: string, ms: seq<Match>, from: nat, base: Path, fuel: nat)
    requires Normal(base) && from <= |s| && |ms| > 0 && InOrder(ms, from, |s|)
    ensures InOrder(ms[1..], ms[0].end, |s|) && from <= ms[0].start <= ms[0].end <= |s|
    ensures ExpandMatches(fs, s, ms, from, base, fuel).text
            == s[from..ms[0].start] + Include(fs, Target(base, ms[0]), fuel).text
               + ExpandMatches(fs, s, ms[1..], ms[0].end, base, fuel).text
  {
    InOrderTail(ms, from, |s|);
  }

  /** Appending three pieces one after another. */
  lemma Regroup(a: string, b: string, c: string, d: string)
    ensures a + (b + c + d) == (a + b + c) + d
  {
  }

  // ---------------------------------------------------------------------
  // Unreadable files and the nesting bound

  /** When no file can be read, the expansion deletes every directive and
      nothing else. */
  lemma {:induction false} NothingReadable(s: string, ms: seq<Match>, from: nat, base: Path, fuel: nat)
    requires Normal(base) && from <= |s| && InOrder(ms, from, |s|)
    ensures ExpandMatches(map[], s, ms, from, base, fuel) == Expansion(Splice(s, ms, Repeat("", |ms|), from), true)
    decreases |ms|
  {
    if |ms| > 0 {
      InOrderTail(ms, from, |s|);
      NothingReadable(s, ms[1..], ms[0].end, base, fuel);
      assert Repeat("", |ms|)[1..] == Repeat("", |ms| - 1);
    }
  }

  /** With an empty file system the output is the input with every
      directive deleted, so it is a subsequence of the input. */
  lemma EmptyFileSystem(s: string, base: Path, fuel: nat)
    requires Normal(base)
    ensures Expand(map[], s, base, fuel) == Expansion(Sub(DirectiveAt, s, ""), true)
    ensures IsSubsequence(Expand(map[], s, base, fuel).text, s)
  {
    PatternsSound();
    NothingReadable(s, FindAll(DirectiveAt, s, 0), 0, base, fuel);
    DeleteIsSubsequence(DirectiveAt, s);
  }

  /** An expansion that was not cut short stays the same with more fuel. */
  lemma {:induction false} ExpandFuel(fs: FileSystem, s: string, base: Path, fuel: nat, more: nat)
    requires Normal(base)
    requires Expand(fs, s, base, fuel).complete
    ensures Expand(fs, s, base, fuel + more) == Expand(fs, s, base, fuel)
    decreases fuel, 2, 0
  {
    PatternsSound();
    MatchesFuel(fs, s, FindAll(DirectiveAt, s, 0), 0, base, fuel, more);
  }

  /** `ExpandFuel` for the output buffer. */
  lemma {:induction false} MatchesFuel(fs: FileSystem, s: string, ms: seq<Match>, from: nat, base: Path, fuel: nat, more: nat)
    requires Normal(base) && from <= |s| && InOrder(ms, from, |s|)
    requires ExpandMatches(fs, s, ms, from, base, fuel).complete
    ensures ExpandMatches(fs, s, ms, from, base, fuel + more) == ExpandMatches(fs, s, ms, from, base, fuel)
    decreases fuel, 1, |ms|
  {
    if |ms| > 0 {
      InOrderTail(ms, from, |s|);
      IncludeFuel(fs, Target(base, ms[0]), fuel, more);
      MatchesFuel(fs, s, ms[1..], ms[0].end, base, fuel, more);
    }
  }

  /** `ExpandFuel` for one inclusion. */
  lemma {:induction false} IncludeFuel(fs: FileSystem, p: Path, fuel: nat, more: nat)
    requires Normal(p)
    requires Include(fs, p, fuel).complete
    ensures Include(fs, p, fuel + more) == Include(fs, p, fuel)
    decreases fuel, 0, 0
  {
    if p in fs && fuel > 0 {
      IncludeReadable(fs, p, fuel);
      IncludeReadable(fs, p, fuel + more);
      ExpandFuel(fs, fs[p], Dirname(p), fuel - 1, more);
    }
  }

  // ---------------------------------------------------------------------
  // What counts as a directive

  /** `\includegraphics{...}` is not a directive: after `\include` the
      pattern wants whitespace or a brace. */
  lemma IncludeGraphicsIsNotDirective(s: string, i: nat)
    requires LitAt(s, i, "\\includegraphics")
    ensures DirectiveAt(s, i).None?
  {
    LitAtChars(s, i, "\\includegraphics");
    assert s[i] == "\\includegraphics"[0] && s[i + 3] == "\\includegraphics"[3];
    assert !LitAt(s, i + 1, "input") by {
      LitAtChars(s, i + 1, "input");
      assert s[i + 1 + 2] != "input"[2];
    }
    assert s[i + 8] == "\\includegraphics"[8] == 'g';
    assert SkipSpaces(s, i + 8) == i + 8;
    assert BraceGroup(s, i + 8).None?;
  }

  // ---------------------------------------------------------------------
  // File names

  /** The last component of `name` holds a character other than `.`, so
      that `splitext` can find an extension in it. */
  predicate HasStem(name: string) {
    exists k :: LastIndex(name, '/') < k < |name| && name[k] != '.'
  }

  /** Appending `.tex` to a name without extension gives it exactly that
      extension, with the name itself as the root. */
  lemma AppendTex(name: string)
    requires HasStem(name)
    ensures SplitExt(name + ".tex") == (name, ".tex")
  {
    var t := name + ".tex";
    var sep := LastIndex(name, '/');
    assert forall k :: sep < k < |t| ==> t[k] != '/' by {
      forall k | sep < k < |t| ensures t[k] != '/' {
        if k >= |name| {
          assert t[k] == ".tex"[k - |name|];
        } else {
          assert t[k] == name[k];
        }
      }
    }
    LastIndexUnique(t, '/', sep);
    LastIndexUnique(t, '.', |name|);
    var k :| sep < k < |name| && name[k] != '.';
    assert t[k] == name[k];
    assert t[..|name|] == name && t[|name|..] == ".tex";
  }

  /** The name a directive yields has an extension: the one it was written
      with, or `.tex` when it had none. */
  lemma TexNameExtension(arg: string)
    requires HasStem(Strip(arg))
    ensures HasExtension(Strip(arg)) ==> TexName(arg) == Strip(arg)
    ensures !HasExtension(Strip(arg)) ==> SplitExt(TexName(arg)) == (Strip(arg), ".tex")
    ensures HasExtension(TexName(arg))
  {
    if !HasExtension(Strip(arg)) {
      AppendTex(Strip(arg));
    }
  }

  /** Naming a file twice changes nothing: the name a directive yields,
      written as a directive again, yields itself. */
  lemma TexNameIdempotent(arg: string)
    requires HasStem(Strip(arg))
    ensures TexName(TexName(arg)) == TexName(arg)
  {
    var name := Strip(arg);
    TexNameExtension(arg);
    var r := TexName(arg);
    if !HasExtension(name) {
      assert r == name + ".tex";
      assert r[|r| - 1] == 'x';
      assert name == [] || r[0] == name[0];
    }
    StripTrimmed(r);
  }
}
