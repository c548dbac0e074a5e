/** `find_used_pdfs`: the PDF files the expanded document refers to, through
    `\includegraphics`, `\includepdf`, `\pdfximage` and PDF names inside a
    `\caption`. Each name is normalised and looked up relative to the working
    directory: as written first, then under a fixed list of asset
    directories. The paths that exist are given as a set of absolute paths. */
module Graphics {
  import opened Options
  import opened Text
  import opened Paths
  import opened Patterns
  import opened Scan

  /** The name a reference gives, if it may name a PDF: stripped; with
      `.pdf` appended when its last component has no extension at all; and
      dropped when it then still does not end in `.pdf`, ignoring case. */
  function PdfName(group: string): (r: Option<string>)
    ensures r.Some? ==> EndsWithPdf(r.value)
  {
    var name := Strip(group);
    var name' := if !EndsWithPdf(name) && !HasExtension(Basename(name)) then name + ".pdf" else name;
    if EndsWithPdf(name') then Some(name') else None
  }

  /** The directories tried, in order, when a name does not exist as
      written. */
  const AssetDirs: seq<string> := [".", "figures", "images", "img", "graphics"]

  /** `name` under each of `dirs`, in order. */
  function DirPaths(name: string, cwd: Path, dirs: seq<string>): (r: seq<Path>)
    requires Normal(cwd)
  {
    seq(|dirs|, k requires 0 <= k < |dirs| => Resolve(cwd, JoinName(dirs[k], name)))
  }

  /** The paths tried for `name`, in the order the source tries them: the
      name itself, then the name under each asset directory. */
  function Candidates(name: string, cwd: Path): seq<Path>
    requires Normal(cwd)
  {
    [Resolve(cwd, name)] + DirPaths(name, cwd, AssetDirs)
  }

  /** The first of `paths` that exists. */
  function FirstIn(paths: seq<Path>, present: set<Path>): (r: Option<Path>)
    ensures r.Some? ==> r.value in present
  {
    if |paths| == 0 then None
    else if paths[0] in present then Some(paths[0])
    else FirstIn(paths[1..], present)
  }

  /** Where the source finds `name`: as written, relative to the working
      directory, or else under the first asset directory that holds it. */
  function LocatePdf(name: string, cwd: Path, present: set<Path>): (r: Option<Path>)
    requires Normal(cwd)
  {
    var direct := Resolve(cwd, name);
    if direct in present then Some(direct) else FirstIn(DirPaths(name, cwd, AssetDirs), present)
  }

  /** The file one reference resolves to, if any. */
  function ResolveReference(group: string, cwd: Path, present: set<Path>): Option<Path>
    requires Normal(cwd)
  {
    match PdfName(group)
    case None => None
    case Some(name) => LocatePdf(name, cwd, present)
  }

  /** The paths among `refs`. */
  function Found(refs: seq<Option<Path>>): (r: set<Path>)
  {
    if |refs| == 0 then {}
    else (if refs[0].Some? then {refs[0].value} else {}) + Found(refs[1..])
  }

  /** The files the references among `ms` resolve to. */
  function Collect(ms: seq<Match>, cwd: Path, present: set<Path>): (r: set<Path>)
    requires Normal(cwd)
    ensures r <= present
  {
    var refs := Resolved(ms, cwd, present);
    FoundWithin(refs, present);
    Found(refs)
  }

  /** The four patterns the source searches, in its order. */
  datatype Reference = IncludeGraphics | IncludePdf | PdfXImage | CaptionPdf

  /** The matcher of one pattern. */
  function MatcherOf(kind: Reference): (r: Matcher)
    ensures Sound(r)
  {
    PatternsSound();
    match kind
    case IncludeGraphics => IncludeGraphicsAt
    case IncludePdf => IncludePdfAt
    case PdfXImage => PdfXImageAt
    case CaptionPdf => CaptionPdfAt
  }

  /** `re.finditer(pattern, content)` for one pattern. */
  function Occurrences(kind: Reference, s: string): seq<Match> {
    FindAll(MatcherOf(kind), s, 0)
  }

  /** `find_used_pdfs(content)`, run from directory `cwd`. */
  function UsedPdfs(s: string, cwd: Path, present: set<Path>): (r: set<Path>)
    requires Normal(cwd)
    ensures r <= present
  {
    Collect(Occurrences(IncludeGraphics, s), cwd, present)
    + Collect(Occurrences(IncludePdf, s), cwd, present)
    + Collect(Occurrences(PdfXImage, s), cwd, present)
    + Collect(Occurrences(CaptionPdf, s), cwd, present)
  }

  // ---------------------------------------------------------------------
  // Names

  /** A name is dropped exactly when it does not end in `.pdf` but its last
      component has some other extension; otherwise it is kept as written,
      or given `.pdf` when it has no extension. */
  lemma PdfNameCases(group: string)
    ensures PdfName(group).None? <==> !EndsWithPdf(Strip(group)) && HasExtension(Basename(Strip(group)))
    ensures EndsWithPdf(Strip(group)) ==> PdfName(group) == Some(Strip(group))
    ensures !EndsWithPdf(Strip(group)) && !HasExtension(Basename(Strip(group)))
            ==> PdfName(group) == Some(Strip(group) + ".pdf")
  {
    var name := Strip(group);
    var n := name + ".pdf";
    assert n[|n| - 4..] == ".pdf";
    assert LitAtIgnoreCase(n, |n| - 4, ".pdf");
  }

  // ---------------------------------------------------------------------
  // Lookup order

  /** `j` is the index of the first existing path among `paths`. */
  predicate FirstExisting(paths: seq<Path>, present: set<Path>, j: nat) {
    j < |paths| && paths[j] in present && forall i :: 0 <= i < j ==> paths[i] !in present
  }

  /** `FirstIn` finds the first existing path, and nothing when none
      exists. */
  lemma {:induction false} FirstInOrder(paths: seq<Path>, present: set<Path>)
    ensures FirstIn(paths, present).None? <==> forall j :: 0 <= j < |paths| ==> paths[j] !in present
    ensures FirstIn(paths, present).Some? ==>
            exists j: nat :: FirstExisting(paths, present, j) && FirstIn(paths, present).value == paths[j]
    decreases |paths|
  {
    if |paths| > 0 {
      FirstInOrder(paths[1..], present);
      if paths[0] in present {
        assert FirstExisting(paths, present, 0);
      } else if FirstIn(paths[1..], present).Some? {
        var j: nat :| FirstExisting(paths[1..], present, j) && FirstIn(paths[1..], present).value == paths[1..][j];
        assert FirstExisting(paths, present, j + 1);
      }
    }
  }

  /** The lookup returns the first existing candidate, in the order the
      source tries them, and nothing when none exists. */
  lemma LocateFirstExisting(name: string, cwd: Path, present: set<Path>)
    requires Normal(cwd)
    ensures LocatePdf(name, cwd, present).None? <==>
            forall j :: 0 <= j < |Candidates(name, cwd)| ==> Candidates(name, cwd)[j] !in present
    ensures LocatePdf(name, cwd, present).Some? ==>
            exists j: nat :: FirstExisting(Candidates(name, cwd), present, j)
                             && LocatePdf(name, cwd, present).value == Candidates(name, cwd)[j]
  {
    var c := Candidates(name, cwd);
    var d := DirPaths(name, cwd, AssetDirs);
    assert c[0] == Resolve(cwd, name) && c[1..] == d;
    if c[0] !in present {
      FirstInOrder(c, present);
      assert FirstIn(c, present) == FirstIn(d, present);
    } else {
      assert FirstExisting(c, present, 0);
    }
  }

  /** Trying `.` repeats the direct lookup, so the lookup is the same
      without it. */
  lemma DotDirectoryRedundant(name: string, cwd: Path, present: set<Path>)
    requires Normal(cwd)
    ensures LocatePdf(name, cwd, present)
            == if Resolve(cwd, name) in present then Some(Resolve(cwd, name))
               else FirstIn(DirPaths(name, cwd, AssetDirs[1..]), present)
  {
    var d := DirPaths(name, cwd, AssetDirs);
    ResolveDot(cwd, name);
    assert d[0] == Resolve(cwd, name);
    assert d[1..] == DirPaths(name, cwd, AssetDirs[1..]);
  }

  // ---------------------------------------------------------------------
  // Collecting

  /** A path is found exactly when some entry holds it. */
  lemma {:induction false} FoundMembers(refs: seq<Option<Path>>, p: Path)
    ensures p in Found(refs) <==> exists k :: 0 <= k < |refs| && refs[k] == Some(p)
    decreases |refs|
  {
    if |refs| > 0 {
      FoundMembers(refs[1..], p);
      if p in Found(refs[1..]) {
        var k :| 0 <= k < |refs[1..]| && refs[1..][k] == Some(p);
        assert refs[k + 1] == Some(p);
      }
      if exists k :: 0 <= k < |refs| && refs[k] == Some(p) {
        var k :| 0 <= k < |refs| && refs[k] == Some(p);
        if k > 0 {
          assert refs[1..][k - 1] == Some(p);
        }
      }
    }
  }

  /** Entries that all lie in `present` give paths in `present`. */
  lemma {:induction false} FoundWithin(refs: seq<Option<Path>>, present: set<Path>)
    requires forall k :: 0 <= k < |refs| && refs[k].Some? ==> refs[k].value in present
    ensures Found(refs) <= present
    decreases |refs|
  {
    if |refs| > 0 {
      FoundWithin(refs[1..], present);
    }
  }

  /** The references among `ms`, each resolved. */
  function Resolved(ms: seq<Match>, cwd: Path, present: set<Path>): (r: seq<Option<Path>>)
    requires Normal(cwd)
  {
    seq(|ms|, k requires 0 <= k < |ms| => ResolveReference(ms[k].group, cwd, present))
  }

  /** A path is collected exactly when some reference resolves to it. */
  lemma CollectMembers(ms: seq<Match>, cwd: Path, present: set<Path>, p: Path)
    requires Normal(cwd)
    ensures p in Collect(ms, cwd, present) ==>
            exists k :: 0 <= k < |ms| && ResolveReference(ms[k].group, cwd, present) == Some(p)
    ensures forall k :: (0 <= k < |ms| && ResolveReference(ms[k].group, cwd, present) == Some(p))
                        ==> p in Collect(ms, cwd, present)
  {
    var refs := Resolved(ms, cwd, present);
    assert Collect(ms, cwd, present) == Found(refs);
    FoundMembers(refs, p);
    if p in Collect(ms, cwd, present) {
      var k :| 0 <= k < |refs| && refs[k] == Some(p);
      assert ResolveReference(ms[k].group, cwd, present) == Some(p);
    }
    forall k | 0 <= k < |ms| && ResolveReference(ms[k].group, cwd, present) == Some(p)
      ensures p in Collect(ms, cwd, present)
    {
      assert refs[k] == Some(p);
    }
  }

  /** Some occurrence of pattern `kind` in `s` resolves to `p`. */
  predicate ReferencedBy(kind: Reference, s: string, cwd: Path, present: set<Path>, p: Path)
    requires Normal(cwd)
  {
    var ms := Occurrences(kind, s);
    exists k :: 0 <= k < |ms| && ResolveReference(ms[k].group, cwd, present) == Some(p)
  }

  /** A path is used exactly when one of the four patterns finds a
      reference that resolves to it. */
  lemma UsedPdfsMembers(s: string, cwd: Path, present: set<Path>, p: Path)
    requires Normal(cwd)
    ensures p in UsedPdfs(s, cwd, present) <==> exists kind :: ReferencedBy(kind, s, cwd, present, p)
  {
    CollectMembers(Occurrences(IncludeGraphics, s), cwd, present, p);
    CollectMembers(Occurrences(IncludePdf, s), cwd, present, p);
    CollectMembers(Occurrences(PdfXImage, s), cwd, present, p);
    CollectMembers(Occurrences(CaptionPdf, s), cwd, present, p);
    if exists kind :: ReferencedBy(kind, s, cwd, present, p) {
      var kind :| ReferencedBy(kind, s, cwd, present, p);
      assert kind.IncludeGraphics? || kind.IncludePdf? || kind.PdfXImage? || kind.CaptionPdf?;
    }
    if p in UsedPdfs(s, cwd, present) {
      if p in Collect(Occurrences(IncludeGraphics, s), cwd, present) {
        assert ReferencedBy(IncludeGraphics, s, cwd, present, p);
      } else if p in Collect(Occurrences(IncludePdf, s), cwd, present) {
        assert ReferencedBy(IncludePdf, s, cwd, present, p);
      } else if p in Collect(Occurrences(PdfXImage, s), cwd, present) {
        assert ReferencedBy(PdfXImage, s, cwd, present, p);
      } else {
        assert ReferencedBy(CaptionPdf, s, cwd, present, p);
      }
    }
  }

  /** A bare name is given `.pdf`. */
  lemma BareNameGetsPdf()
    ensures PdfName(" plot ") == Some("plot.pdf")
  {
    var g, n := " plot ", "plot";
    StripPlot();
    NoExtension(n);
    BareName(g, n);
    PlotPdf();
  }

  /** The name `BareNameGetsPdf` expects. */
  lemma PlotPdf()
    ensures "plot" + ".pdf" == "plot.pdf"
  {
  }

  /** A stripped name without any extension is given `.pdf`. */
  lemma BareName(group: string, n: string)
    requires Strip(group) == n && !EndsWithPdf(n) && !HasExtension(Basename(n))
    ensures PdfName(group) == Some(n + ".pdf")
  {
    PdfNameCases(group);
  }

  /** The spaces around ` plot ` are stripped. */
  lemma StripPlot()
    ensures Strip(" plot ") == "plot"
  {
    var g := " plot ";
    assert SkipSpaces(g, 1) == 1;
    assert SkipSpaces(g, 0) == 1;
    assert TrimEnd(g, 1, 5) == 5;
    assert TrimEnd(g, 1, 6) == 5;
    assert g[1..5] == "plot";
  }

  /** `plot` has no extension and does not end in `.pdf`. */
  lemma NoExtension(n: string)
    requires n == "plot"
    ensures !EndsWithPdf(n) && !HasExtension(Basename(n))
  {
    assert Lower(n[0]) != Lower(".pdf"[0]);
    LastIndexUnique(n, '/', -1);
    LastIndexUnique(n, '.', -1);
    assert Basename(n) == n[0..] == n;
    assert SplitExt(n) == (n, []);
  }

  /** Another extension drops the name. */
  lemma OtherExtensionDropped()
    ensures PdfName("fig.png") == None
  {
    var a := "fig.png";
    assert SkipSpaces(a, 0) == 0;
    assert TrimEnd(a, 0, 7) == 7;
    assert Strip(a) == a[0..7] == a;
    PngExtension(a);
    PdfNameCases(a);
  }

  /** `fig.png` has an extension other than `.pdf`. */
  lemma PngExtension(a: string)
    requires a == "fig.png"
    ensures !EndsWithPdf(a) && HasExtension(Basename(a))
  {
    assert Lower(a[5]) != Lower(".pdf"[2]);
    LastIndexUnique(a, '/', -1);
    LastIndexUnique(a, '.', 3);
    assert Basename(a) == a[0..] == a;
    assert a[0] != '.';
    assert SplitExt(a).1 == a[3..];
  }

  /** The `.pdf` test ignores case. */
  lemma UpperCasePdfKept()
    ensures PdfName("fig.PDF") == Some("fig.PDF")
  {
    var b := "fig.PDF";
    assert SkipSpaces(b, 0) == 0;
    assert TrimEnd(b, 0, 7) == 7;
    assert Strip(b) == b[0..7] == b;
    assert LitAtIgnoreCase(b, 3, ".pdf");
    PdfNameCases(b);
  }

  // ---------------------------------------------------------------------
  // A text holding a single graphics reference

  /** The set holding the path of a reference, or nothing when it has none. */
  function Known(r: Option<Path>): set<Path> {
    if r.Some? then {r.value} else {}
  }

  /** A text that is a single graphics reference, and nothing else, uses
      exactly the PDF that reference resolves to. */
  lemma SoleGraphic(s: string, m: Match, cwd: Path, present: set<Path>)
    requires Normal(cwd) && IncludeGraphicsAt(s, 0) == Some(m) && m.end == |s|
    requires forall p :: 0 <= p < |s| ==> IncludePdfAt(s, p).None? && PdfXImageAt(s, p).None? && CaptionPdfAt(s, p).None?
    ensures UsedPdfs(s, cwd, present) == Known(ResolveReference(m.group, cwd, present))
  {
    SoleOccurrences(s, m);
    CollectOne(m, cwd, present);
    CollectNone(cwd, present);
  }

  /** The four scans of such a text: the one reference, and nothing else. */
  lemma SoleOccurrences(s: string, m: Match)
    requires IncludeGraphicsAt(s, 0) == Some(m) && m.end == |s|
    requires forall p :: 0 <= p < |s| ==> IncludePdfAt(s, p).None? && PdfXImageAt(s, p).None? && CaptionPdfAt(s, p).None?
    ensures Occurrences(IncludeGraphics, s) == [m]
    ensures Occurrences(IncludePdf, s) == [] && Occurrences(PdfXImage, s) == [] && Occurrences(CaptionPdf, s) == []
  {
    OneOccurrence(s, m);
    NoIncludePdf(s);
    NoPdfXImage(s);
    NoCaptionPdf(s);
  }

  /** A match spanning the whole text is the only one the scan finds. */
  lemma OneOccurrence(s: string, m: Match)
    requires IncludeGraphicsAt(s, 0) == Some(m) && m.end == |s|
    ensures Occurrences(IncludeGraphics, s) == [m]
  {
    PatternsSound();
    FindAllMatch(IncludeGraphicsAt, s, 0, m);
    ScanEmptyIff(IncludeGraphicsAt, s, |s|);
  }

  /** Where `\includepdf` matches nowhere, its scan is empty. */
  lemma NoIncludePdf(s: string)
    requires forall p :: 0 <= p < |s| ==> IncludePdfAt(s, p).None?
    ensures Occurrences(IncludePdf, s) == []
  {
    PatternsSound();
    ScanEmptyIff(IncludePdfAt, s, 0);
  }

  /** Where `\pdfximage` matches nowhere, its scan is empty. */
  lemma NoPdfXImage(s: string)
    requires forall p :: 0 <= p < |s| ==> PdfXImageAt(s, p).None?
    ensures Occurrences(PdfXImage, s) == []
  {
    PatternsSound();
    ScanEmptyIff(PdfXImageAt, s, 0);
  }

  /** Where the caption pattern matches nowhere, its scan is empty. */
  lemma NoCaptionPdf(s: string)
    requires forall p :: 0 <= p < |s| ==> CaptionPdfAt(s, p).None?
    ensures Occurrences(CaptionPdf, s) == []
  {
    PatternsSound();
    ScanEmptyIff(CaptionPdfAt, s, 0);
  }

  /** One match contributes the path its name resolves to, if any. */
  lemma CollectOne(m: Match, cwd: Path, present: set<Path>)
    requires Normal(cwd)
    ensures Collect([m], cwd, present) == Known(ResolveReference(m.group, cwd, present))
  {
    var r := Resolved([m], cwd, present);
    assert |r| == 1 && r[0] == ResolveReference(m.group, cwd, present);
    FoundSingle(r);
  }

  /** The paths found in a single lookup. */
  lemma FoundSingle(refs: seq<Option<Path>>)
    requires |refs| == 1
    ensures Found(refs) == Known(refs[0])
  {
    assert Found(refs[1..]) == {};
  }

  /** No match contributes nothing. */
  lemma CollectNone(cwd: Path, present: set<Path>)
    requires Normal(cwd)
    ensures Collect([], cwd, present) == {}
  {
    assert Resolved([], cwd, present) == [];
  }

  // ---------------------------------------------------------------------
  // `\includegraphics{plot}`

  const PlotGraphic := "\\includegraphics{plot}"

  /** A command found ignoring case still starts with its backslash. */
  lemma BackslashFirst(s: string, p: nat, cmd: string)
    requires |cmd| > 0 && cmd[0] == '\\' && LitAtIgnoreCase(s, p, cmd)
    ensures s[p] == '\\'
  {
    assert Lower(s[p + 0]) == Lower(cmd[0]);
  }

  /** The characters of `PlotGraphic` that the matchers look at. */
  lemma PlotGraphicShape(s: string)
    requires s == PlotGraphic
    ensures |s| == 22 && forall p :: 0 < p < |s| ==> s[p] != '\\'
    ensures s[1] == 'i' && s[8] == 'g'
    ensures LitAtIgnoreCase(s, 0, "\\includegraphics") && s[16] == '{'
    ensures s[17..21] == "plot"
  {
    var t := "includegraphics{plot}";
    assert s == "\\" + t;
    assert '\\' !in t;
    forall p | 0 < p < |s|
      ensures s[p] != '\\'
    {
      assert s[p] == t[p - 1];
    }
    assert s[17..21] == [s[17], s[18], s[19], s[20]];
  }

  /** `PlotGraphic` is one `\includegraphics` match naming `plot`. */
  lemma PlotGraphicMatch(s: string)
    requires s == PlotGraphic
    ensures IncludeGraphicsAt(s, 0) == Some(Match(0, 22, "plot")) && |s| == 22
  {
    PlotGraphicShape(s);
    IndexFromUnique(s, 17, '}', Some(21));
    assert BraceGroup(s, 16) == Some((22, s[17..21]));
  }

  /** None of the other three patterns matches anywhere in `PlotGraphic`. */
  lemma PlotGraphicOthers(s: string)
    requires s == PlotGraphic
    ensures forall p :: 0 <= p < |s| ==> IncludePdfAt(s, p).None? && PdfXImageAt(s, p).None? && CaptionPdfAt(s, p).None?
  {
    PlotGraphicShape(s);
    forall p | 0 <= p < |s|
      ensures IncludePdfAt(s, p).None? && PdfXImageAt(s, p).None? && CaptionPdfAt(s, p).None?
    {
      if p == 0 {
        assert Lower(s[8]) != Lower("\\includepdf"[8]);
        assert Lower(s[1]) != Lower("\\pdfximage"[1]);
        assert Lower(s[1]) != Lower("\\caption{"[1]);
      } else {
        if LitAtIgnoreCase(s, p, "\\includepdf") { BackslashFirst(s, p, "\\includepdf"); }
        if LitAtIgnoreCase(s, p, "\\pdfximage") { BackslashFirst(s, p, "\\pdfximage"); }
        if LitAtIgnoreCase(s, p, "\\caption{") { BackslashFirst(s, p, "\\caption{"); }
      }
    }
  }

  /** `plot` has no whitespace to strip. */
  lemma StripBare(n: string)
    requires n == "plot"
    ensures Strip(n) == n
  {
    assert SkipSpaces(n, 0) == 0;
    assert TrimEnd(n, 0, 4) == 4;
    assert n[0..4] == n;
  }

  /** `plot.pdf` is a proper path component. */
  lemma PlotPdfSegment(x: string)
    requires x == "plot.pdf"
    ensures ProperSegment(x)
  {
  }

  /** The name `plot` is looked up as `plot.pdf` in the working directory. */
  lemma PlotResolves(cwd: Path, present: set<Path>, n: string, x: string)
    requires Normal(cwd) && n == "plot" && x == "plot.pdf" && Path(cwd.segs + [x]) in present
    ensures ResolveReference(n, cwd, present) == Some(Path(cwd.segs + [x]))
  {
    StripBare(n);
    NoExtension(n);
    BareName(n, n);
    PlotPdf();
    PlotPdfSegment(x);
    ResolveComponent(cwd, x);
  }

  /** `\includegraphics{plot}`, with `plot.pdf` present in the working
      directory, uses exactly that file. */
  lemma PlotGraphicUsed(cwd: Path, present: set<Path>)
    requires Normal(cwd) && Path(cwd.segs + ["plot.pdf"]) in present
    ensures UsedPdfs(PlotGraphic, cwd, present) == {Path(cwd.segs + ["plot.pdf"])}
  {
    var s := PlotGraphic;
    PlotGraphicMatch(s);
    PlotGraphicOthers(s);
    PlotResolves(cwd, present, "plot", "plot.pdf");
    SoleGraphic(s, Match(0, 22, "plot"), cwd, present);
  }
}
