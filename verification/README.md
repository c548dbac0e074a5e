# LaTeX_merge in Dafny

A model of the text pipeline of `main.py`, a tool that flattens a multi-file
LaTeX document into one file, and of how it decides which files to delete
afterwards. The tool does four things:

1. It strips comments (`remove_comments`). There are three regex passes:
   unescaped `%` to the end of the line, `comment` environments, and
   `\iffalse ... \fi` blocks.
2. It inlines `\input{...}` and `\include{...}` recursively
   (`expand_input_commands`). Each included file has its comments removed
   and its own directives resolved against its own directory.
3. It collapses runs of blank lines (`remove_excessive_blank_lines`).
4. It collects the PDF files the result refers to (`find_used_pdfs`).

`main` guards against a missing input and against input equal to output.
`delete_unused_files` removes every `.tex` file except the output and every
PDF that is not used.

Modules:

- `Options` — the optional value (`Some` or `None`) and the
  success-or-failure result shared by the other modules.
- `Text` — Python's whitespace, `str.strip`, and `os.path.basename` and
  `os.path.splitext` on POSIX paths.
- `Paths` — absolute normalised paths, `os.path.join`, `os.path.abspath`
  and `os.path.dirname`.
- `Patterns` — each of the nine fixed regular expressions, written out as a
  matcher. A matcher answers: "does the pattern match at index `i`, and
  where does that match end?" Lazy and greedy backtracking is resolved by
  hand.
- `Scan` — `re.finditer`, the output buffer that replaces each match, and
  `re.sub`. The finditer contract `IsScan` is stated on its own, and
  `FindAll` is proved to be the only sequence that meets it.
- `Comments` — `remove_comments`.
- `BlankLinesPass` — `remove_excessive_blank_lines`.
- `Includes` — `expand_input_commands`.
- `Graphics` — `find_used_pdfs`.
- `Cleanup` — one run of `main`, its guards, and the deletion choices of
  `delete_unused_files`.

The file system is modelled by three inputs:

- the readable text files, as a map from absolute path to contents;
- the set of existing paths;
- the files the two globs would return, as given sets.

The source removes the comments of an included file right after reading
it. The model expresses this by expanding over `StripFiles(fs)`, which is
every readable file with its comments already removed.

Where the documentation and the code disagree, the model follows the code:

- The docstring of `remove_excessive_blank_lines` says runs of three or more
  blank lines become two. The regex `\n([ \t]*\n){2,}` actually turns a
  newline followed by two or more blank lines into `\n\n`. So two blank
  lines already collapse to one, and three or more also become one
  (`BlankLinesPass.NewlineBlock`).
- `remove_comments` is sometimes described as idempotent. It is not:
  removing one `\iffalse ... \fi` block can join the text around it into a
  new block, which a second application removes
  (`Comments.RemoveCommentsNotIdempotent`).
- Reference names in `find_used_pdfs` are looked up relative to the working
  directory, not the main file's directory. The model takes the working
  directory as a parameter.

## Model

| member | source | states |
|---|---|---|
| Text.Strip | main.py:51 | the result is a slice of the input; only whitespace (Python's `str.isspace` set) is cut from the two ends; the result neither starts nor ends with whitespace |
| Text.StripTrimmed | main.py:109 | a name without whitespace at its ends strips to itself |
| Text.StripUnique | main.py:109 | `strip()` is the one slice that cuts only whitespace from the two ends and leaves no whitespace at either end |
| Text.StripDropsLeading | main.py:109 | cutting whitespace from the front of a name before stripping it gives the same name |
| Text.StripSkippingSpaces | main.py:109 | cutting leading whitespace, while keeping at least one character, does not change the stripped name |
| Text.SplitExtFinds | main.py:57 | `splitext` finds an extension iff the last component holds a `.` with some character other than `.` before it; the extension then starts at the last `.` and the root is everything before it |
| Text.BasenameKeepsExtension | main.py:57 | `splitext(basename(p))` finds the same extension as `splitext(p)` |
| Text.SkipSpaces | main.py:99 | greedy `\s*`: every skipped character is whitespace and the first one not skipped is not |
| Text.SkipBlanks | main.py:31 | greedy `[ \t]*`: every skipped character is a space or tab and the first one not skipped is not |
| Text.LineEnd | main.py:14 | MULTILINE `$`: the first newline at or after `i`, or the end of the text, with no newline before it |
| Paths.SplitSlash | main.py:116 | `s.split('/')` has at least one part, no part holds `/`, and joining the parts with `/` gives `s` back |
| Paths.Normalize | main.py:116 | normalising yields only proper components (none empty, `.` or `..`), never adds components, and appends components that are already proper unchanged |
| Paths.NormalizeCancel | main.py:116 | a proper component followed by `..` is cancelled: the list is what it was before |
| Paths.NormalizeAppend | main.py:116 | normalising two component lists one after the other equals normalising their concatenation |
| Paths.ResolveParent | main.py:115-116 | `../x` names `x` in the parent of the base directory, and at the root `..` stays at the root |
| Paths.ResolveCancel | main.py:115-116 | `x/../y` resolves to the same path as `y` |
| Paths.ResolveAbsolute | main.py:115-116 | an absolute name `/x` ignores the base directory |
| Paths.Dirname | main.py:128 | the directory plus the last component is the path; the root is its own directory |
| Paths.JoinName | main.py:85 | `os.path.join`: an absolute name replaces the directory; otherwise they are joined with one `/` |
| Paths.ResolveComponent | main.py:115-116 | a single proper component is appended to the base directory |
| Paths.DirnameOfComponent | main.py:115-128 | a file included by a plain name resolves its own includes against the same directory |
| Paths.ResolveJoin | main.py:85-87 | resolving `join(d, name)` equals resolving `name` against `d` resolved first |
| Paths.ResolveDot | main.py:82-87 | looking a name up under `.` is looking it up directly |
| Patterns.LineCommentAt | main.py:14 | matches exactly at a `%` not preceded by a backslash; the match runs to the next newline or the end of the text and holds no newline |
| Patterns.FirstTag | main.py:16-19 | the first index at or after `j` where the tag occurs; no occurrence before it; none at all when absent |
| Patterns.BlockAt | main.py:16-19 | a block starts with its opening tag and ends at the end of the FIRST closing tag after it; with no closing tag after the opening tag there is no match |
| Patterns.BlankLines | main.py:31 | the greedy repetition of `[ \t]*\n` covers only blanks and newlines, takes no line exactly when it covers nothing, ends on a newline when non-empty, and cannot take one more line |
| Patterns.BlankLinesCount | main.py:31 | the repetition count is exactly the number of newlines the repetition covers |
| Patterns.BlankRunAt | main.py:31 | a match starts at `i` iff `s[i]` is a newline and the greedy repetition after it takes two or more lines; the match ends where that repetition ends |
| Patterns.BraceGroup | main.py:40-42 | `\{([^}]+)\}` matches iff there is a `{`, then at least one character other than `}`, then a `}`; the match ends at the first `}` and the group is what lies between |
| Patterns.DirectiveArgument | main.py:99 | the brace part of a directive matches exactly where a brace group does and ends with it; its group is non-empty and holds no `}` |
| Patterns.DirectiveAt | main.py:99 | a directive matches at `i` iff there is a backslash, then `input` or `include`, optional whitespace, and a brace part; the match ends with `}` and its group is non-empty and holds no `}` |
| Patterns.DirectiveParts | main.py:99 | a directive is `\input` or `\include`, then whitespace, then the brace part, whose end and group are the match's |
| Patterns.ArgumentStripped | main.py:99-109 | `\s*` inside the braces changes nothing once group 1 is stripped: the stripped group is the stripped content between the braces |
| Patterns.BracketThenBrace | main.py:40-41 | the lazy `\[.*?\]` stops at the first `]` on the line that a brace group follows, and the match is that brace group; when no such `]` exists on the line there is no match |
| Patterns.BracketThenBraceFirst | main.py:40-41 | whenever a `]` followed by a brace group is the first such on the line, the options end there and that brace group is the match |
| Patterns.OptionsThenBrace | main.py:40-41 | at a `{` the match is that brace group; at a `[` it is the option search; at any other character there is no match |
| Patterns.OptionsCommandAt | main.py:40-41 | a match at `i` exists iff the command name occurs there, ignoring case, and options or a brace group follow; the match ends where they end and its group is theirs |
| Patterns.IncludeGraphicsAt | main.py:40 | a match at `i` exists iff `\includegraphics` occurs there, ignoring case, followed by optional options and a brace group; the match ends there and its group is the brace content |
| Patterns.IncludePdfAt | main.py:41 | a match at `i` exists iff `\includepdf` occurs there, ignoring case, followed by optional options and a brace group; the match ends there and its group is the brace content |
| Patterns.PdfXImageAt | main.py:42 | a match at `i` exists iff `\pdfximage` occurs there, ignoring case, directly followed by a brace group; the group is the brace content |
| Patterns.NameRunEnd | main.py:44 | the longest run of `[a-zA-Z0-9_\-]` characters from `a` |
| Patterns.BraceOnLine | main.py:44 | the lazy `.*?\}` stops at the first `}` at or after `j` on the same line; when the line has none there is no match |
| Patterns.CaptionName | main.py:44 | the file name starts at the first position on the line where a run of name characters followed by `.pdf` (ignoring case) and a later `}` can start; the match ends at the first `}` after the name; when no position qualifies there is no match |
| Patterns.CaptionNameFirst | main.py:44 | wherever the first possible name start on the line lies, a match exists and its name starts there |
| Patterns.CaptionPdfAt | main.py:44 | a match at `i` exists iff `\caption{` occurs there, ignoring case, and a file name follows on the line; the match ends and its group is as that name search gives them |
| Patterns.InputRecognised | main.py:99 | `\input{c}` is a directive naming `c` and spanning the whole text |
| Patterns.IncludeRecognised | main.py:99 | `\include {b}` is a directive naming `b`: whitespace may come before the brace |
| Patterns.GraphicsRecognised | main.py:40 | `\includegraphics[width=1cm]{x}` is one match naming `x`: the options are skipped |
| Patterns.IncludePdfRecognised | main.py:41 | `\includepdf{x}` is one match naming `x` |
| Patterns.PdfXImageRecognised | main.py:42 | `\pdfximage{x}` is one match naming `x` |
| Patterns.CaptionRecognised | main.py:44 | `\caption{see plot.pdf}` is one match naming `plot.pdf`: `see` is no name, since `.pdf` does not follow it |
| Scan.FindAll | main.py:49 | `re.finditer`: the matches are in order and do not overlap; each is the pattern's match at its start; every position where the pattern matches lies inside one of them |
| Scan.ScanUnique | main.py:105 | `FindAll` is the only sequence meeting the finditer contract |
| Scan.FindAllSkipTo | main.py:105 | the scan starts with the first position where the pattern matches, then resumes at that match's end |
| Scan.ScanEmptyIff | main.py:105 | no matches exactly when the pattern matches nowhere |
| Scan.SubSingle | main.py:14-19 | `re.sub` with one match changes exactly that match |
| Scan.SpliceOwnText | main.py:102-148 | the buffer, with each match replaced by its own text, is the input: text outside matches is copied verbatim and in order |
| Scan.SpliceLength | main.py:102-148 | output length = input length − matched length + replacement length |
| Scan.SubUnchangedIff | main.py:14-31 | a substitution by text shorter than every match changes nothing exactly when the pattern matches nowhere |
| Scan.DeleteKeepsUncovered | main.py:14-19 | deleting every match leaves exactly the characters no match covers, in order |
| Scan.DeleteIsSubsequence | main.py:14-19 | `re.sub(p, '', s)` is a subsequence of `s` |
| Scan.DeleteKeepsSuffix | main.py:16-19 | when every match ends by `q`, the output of the deletion ends with the text from `q` on |
| Comments.LineCommentCoverage | main.py:14 | a position is deleted by the first pass iff an unescaped `%` at or before it starts a comment with no newline in between |
| Comments.RemoveLineCommentsSpec | main.py:14 | the first pass keeps exactly the characters outside line comments, in order (newlines stay) |
| Comments.EscapedPercentKept | main.py:14 | `\%` survives unless an unescaped `%` earlier on its line started a comment |
| Comments.BarePercentRemovesRestOfLine | main.py:14 | the first pass deletes every character from an unescaped `%` up to the end of its line |
| Comments.DoubleBackslashPercentKept | main.py:14 | the lookbehind sees one character, so the `%` after `\\` survives |
| Comments.LineCommentsUnchangedIff | main.py:14 | the first pass changes the text iff it has an unescaped `%` |
| Comments.CommentEnvUnchangedIff | main.py:16-17 | the second pass changes the text iff some `\begin{comment}` has an `\end{comment}` after it |
| Comments.IfFalseUnchangedIff | main.py:19 | the third pass changes the text iff some `\iffalse` has a `\fi` after it |
| Comments.UnterminatedIfFalseKept | main.py:19 | an `\iffalse` with no `\fi` after it is never closed: the output of the third pass ends with the text from that `\iffalse` on, whatever blocks before it were removed |
| Comments.UnterminatedCommentEnvKept | main.py:16-17 | a `\begin{comment}` with no `\end{comment}` after it is never closed: the output of the second pass ends with the text from it on |
| Comments.FillClosesIfFalse | main.py:19 | `\fi` needs no word boundary: the `\fi` of `\fill` closes a block and leaves `ll` behind |
| Comments.PlainThroughFirstPasses | main.py:14-17 | text with no `%` and no `\begin` passes the first two passes unchanged |
| Comments.SingleIfFalseBlock | main.py:11-20 | text with no `%`, no `\begin` and exactly one `\iffalse` block loses exactly that block |
| Comments.EmptyIfFalseRemoved | main.py:11-20 | `\iffalse\fi` is removed entirely |
| Comments.RemoveCommentsDeletes | main.py:11-20 | `remove_comments` only deletes: its result is a subsequence of its input |
| Comments.RemoveCommentsNotIdempotent | main.py:11-20 | on `\if\iffalse\fifalse\fi` one application leaves `\iffalse\fi` and a second leaves nothing |
| BlankLinesPass.RunShape | main.py:31 | each run is at least three characters long and holds only layout |
| BlankLinesPass.CollapseKeepsVisible | main.py:31 | the text with spaces, tabs and newlines removed is the same before and after |
| BlankLinesPass.CollapseUnchangedIff | main.py:31 | the text changes iff a newline is followed by two or more blank lines |
| BlankLinesPass.NewlineBlock | main.py:31 | between non-layout text, three or more newlines become exactly two; one or two are kept |
| BlankLinesPass.IndentedBlankLines | main.py:31 | lines of only spaces and tabs count as blank: a newline and two such lines become `\n\n` |
| Includes.Target | main.py:109-116 | the file a directive names is an absolute normalised path; a name that is a single proper component lies in the base directory |
| Includes.TargetComponent | main.py:109-116 | a directive naming a proper component `x` refers to `x` in the base directory when `x` has an extension, and to `x.tex` there when it has none |
| Includes.AppendTex | main.py:111-112 | appending `.tex` to a name without extension gives exactly that extension, with the name as the root |
| Includes.TexNameExtension | main.py:109-112 | a name that has an extension is kept as written; one without gets `.tex`; the result always has an extension |
| Includes.TexNameIdempotent | main.py:109-112 | naming a file twice yields the same name, for every name whose last component holds a character other than `.`; without that condition it fails: `dir/` becomes `dir/.tex`, then `dir/.tex.tex` |
| Includes.ExpandFromNone | main.py:105-148 | text without directives is copied unchanged and nothing is cut short |
| Includes.ExpandFromStep | main.py:105-145 | the first directive splits the output into the text before it, what it includes, and the expansion of the rest |
| Includes.ExpandNoDirective | main.py:96-150 | a text without directives is returned unchanged |
| Includes.MissingFileDropped | main.py:134-145 | a directive whose file cannot be read contributes nothing, and expansion goes on after it |
| Includes.IncludeLeaf | main.py:118-132 | a readable file with no directives is included as its text |
| Includes.LeafStripped | main.py:118-132 | an included file with no directive left after comment removal contributes its text with the comments removed |
| Includes.SoleDirective | main.py:96-150 | a text that is a single directive expands to what that directive includes |
| Includes.DirectiveComponent | main.py:105-150 | a text that is a single directive naming a component without extension expands to that component with `.tex` appended, in the base directory |
| Includes.InputExpands | main.py:96-150 | `\input{c}` expands to the file `c.tex` of the current directory |
| Includes.NestedInclude | main.py:118-129 | a file that is a single directive naming `b` includes `b.tex` from its own directory, whose text comes out after two levels of nesting |
| Includes.NestedExample | main.py:118-129 | with `a.tex` holding `\input{b}` and `b.tex` holding `X` in one directory, including `a.tex` yields `X` |
| Includes.ExpandBuffer | main.py:96-150 | the source's loop (a buffer plus the end of the last match) computes the expansion |
| Includes.NothingReadable | main.py:134-148 | with nothing readable, the buffer deletes each directive and nothing else |
| Includes.EmptyFileSystem | main.py:134-148 | with nothing readable, the output is `re.sub(directive, '', s)` and so a subsequence of the input |
| Includes.ExpandFuel | main.py:126-129 | an expansion that was not cut short stays the same with more nesting allowed |
| Includes.IncludeGraphicsIsNotDirective | main.py:99 | `\includegraphics{...}` is not an include directive |
| Graphics.PdfName | main.py:51-67 | a name that is kept ends in `.pdf`, ignoring case |
| Graphics.PdfNameCases | main.py:51-67 | a name is dropped iff it does not end in `.pdf` and its basename has another extension; otherwise it is kept as written or gets `.pdf` |
| Graphics.BareNameGetsPdf | main.py:51-59 | ` plot ` becomes `plot.pdf` |
| Graphics.OtherExtensionDropped | main.py:55-67 | `fig.png` is not a PDF reference |
| Graphics.UpperCasePdfKept | main.py:55 | `fig.PDF` is kept as written |
| Graphics.FirstIn | main.py:84-89 | a path it returns exists |
| Graphics.FirstInOrder | main.py:84-89 | it returns the first existing path in order, and nothing when none exists |
| Graphics.LocateFirstExisting | main.py:73-89 | the lookup returns the first existing candidate (the name as written, then each asset directory in order), and nothing when none exists |
| Graphics.DotDirectoryRedundant | main.py:74-87 | trying `.` repeats the direct lookup, so the result is the same without it |
| Graphics.Collect | main.py:50-89 | every collected path exists |
| Graphics.CollectMembers | main.py:50-89 | a path is collected iff some reference among the matches resolves to it |
| Graphics.UsedPdfs | main.py:34-93 | every used PDF exists |
| Graphics.UsedPdfsMembers | main.py:34-93 | a path is used iff one of the four patterns finds a reference that resolves to it |
| Graphics.SoleGraphic | main.py:34-93 | a text that is a single `\includegraphics` and nothing else uses exactly the PDF its name resolves to, or none |
| Graphics.PlotGraphicUsed | main.py:34-93 | `\includegraphics{plot}`, with `plot.pdf` present in the working directory, uses exactly that file |
| Cleanup.TexToDelete | main.py:167-178 | every `.tex` file found except the output is selected, the output never is, and nothing else is |
| Cleanup.PdfsToDelete | main.py:189-193 | every PDF found that is unused is selected, no used PDF is, and nothing else is |
| Cleanup.Run | main.py:232-285 | a successful run had an existing, readable input that differs from the output, and uses only existing PDFs |
| Cleanup.RunGuards | main.py:236-247 | the run stops iff the input is missing, equals the output, or cannot be read, and it reports the first of these that holds |
| Cleanup.DeletionIsSafe | main.py:162-212 | neither the output nor a used PDF is deleted; with its flag off nothing of a kind is deleted |
| Cleanup.DeletionIsComplete | main.py:162-212 | with its flag on, deletion is exactly all `.tex` files but the output, and all PDFs not used |
| Cleanup.InputDeletedWithTex | main.py:170-178 | `--delete-tex` deletes the input file itself whenever the glob finds it |
| Cleanup.KeptPdfsAreReferenced | main.py:189-193 | every PDF kept from deletion exists and is referenced by the written text |

## Left out

- Reading, writing, globbing, `os.makedirs` and `os.remove` are not modelled. The readable files, the existing paths and the two glob results are inputs. A failed `os.remove` is not modelled: a selected file counts as deleted.
- Printing, `argparse`, the progress and warning messages and `os.path.relpath` are left out, as output only.
- Exit status 1 from the final `except Exception` in `main` is left out; a read failure of the main file becomes `ReadFailed`.
- Text decoding is not modelled. A file that fails to decode as UTF-8, or that cannot be read for any other reason, is absent from the file map, just as a missing file is.
- Includes.Expand: the source recurses until Python's recursion limit. A generic `except` then catches the error. The model bounds nesting with `fuel`: an inclusion beyond it contributes nothing and clears the `complete` flag. `Includes.ExpandFuel` shows that a complete expansion does not depend on the bound.
- Includes.TexNameExtension: it is stated only for names whose last component holds a character other than `.`. Appending `.tex` to `dir/` or to `.` yields a dot-file, which `splitext` treats as having no extension.
- IGNORECASE and `str.lower()` fold ASCII letters only. Non-ASCII characters that Python folds onto ASCII letters are not modelled.
- `os.path.abspath` is modelled on normalised component lists. Symbolic links are not resolved, as in the source. A path that exists in the file system but differs only by a non-normal spelling is not modelled.
- Graphics.LocatePdf and Cleanup.Run: the source tests existence with the relative path as written (main.py:74, 86 and 236), so the file system resolves `..` through real directories; the model resolves `..` lexically before testing. For `\includegraphics{nodir/../plot}` with `plot.pdf` present and no directory `nodir`, the source finds nothing (and `--delete-unused-pdf` would delete `plot.pdf`), while the model finds `plot.pdf`.
- The `if not base_dir` fallback in `main` is left out: `dirname(abspath(...))` is never empty.
- Graphics.UsedPdfs: reference names are resolved against the working directory, as `os.path.exists` does. The model does not claim they resolve against the main file's directory.
- `find_all_pdfs_in_project` and the `.tex` glob of `delete_unused_files` are left out. The glob rules on hidden files and directories are not modelled; their results are the given sets `allPdfs` and `texFiles`.
