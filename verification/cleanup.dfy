/** `main` and `delete_unused_files`: the two guards before anything is read,
    the text pipeline, and the choice of files to delete. Reading, writing,
    globbing and removing files are not modelled: the readable files are a
    map, the existing paths a set, and the files a glob would find are
    given. */
module Cleanup {
  import opened Options
  import opened Paths
  import opened Comments
  import opened BlankLinesPass
  import opened Includes
  import opened Graphics

  /** Why a run stops with exit status 1 before writing anything. */
  datatype Error =
    | InputMissing   // the input path does not exist
    | SameFile       // the input and output are the same absolute path
    | ReadFailed     // the input exists but cannot be read as text

  /** What a run computes: the text it writes, the PDFs that text uses,
      whether every include was followed, and the files it then removes. */
  datatype Outcome = Outcome(text: string, complete: bool, used: set<Path>,
                             texDeleted: set<Path>, pdfsDeleted: set<Path>)

  /** The `.tex` files `--delete-tex` removes: every one found except the
      output file. */
  function TexToDelete(texFiles: set<Path>, output: Path): (r: set<Path>)
    ensures r <= texFiles && output !in r
    ensures forall p :: p in texFiles && p != output ==> p in r
  {
    texFiles - {output}
  }

  /** The PDFs `--delete-unused-pdf` removes: every one found that the
      document does not use. */
  function PdfsToDelete(allPdfs: set<Path>, used: set<Path>): (r: set<Path>)
    ensures r <= allPdfs && r !! used
    ensures forall p :: p in allPdfs && p !in used ==> p in r
  {
    allPdfs - used
  }

  /** The files `delete_unused_files` removes, tex files first; a flag that
      is off removes nothing of its kind. */
  function Deletions(output: Path, used: set<Path>, texFiles: set<Path>, allPdfs: set<Path>,
                     deleteTex: bool, deleteUnusedPdf: bool): (r: (set<Path>, set<Path>))
  {
    (if deleteTex then TexToDelete(texFiles, output) else {},
     if deleteUnusedPdf then PdfsToDelete(allPdfs, used) else {})
  }

  /** The text steps of `main`: comments removed from the main file, inputs
      expanded from the main file's directory (each included file stripped
      of comments as it is read), then blank lines collapsed. */
  function Process(fs: FileSystem, content: string, base: Path, fuel: nat): (r: Expansion)
    requires Normal(base)
  {
    var e := Expand(StripFiles(fs), RemoveComments(content), base, fuel);
    Expansion(CollapseBlankLines(e.text), e.complete)
  }

  /** One run of the tool from working directory `cwd`. `present` is the set
      of existing paths, `fs` the readable text files, `texFiles` the `.tex`
      files under the output's directory and `allPdfs` the PDFs under `cwd`,
      as the globs would find them after the output is written. */
  function Run(fs: FileSystem, present: set<Path>, cwd: Path, input: string, output: string,
               deleteTex: bool, deleteUnusedPdf: bool,
               texFiles: set<Path>, allPdfs: set<Path>, fuel: nat): (r: Result<Outcome, Error>)
    requires Normal(cwd)
    ensures r.Success? ==> Resolve(cwd, input) in present && Resolve(cwd, input) in fs
    ensures r.Success? ==> Resolve(cwd, input) != Resolve(cwd, output)
    ensures r.Success? ==> r.value.used <= present
  {
    var inPath := Resolve(cwd, input);
    var outPath := Resolve(cwd, output);
    if inPath !in present then Failure(InputMissing)
    else if inPath == outPath then Failure(SameFile)
    else if inPath !in fs then Failure(ReadFailed)
    else
      var e := Process(fs, fs[inPath], Dirname(inPath), fuel);
      var used := UsedPdfs(e.text, cwd, present);
      var (tex, pdfs) := Deletions(outPath, used, texFiles, allPdfs, deleteTex, deleteUnusedPdf);
      Success(Outcome(e.text, e.complete, used, tex, pdfs))
  }

  // ---------------------------------------------------------------------
  // Guards

  /** The run stops exactly when the input does not exist, is the output,
      or cannot be read, and it reports the first of these that holds. */
  lemma RunGuards(fs: FileSystem, present: set<Path>, cwd: Path, input: string, output: string,
                  deleteTex: bool, deleteUnusedPdf: bool,
                  texFiles: set<Path>, allPdfs: set<Path>, fuel: nat)
    requires Normal(cwd)
    ensures var r := Run(fs, present, cwd, input, output, deleteTex, deleteUnusedPdf, texFiles, allPdfs, fuel);
            && (r == Failure(InputMissing) <==> Resolve(cwd, input) !in present)
            && (r == Failure(SameFile) <==>
                  Resolve(cwd, input) in present && Resolve(cwd, input) == Resolve(cwd, output))
            && (r.Failure? <==>
                  Resolve(cwd, input) !in present || Resolve(cwd, input) == Resolve(cwd, output)
                  || Resolve(cwd, input) !in fs)
  {
  }

  // ---------------------------------------------------------------------
  // Deletion

  /** Neither the output file nor a used PDF is ever removed, and with its
      flag off nothing of a kind is removed. */
  lemma DeletionIsSafe(fs: FileSystem, present: set<Path>, cwd: Path, input: string, output: string,
                       deleteTex: bool, deleteUnusedPdf: bool,
                       texFiles: set<Path>, allPdfs: set<Path>, fuel: nat)
    requires Normal(cwd)
    ensures var r := Run(fs, present, cwd, input, output, deleteTex, deleteUnusedPdf, texFiles, allPdfs, fuel);
            r.Success? ==>
              && Resolve(cwd, output) !in r.value.texDeleted
              && r.value.pdfsDeleted !! r.value.used
              && (!deleteTex ==> r.value.texDeleted == {})
              && (!deleteUnusedPdf ==> r.value.pdfsDeleted == {})
  {
  }

  /** With its flag on, every file of a kind that is not protected is
      removed: all `.tex` files but the output, all PDFs the text does not
      use. */
  lemma DeletionIsComplete(fs: FileSystem, present: set<Path>, cwd: Path, input: string, output: string,
                           deleteTex: bool, deleteUnusedPdf: bool,
                           texFiles: set<Path>, allPdfs: set<Path>, fuel: nat)
    requires Normal(cwd)
    ensures var r := Run(fs, present, cwd, input, output, deleteTex, deleteUnusedPdf, texFiles, allPdfs, fuel);
            r.Success? ==>
              && (deleteTex ==> r.value.texDeleted == texFiles - {Resolve(cwd, output)})
              && (deleteUnusedPdf ==> r.value.pdfsDeleted == allPdfs - r.value.used)
  {
    var r := Run(fs, present, cwd, input, output, deleteTex, deleteUnusedPdf, texFiles, allPdfs, fuel);
    if r.Success? {
      var out := Resolve(cwd, output);
      if deleteTex {
        TexSelection(texFiles, out, r.value.texDeleted);
      }
      if deleteUnusedPdf {
        PdfSelection(allPdfs, r.value.used, r.value.pdfsDeleted);
      }
    }
  }

  /** A set chosen by `TexToDelete`'s contract is the set difference. */
  lemma TexSelection(texFiles: set<Path>, output: Path, r: set<Path>)
    requires r <= texFiles && output !in r
    requires forall p :: p in texFiles && p != output ==> p in r
    ensures r == texFiles - {output}
  {
  }

  /** A set chosen by `PdfsToDelete`'s contract is the set difference. */
  lemma PdfSelection(allPdfs: set<Path>, used: set<Path>, r: set<Path>)
    requires r <= allPdfs && r !! used
    requires forall p :: p in allPdfs && p !in used ==> p in r
    ensures r == allPdfs - used
  {
  }

  /** `--delete-tex` removes the input file itself whenever the glob finds
      it, since the guards make it differ from the output. */
  lemma InputDeletedWithTex(fs: FileSystem, present: set<Path>, cwd: Path, input: string, output: string,
                            texFiles: set<Path>, allPdfs: set<Path>, deleteUnusedPdf: bool, fuel: nat)
    requires Normal(cwd)
    requires Resolve(cwd, input) in texFiles
    ensures var r := Run(fs, present, cwd, input, output, true, deleteUnusedPdf, texFiles, allPdfs, fuel);
            r.Success? ==> Resolve(cwd, input) in r.value.texDeleted
  {
  }

  /** Every PDF a run keeps from deletion is one its text references. */
  lemma KeptPdfsAreReferenced(fs: FileSystem, present: set<Path>, cwd: Path, input: string, output: string,
                              deleteTex: bool, texFiles: set<Path>, allPdfs: set<Path>, fuel: nat, p: Path)
    requires Normal(cwd)
    requires p in allPdfs
    ensures var r := Run(fs, present, cwd, input, output, deleteTex, true, texFiles, allPdfs, fuel);
            r.Success? && p !in r.value.pdfsDeleted ==>
              p in present && exists kind :: ReferencedBy(kind, r.value.text, cwd, present, p)
  {
    var r := Run(fs, present, cwd, input, output, deleteTex, true, texFiles, allPdfs, fuel);
    if r.Success? && p !in r.value.pdfsDeleted {
      assert p in r.value.used;
      UsedPdfsMembers(r.value.text, cwd, present, p);
    }
  }
}
