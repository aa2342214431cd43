/** The whole run of `main`: the flag check, default values, loading the ignore patterns,
    walking every root into one document, and routing the document. The file system, the
    gitignore matcher, the prompt and the clipboard are parameters. */
module Pipeline {
  import opened Wrappers
  import opened Text
  import opened Paths
  import opened Sequences
  import opened Patterns
  import opened Walk
  import opened Render
  import opened Config

  /** The snapshot walked for `root`. */
  type Trees = string -> Node

  /** The walk of one named root: `processDirectory` matches paths below the base name of
      the root as it was named on the command line. */
  function WalkDir(dir: string, matches: string -> bool, tree: Trees): Walked {
    WalkRoot(Base(dir), matches, tree(dir))
  }

  /** `processDirectory` for each root in turn: the entries of all walks, concatenated. A walk
      that stops at an error keeps what it reported before, and the next root is walked. */
  function WalkAll(dirs: seq<string>, matches: string -> bool, tree: Trees): (es: seq<Entry>)
    ensures forall i :: 0 <= i < |es| ==> !matches(es[i].path)
  {
    if dirs == [] then []
    else WalkDir(dirs[0], matches, tree).entries + WalkAll(dirs[1..], matches, tree)
  }

  /** The walks of consecutive root lists follow each other. */
  lemma {:induction false} WalkAllConcat(a: seq<string>, b: seq<string>, matches: string -> bool, tree: Trees)
    ensures WalkAll(a + b, matches, tree) == WalkAll(a, matches, tree) + WalkAll(b, matches, tree)
    decreases |a|
  {
    if a == [] {
      assert a + b == b;
    } else {
      assert (a + b)[0] == a[0] && (a + b)[1..] == a[1..] + b;
      WalkAllConcat(a[1..], b, matches, tree);
      Associative(WalkDir(a[0], matches, tree).entries, WalkAll(a[1..], matches, tree), WalkAll(b, matches, tree));
    }
  }

  /** What `processDirectory` echoes to standard output: each root's paths, then an empty line. */
  function TreeEcho(dirs: seq<string>, matches: string -> bool, tree: Trees): (t: string)
    ensures dirs == [] <==> t == []
    ensures t != [] ==> t[|t| - 1] == '\n'
  {
    if dirs == [] then []
    else
      var paths := Manifest(WalkDir(dirs[0], matches, tree).entries);
      ManifestText(paths) + "\n" + TreeEcho(dirs[1..], matches, tree)
  }

  /** `generateOutput`: the manifest of every walk, an empty line, then a block for each
      walked file that can be read, looked up by the path it is listed under. */
  function GenerateOutput(dirs: seq<string>, matches: string -> bool, tree: Trees,
                          read: string -> Option<string>): (d: string)
    ensures |d| > |DocsOpen| + |DocsClose|
    ensures d[..|DocsOpen|] == DocsOpen && d[|d| - |DocsClose|..] == DocsClose
    ensures dirs == [] ==> d == DocsOpen + "\n" + DocsClose
  {
    var es := WalkAll(dirs, matches, tree);
    LayoutFraming(Manifest(es), ContentBlocks(FilePaths(es), read));
    Layout(Manifest(es), ContentBlocks(FilePaths(es), read))
  }

  /** With a single root, the echo on standard output is exactly the manifest section of
      the document, including the empty line that ends it. */
  lemma EchoOfOneRoot(dir: string, matches: string -> bool, tree: Trees, read: string -> Option<string>)
    ensures var es := WalkAll([dir], matches, tree);
      && TreeEcho([dir], matches, tree) == ManifestText(Manifest(es)) + "\n"
      && GenerateOutput([dir], matches, tree, read)
         == DocsOpen + TreeEcho([dir], matches, tree) + BlocksText(ContentBlocks(FilePaths(es), read)) + DocsClose
  {
    var es := WalkDir(dir, matches, tree).entries;
    assert [dir][1..] == [];
    assert WalkAll([dir], matches, tree) == es + [];
    assert es + [] == es;
    var m := ManifestText(Manifest(es));
    assert TreeEcho([dir], matches, tree) == m + "\n" + [];
    assert m + "\n" + [] == m + "\n";
    Associative(DocsOpen, m, "\n");
  }

  /** The file blocks of a document are the readable files among the entries, each under a
      path the entries list as a file. */
  lemma BlocksAreListedFiles(es: seq<Entry>, read: string -> Option<string>)
    ensures forall i :: 0 <= i < |ContentBlocks(FilePaths(es), read)| ==>
      var r := ContentBlocks(FilePaths(es), read)[i];
      read(r.path) == Some(r.content) && Entry(r.path, false) in es
  {
    var rs := ContentBlocks(FilePaths(es), read);
    var idx := FilePathsPicked(es);
    var fp := FilePaths(es);
    forall i | 0 <= i < |rs|
      ensures Entry(rs[i].path, false) in es
    {
      var k :| 0 <= k < |fp| && fp[k] == rs[i].path;
      var j := idx[k];
      assert es[j].path == Manifest(es)[j] == fp[k];
      assert es[j] == Entry(rs[i].path, false);
    }
  }

  /** The blocks of listed files whose paths are lines of their own, and whose contents
      hold no early `BlockTail`, can be told apart. */
  lemma BlocksDelimited(es: seq<Entry>, read: string -> Option<string>)
    requires ManifestLines(Manifest(es))
    requires forall f :: read(f).Some? ==> NoEarlyOccurrence(read(f).value, BlockTail)
    ensures AllDelimited(ContentBlocks(FilePaths(es), read))
  {
    var rs := ContentBlocks(FilePaths(es), read);
    var ps := Manifest(es);
    BlocksAreListedFiles(es, read);
    forall i | 0 <= i < |rs| ensures Delimited(rs[i]) {
      assert Entry(rs[i].path, false) in es;
      var j :| 0 <= j < |es| && es[j] == Entry(rs[i].path, false);
      assert ps[j] == rs[i].path;
      PathDelimited(rs[i].path);
    }
  }

  /** A document reads back as its manifest and its file blocks when no name in any tree,
      and no root's base name, holds a newline, and no file's contents hold an early
      `BlockTail`. */
  lemma GenerateOutputReadsBack(dirs: seq<string>, matches: string -> bool, tree: Trees,
                                read: string -> Option<string>)
    requires forall i :: 0 <= i < |dirs| ==>
      WellFormed(tree(dirs[i])) && FreeOf(tree(dirs[i]), '\n') && '\n' !in Base(dirs[i])
    requires forall f :: read(f).Some? ==> NoEarlyOccurrence(read(f).value, BlockTail)
    ensures var es := WalkAll(dirs, matches, tree);
      ParseDocument(GenerateOutput(dirs, matches, tree, read))
        == Some((Manifest(es), ContentBlocks(FilePaths(es), read)))
  {
    var es := WalkAll(dirs, matches, tree);
    WalkAllPrintable(dirs, matches, tree);
    BlocksDelimited(es, read);
    DocumentRoundTrip(Manifest(es), ContentBlocks(FilePaths(es), read));
  }

  /** Under the conditions of `GenerateOutputReadsBack`, every listed path is a line of its own. */
  lemma {:induction false} WalkAllPrintable(dirs: seq<string>, matches: string -> bool, tree: Trees)
    requires forall i :: 0 <= i < |dirs| ==>
      WellFormed(tree(dirs[i])) && FreeOf(tree(dirs[i]), '\n') && '\n' !in Base(dirs[i])
    ensures ManifestLines(Manifest(WalkAll(dirs, matches, tree)))
    decreases |dirs|
  {
    if dirs != [] {
      var d := dirs[0];
      var head := WalkDir(d, matches, tree).entries;
      WalkRootPathsFreeOf(Base(d), matches, tree(d), '\n');
      assert forall i :: 0 <= i < |dirs[1..]| ==> dirs[1..][i] == dirs[i + 1];
      WalkAllPrintable(dirs[1..], matches, tree);
      var rest := WalkAll(dirs[1..], matches, tree);
      ManifestConcat(head, rest);
      var ps := Manifest(head + rest);
      forall i | 0 <= i < |ps| ensures ps[i] != [] && '\n' !in ps[i] {
        if i < |head| {
          assert ps[i] == head[i].path;
        } else {
          assert ps[i] == Manifest(rest)[i - |head|];
        }
      }
    }
  }

  /** How a run ends. */
  datatype Outcome =
    | Rejected                                    // `-force-replace-output` without `-output-file`
    | LoadFailed(error: LoadError)                // an ignore file could not be opened or read
    | Done(echo: string, document: string, plan: Plan)

  /** `main`: check the flags, fill in defaults, load the patterns, walk every root into
      one document and route it. `compile` stands for the gitignore matcher built from the
      pattern list, `cwd` is the working directory and `fs` what opening a path yields,
      `present` says whether the output file already exists, and `answer` is the line typed
      at the replace prompt. Ignore files are loaded with both corrections of the loader:
      empty names are skipped and absolute names are opened as given. */
  method Run(cfg: Options, cwd: string, fs: string -> Source, compile: seq<string> -> (string -> bool),
             tree: Trees, read: string -> Option<string>, present: string -> bool, answer: string)
    returns (outcome: Outcome, patterns: seq<string>)
    ensures outcome.Rejected? <==> !Valid(cfg)
    ensures outcome.LoadFailed? <==>
      Valid(cfg) && LoadFromNamedFiles(SetDefaults(cfg).ignoreFiles, OpenResolved(cwd, fs)).Failure?
    ensures outcome.LoadFailed? ==>
      outcome.error == LoadFromNamedFiles(SetDefaults(cfg).ignoreFiles, OpenResolved(cwd, fs)).error
    ensures outcome.Done? ==>
      var full := SetDefaults(cfg);
      var fromFiles := LoadFromNamedFiles(full.ignoreFiles, OpenResolved(cwd, fs)).value;
      && |patterns| == |fromFiles| + |cfg.ignorePaths|
      && patterns[..|fromFiles|] == fromFiles
      && (forall x :: x in patterns[|fromFiles|..] <==> x in cfg.ignorePaths)
      && outcome.echo == TreeEcho(full.directories, compile(patterns), tree)
      && outcome.document == GenerateOutput(full.directories, compile(patterns), tree, read)
      && outcome.plan == Route(full, outcome.document, present(full.outputFile), answer)
  {
    patterns := [];
    if !Valid(cfg) {
      return Rejected, patterns;
    }
    var full := SetDefaults(cfg);
    var loaded := LoadIgnorePatternsNamed(full.ignoreFiles, full.ignorePaths, OpenResolved(cwd, fs));
    if loaded.Failure? {
      return LoadFailed(loaded.error), patterns;
    }
    patterns := loaded.value;
    var matches := compile(patterns);
    var document := GenerateOutput(full.directories, matches, tree, read);
    var plan := Route(full, document, present(full.outputFile), answer);
    outcome := Done(TreeEcho(full.directories, matches, tree), document, plan);
  }
}
