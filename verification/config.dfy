/** Run configuration and what happens to the finished document: `setDefaultValues`, the
    flag check that `-force-replace-output` needs `-output-file`, and the routing of
    `handleOutput`, `writeToFile`, `promptReplace` and `copyToClipboard`. */
module Config {
  import opened Text

  /** The directory walked when none is named. */
  const DefaultDirectory: string := "."
  /** The ignore file read when none is named. */
  const DefaultIgnoreFile: string := ".gitignore"

  /** The parsed command line. */
  datatype Options = Options(
    ignorePaths: set<string>,
    directories: seq<string>,
    ignoreFiles: seq<string>,
    maxClipboardSize: int,
    copyToClipboard: bool,
    outputFile: string,
    forceOutputReplace: bool)

  /** The one combination of flags the program refuses: forcing the replacement of an
      output file without naming one. */
  predicate Valid(cfg: Options): (ok: bool)
    ensures !ok <==> cfg.forceOutputReplace && cfg.outputFile == ""
    ensures cfg.outputFile != "" ==> ok
  {
    cfg.forceOutputReplace ==> cfg.outputFile != ""
  }

  /** `setDefaultValues`: an empty directory list becomes the working directory and an
      empty ignore-file list becomes `.gitignore`; everything else is kept. */
  function SetDefaults(cfg: Options): (r: Options)
    ensures r.directories != [] && r.ignoreFiles != []
    ensures cfg.directories != [] ==> r.directories == cfg.directories
    ensures cfg.directories == [] ==> r.directories == [DefaultDirectory]
    ensures cfg.ignoreFiles != [] ==> r.ignoreFiles == cfg.ignoreFiles
    ensures cfg.ignoreFiles == [] ==> r.ignoreFiles == [DefaultIgnoreFile]
    ensures r.(directories := cfg.directories, ignoreFiles := cfg.ignoreFiles) == cfg
  {
    var dirs := if |cfg.directories| == 0 then [DefaultDirectory] else cfg.directories;
    var files := if |cfg.ignoreFiles| == 0 then [DefaultIgnoreFile] else cfg.ignoreFiles;
    cfg.(directories := dirs, ignoreFiles := files)
  }

  /** Defaults, once filled in, are not filled in again, and filling them in keeps a valid
      configuration valid. */
  lemma SetDefaultsIdempotent(cfg: Options)
    ensures SetDefaults(SetDefaults(cfg)) == SetDefaults(cfg)
    ensures Valid(SetDefaults(cfg)) <==> Valid(cfg)
  {
  }

  /** The two answers that confirm replacing a file, compared without regard to ASCII case. */
  predicate EqualFold(a: string, b: string) {
    |a| == |b| && forall i :: 0 <= i < |a| ==> AsciiLower(a[i]) == AsciiLower(b[i])
  }

  /** `promptReplace`: the answer line, trimmed of white space and lower-cased, is "y" or
      "yes". An empty answer (just Enter, or end of input) declines. */
  predicate Accepts(response: string): (yes: bool)
    ensures yes ==> var t := TrimSpace(response); (|t| == 1 || |t| == 3) && AsciiLower(t[0]) == 'y'
    ensures AllSpace(response) ==> !yes
  {
    var t := ToLower(TrimSpace(response));
    t == "y" || t == "yes"
  }

  /** An answer confirms exactly when, trimmed, it is "y" or "yes" in any mix of case. */
  lemma AcceptsIff(response: string)
    ensures Accepts(response) <==>
      EqualFold(TrimSpace(response), "y") || EqualFold(TrimSpace(response), "yes")
  {
    var t := TrimSpace(response);
    var l := ToLower(t);
    if EqualFold(t, "y") {
      assert l == "y";
    }
    if EqualFold(t, "yes") {
      assert l == "yes";
    }
    if l == "y" {
      assert AsciiLower(t[0]) == l[0];
    }
    if l == "yes" {
      assert AsciiLower(t[0]) == l[0] && AsciiLower(t[1]) == l[1] && AsciiLower(t[2]) == l[2];
    }
  }

  /** White space around an answer does not change it. */
  lemma AcceptsIgnoresSurroundingSpace(pre: string, t: string, post: string)
    requires AllSpace(pre) && AllSpace(post) && t != [] && IsTrimmed(t)
    ensures Accepts(pre + t + post) <==> Accepts(t)
  {
    TrimSurrounded(pre, t, post);
    TrimmedIsFixpoint(t);
  }

  /** "yes" in any case, followed by a line ending, confirms. */
  lemma AcceptsShoutedYes()
    ensures Accepts("YES\r\n")
  {
    var t := "YES";
    assert IsTrimmed(t) && AllSpace("\r\n");
    assert "YES\r\n" == [] + t + "\r\n";
    TrimSurrounded([], t, "\r\n");
    assert ToLower(t) == "yes";
  }

  /** A bare line ending declines. */
  lemma DeclinesEmptyLine()
    ensures !Accepts("\n")
  {
    assert TrimSpace("\n") == [];
  }

  /** What happens to the output file. */
  datatype FileOutcome =
    | NoFile     // no output file was named
    | Cancelled  // the file exists and the answer did not confirm replacing it
    | Written    // the document is written (a failing write is only reported)

  /** What happens to the clipboard. */
  datatype ClipOutcome =
    | NoClip    // clipboard copy was not asked for
    | TooLarge  // the document is longer in bytes than the limit; nothing is copied
    | Copied    // the document is handed to the clipboard

  /** Where the document goes. */
  datatype Plan = Plan(file: FileOutcome, stdout: bool, clip: ClipOutcome)

  /** `writeToFile`: an existing file is replaced only when forced or confirmed. */
  function FileRoute(cfg: Options, present: bool, answer: string): (f: FileOutcome)
    ensures f == NoFile <==> cfg.outputFile == ""
    ensures f == Cancelled <==>
      cfg.outputFile != "" && present && !cfg.forceOutputReplace && !Accepts(answer)
    ensures f == Written <==>
      cfg.outputFile != "" && (cfg.forceOutputReplace || !present || Accepts(answer))
  {
    if cfg.outputFile == "" then NoFile
    else if !cfg.forceOutputReplace && present && !Accepts(answer) then Cancelled
    else Written
  }

  /** `copyToClipboard`: the size guard compares the document's length in UTF-8 bytes. */
  function ClipRoute(cfg: Options, document: string): (c: ClipOutcome)
    ensures c == NoClip <==> !cfg.copyToClipboard
    ensures c == Copied ==> Utf8Len(document) <= cfg.maxClipboardSize
  {
    if !cfg.copyToClipboard then NoClip
    else if Utf8Len(document) > cfg.maxClipboardSize then TooLarge
    else Copied
  }

  /** `handleOutput`: the file if one is named, otherwise standard output unless the
      clipboard is asked for; then the clipboard if asked for. `present` is whether the
      output file is already there and `answer` is the line typed at the prompt. */
  function Route(cfg: Options, document: string, present: bool, answer: string): (p: Plan)
    ensures p.stdout <==> cfg.outputFile == "" && !cfg.copyToClipboard
    ensures p.file == FileRoute(cfg, present, answer) && p.clip == ClipRoute(cfg, document)
  {
    Plan(FileRoute(cfg, present, answer), cfg.outputFile == "" && !cfg.copyToClipboard,
         ClipRoute(cfg, document))
  }

  /** Some destination is always chosen (the file, standard output or the clipboard), never
      both the file and standard output, and standard output only when nothing else is.
      A chosen destination may still receive nothing: see `DeliveredNowhere`. */
  lemma RouteHasOneSink(cfg: Options, document: string, present: bool, answer: string)
    ensures var p := Route(cfg, document, present, answer);
      && (p.file != NoFile || p.stdout || p.clip != NoClip)
      && !(p.file != NoFile && p.stdout)
      && (p.stdout ==> p.file == NoFile && p.clip == NoClip)
  {
  }

  /** The document reaches no destination exactly when a named file is kept because the
      answer did not confirm, or no file is named, and the clipboard is either not asked for
      or refuses the document as too large. Standard output is then not used either. */
  lemma DeliveredNowhere(cfg: Options, document: string, present: bool, answer: string)
    ensures var p := Route(cfg, document, present, answer);
      (p.file != Written && !p.stdout && p.clip != Copied) <==>
        && (cfg.outputFile != "" || cfg.copyToClipboard)
        && (cfg.outputFile != "" ==> present && !cfg.forceOutputReplace && !Accepts(answer))
        && (cfg.copyToClipboard ==> Utf8Len(document) > cfg.maxClipboardSize)
  {
  }

  /** The prompt only matters for a file that exists and is not forced: otherwise the
      answer is never read. */
  lemma RouteAsksOnlyWhenNeeded(cfg: Options, document: string, present: bool, a: string, b: string)
    requires cfg.forceOutputReplace || !present
    ensures Route(cfg, document, present, a) == Route(cfg, document, present, b)
    ensures Route(cfg, document, present, a).file != Cancelled
  {
  }

  /** A refusal to replace never stops the clipboard copy, and the clipboard limit only
      ever turns away documents longer than the limit. */
  lemma ClipboardIndependentOfFile(cfg: Options, document: string, present: bool, a: string, b: string)
    requires cfg.copyToClipboard
    ensures Route(cfg, document, present, a).clip == Route(cfg, document, present, b).clip
    ensures Route(cfg, document, present, a).clip == TooLarge <==> Utf8Len(document) > cfg.maxClipboardSize
  {
  }

  /** A document that fits the clipboard still fits with any prefix of it. */
  lemma ClipboardGuardMonotone(cfg: Options, shorter: string, rest: string)
    requires cfg.copyToClipboard && ClipRoute(cfg, shorter + rest) == Copied
    ensures ClipRoute(cfg, shorter) == Copied
  {
    Utf8LenConcat(shorter, rest);
  }
}
