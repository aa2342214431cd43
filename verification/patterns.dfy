/** Assembly of the ignore-pattern list: the lines of each pattern file, filtered and in file
    order, followed by the distinct ad-hoc `-i` patterns (`loadIgnorePatterns`). */
module Patterns {
  import opened Wrappers
  import opened Text
  import opened Sequences
  import opened Paths
  import opened Cleaning

  // ---------------------------------------------------------------------------
  // Line scanning (`bufio.Scanner` with its default `ScanLines` split)
  // ---------------------------------------------------------------------------

  /** `line` without one trailing carriage return. */
  function DropCR(line: string): (r: string)
    ensures |line| > 0 && line[|line| - 1] == '\r' ==> r == line[..|line| - 1]
    ensures !(|line| > 0 && line[|line| - 1] == '\r') ==> r == line
  {
    if |line| > 0 && line[|line| - 1] == '\r' then line[..|line| - 1] else line
  }

  /** The tokens a line scanner yields for `text`: the pieces between newlines, each with one
      trailing carriage return dropped; a final piece without newline is a line too, but a
      newline at the very end does not start an empty one. */
  function ScanLines(text: string): (lines: seq<string>)
    ensures forall i :: 0 <= i < |lines| ==> '\n' !in lines[i]
    ensures |lines| <= |text|
    decreases |text|
  {
    match IndexOf(text, '\n')
    case Some(k) => [DropCR(text[..k])] + ScanLines(text[k + 1..])
    case None => if text == [] then [] else [DropCR(text)]
  }

  /** A line a scanner can return unchanged: no newline and no trailing carriage return. */
  predicate IsScannable(line: string) {
    '\n' !in line && (line == [] || line[|line| - 1] != '\r')
  }

  /** `lines`, each followed by a newline. */
  function Terminated(lines: seq<string>): string {
    if lines == [] then [] else lines[0] + "\n" + Terminated(lines[1..])
  }

  /** A scannable line followed by a newline is scanned as that line, then the rest. */
  lemma ScanLinesStep(line: string, rest: string)
    requires IsScannable(line)
    ensures ScanLines(line + "\n" + rest) == [line] + ScanLines(rest)
  {
    var text := line + "\n" + rest;
    assert forall i :: 0 <= i < |line| ==> line[i] != '\n';
    IndexOfAfter(line, '\n', rest);
    assert text[..|line|] == line;
    assert text[|line| + 1..] == rest;
  }

  /** A scannable text without a final newline is scanned as itself, if it is not empty. */
  lemma ScanLinesLast(tail: string)
    requires IsScannable(tail)
    ensures ScanLines(tail) == if tail == [] then [] else [tail]
  {
    assert IndexOf(tail, '\n') == None;
  }

  /** Scanning newline-terminated lines, optionally followed by an unterminated last line,
      gives the lines back. */
  lemma {:induction false} ScanLinesRoundTrip(lines: seq<string>, tail: string)
    requires forall i :: 0 <= i < |lines| ==> IsScannable(lines[i])
    requires IsScannable(tail)
    ensures ScanLines(Terminated(lines) + tail) == lines + (if tail == [] then [] else [tail])
    decreases |lines|
  {
    var last := if tail == [] then [] else [tail];
    if lines == [] {
      assert Terminated(lines) + tail == tail;
      ScanLinesLast(tail);
    } else {
      var rest := Terminated(lines[1..]) + tail;
      assert Terminated(lines) + tail == lines[0] + "\n" + rest by {
        Associative(lines[0] + "\n", Terminated(lines[1..]), tail);
      }
      ScanLinesStep(lines[0], rest);
      ScanLinesRoundTrip(lines[1..], tail);
      assert lines == [lines[0]] + lines[1..];
      Associative([lines[0]], lines[1..], last);
    }
  }

  /** `lines`, each followed by a carriage return and a newline. */
  function TerminatedCRLF(lines: seq<string>): string {
    if lines == [] then [] else lines[0] + "\r\n" + TerminatedCRLF(lines[1..])
  }

  /** A line followed by a carriage return and a newline is scanned as that line, then the
      rest: only the carriage return before the newline is dropped, so the line may itself
      end in one. */
  lemma ScanLinesCRLFStep(line: string, rest: string)
    requires '\n' !in line
    ensures ScanLines(line + "\r\n" + rest) == [line] + ScanLines(rest)
  {
    var text := line + "\r\n" + rest;
    assert text == (line + "\r") + "\n" + rest;
    assert forall i :: 0 <= i < |line + "\r"| ==> (line + "\r")[i] != '\n' by {
      assert forall i :: 0 <= i < |line| ==> line[i] != '\n';
    }
    IndexOfAfter(line + "\r", '\n', rest);
    Parts(line + "\r", "\n", rest);
    assert DropCR(line + "\r") == line;
  }

  /** Scanning a text with carriage-return line endings gives back every line that holds
      no newline, trailing carriage returns of its own included. */
  lemma {:induction false} ScanLinesCRLFRoundTrip(lines: seq<string>)
    requires forall i :: 0 <= i < |lines| ==> '\n' !in lines[i]
    ensures ScanLines(TerminatedCRLF(lines)) == lines
    decreases |lines|
  {
    if lines != [] {
      ScanLinesCRLFStep(lines[0], TerminatedCRLF(lines[1..]));
      ScanLinesCRLFRoundTrip(lines[1..]);
      assert lines == [lines[0]] + lines[1..];
    }
  }

  // ---------------------------------------------------------------------------
  // Pattern-line filter
  // ---------------------------------------------------------------------------

  /** A line kept as a pattern: trimmed, non-empty and not a `#` comment. */
  predicate IsPattern(t: string) {
    t != [] && t[0] != '#' && IsTrimmed(t)
  }

  /** What one scanned line contributes: its trimmed form, unless that is blank or a comment. */
  function KeptLine(line: string): (r: seq<string>)
    ensures |r| <= 1
    ensures r == [TrimSpace(line)] <==> IsPattern(TrimSpace(line))
    ensures r == [] <==> !IsPattern(TrimSpace(line))
  {
    var t := TrimSpace(line);
    if t != [] && t[0] != '#' then [t] else []
  }

  /** The patterns kept from the scanned lines of one file, in line order. */
  function KeptPatterns(lines: seq<string>): (r: seq<string>)
    ensures forall i :: 0 <= i < |r| ==> IsPattern(r[i])
    ensures |r| <= |lines|
  {
    if lines == [] then [] else KeptLine(lines[0]) + KeptPatterns(lines[1..])
  }

  /** Filtering a concatenation of lines concatenates the filtered parts: line order is kept. */
  lemma {:induction false} KeptPatternsConcat(a: seq<string>, b: seq<string>)
    ensures KeptPatterns(a + b) == KeptPatterns(a) + KeptPatterns(b)
    decreases |a|
  {
    if a == [] {
      assert a + b == b;
    } else {
      assert (a + b)[0] == a[0];
      assert (a + b)[1..] == a[1..] + b;
      KeptPatternsConcat(a[1..], b);
      Associative(KeptLine(a[0]), KeptPatterns(a[1..]), KeptPatterns(b));
    }
  }

  /** A pattern is kept exactly when some line trims to it. */
  lemma {:induction false} KeptPatternsMembership(lines: seq<string>, x: string)
    ensures x in KeptPatterns(lines) <==>
            IsPattern(x) && exists i :: 0 <= i < |lines| && TrimSpace(lines[i]) == x
    decreases |lines|
  {
    if lines != [] {
      KeptPatternsMembership(lines[1..], x);
      if x in KeptPatterns(lines[1..]) {
        var i :| 0 <= i < |lines[1..]| && TrimSpace(lines[1..][i]) == x;
        assert TrimSpace(lines[i + 1]) == x;
      }
      if IsPattern(x) && (exists i :: 0 <= i < |lines| && TrimSpace(lines[i]) == x) {
        var i :| 0 <= i < |lines| && TrimSpace(lines[i]) == x;
        if i > 0 {
          assert TrimSpace(lines[1..][i - 1]) == x;
        }
      }
    }
  }

  /** Kept patterns pass the filter again unchanged: the filter is idempotent. */
  lemma {:induction false} KeptPatternsIdempotent(lines: seq<string>)
    ensures KeptPatterns(KeptPatterns(lines)) == KeptPatterns(lines)
    decreases |lines|
  {
    if lines != [] {
      var t := TrimSpace(lines[0]);
      TrimmedIsFixpoint(t);
      KeptPatternsConcat(KeptLine(lines[0]), KeptPatterns(lines[1..]));
      KeptPatternsIdempotent(lines[1..]);
      if KeptLine(lines[0]) == [t] {
        assert KeptPatterns([t]) == KeptLine(t) + KeptPatterns([]);
      }
    }
  }

  /** The patterns one readable pattern file contributes. */
  function FilePatterns(content: string): (r: seq<string>)
    ensures forall i :: 0 <= i < |r| ==> IsPattern(r[i])
  {
    KeptPatterns(ScanLines(content))
  }

  /** A pattern file of newline-terminated lines contributes exactly the lines that are
      patterns once trimmed, trimmed, in line order. */
  lemma FilePatternsOfLines(lines: seq<string>)
    requires forall i :: 0 <= i < |lines| ==> IsScannable(lines[i])
    ensures FilePatterns(Terminated(lines)) == KeptPatterns(lines)
  {
    ScanLinesRoundTrip(lines, []);
    assert Terminated(lines) + [] == Terminated(lines);
    assert lines + [] == lines;
  }

  // ---------------------------------------------------------------------------
  // Loading the pattern files (`loadIgnorePatternsFromFiles`)
  // ---------------------------------------------------------------------------

  /** What opening and reading a pattern file (joined to the working directory) yields.
      A directory opens but cannot be read, so it is `ReadFailed`. */
  datatype Source =
    | NotFound               // the open fails because the file does not exist
    | OpenFailed             // the open fails for any other reason
    | ReadFailed             // the open succeeds and the scanner reports an error
    | Text(content: string)  // the whole file was read

  /** The error that aborts pattern loading, naming the file. */
  datatype LoadError = OpenError(file: string) | ReadError(file: string)

  /** The sources that abort loading. */
  predicate Fails(s: Source) {
    s.OpenFailed? || s.ReadFailed?
  }

  /** The error a failing source is reported with. */
  function ErrorFor(file: string, s: Source): LoadError
    requires Fails(s)
  {
    if s.OpenFailed? then OpenError(file) else ReadError(file)
  }

  /** What a non-failing source contributes: nothing when it does not exist. */
  function Contribution(s: Source): seq<string>
    requires !Fails(s)
  {
    if s.Text? then FilePatterns(s.content) else []
  }

  /** The patterns collected from earlier files followed by those of later ones; an error
      of the earlier files is the result, otherwise one of the later files. */
  function Then(earlier: Result<seq<string>, LoadError>, later: Result<seq<string>, LoadError>)
    : Result<seq<string>, LoadError>
  {
    if earlier.Failure? then earlier
    else if later.Failure? then later
    else Success(earlier.value + later.value)
  }

  /** `Then` groups either way, with `Success([])` as its neutral element. */
  lemma ThenAssociative(x: Result<seq<string>, LoadError>, y: Result<seq<string>, LoadError>,
                        z: Result<seq<string>, LoadError>)
    ensures Then(Then(x, y), z) == Then(x, Then(y, z))
    ensures Then(Success([]), x) == x && Then(x, Success([])) == x
  {
    if x.Success? && y.Success? && z.Success? {
      Associative(x.value, y.value, z.value);
    }
    if x.Success? {
      assert [] + x.value == x.value && x.value + [] == x.value;
    }
  }

  /** The patterns of `files`, opened through `open`, in file order then line order. A
      missing file is skipped; the first file that cannot be opened or read aborts the whole
      load, discarding what was collected. */
  function LoadFromFiles(files: seq<string>, open: string -> Source): (r: Result<seq<string>, LoadError>)
    ensures r.Success? <==> forall i :: 0 <= i < |files| ==> !Fails(open(files[i]))
    ensures r.Failure? ==> r.error.file in files && Fails(open(r.error.file))
    ensures r.Failure? ==> r.error == ErrorFor(r.error.file, open(r.error.file))
    ensures r.Success? ==> forall i :: 0 <= i < |r.value| ==> IsPattern(r.value[i])
  {
    if files == [] then Success([])
    else
      var s := open(files[0]);
      if Fails(s) then Failure(ErrorFor(files[0], s))
      else Then(Success(Contribution(s)), LoadFromFiles(files[1..], open))
  }

  /** Loading `a + b` loads `a` first: an error in `a` is the result, otherwise the patterns
      of `b` follow those of `a`. */
  lemma {:induction false} LoadFromFilesConcat(a: seq<string>, b: seq<string>, open: string -> Source)
    ensures LoadFromFiles(a + b, open) == Then(LoadFromFiles(a, open), LoadFromFiles(b, open))
    decreases |a|
  {
    if a == [] {
      assert a + b == b;
      ThenAssociative(LoadFromFiles(b, open), Success([]), Success([]));
    } else {
      assert (a + b)[0] == a[0];
      assert (a + b)[1..] == a[1..] + b;
      LoadFromFilesConcat(a[1..], b, open);
      if !Fails(open(a[0])) {
        ThenAssociative(Success(Contribution(open(a[0]))), LoadFromFiles(a[1..], open), LoadFromFiles(b, open));
      }
    }
  }

  /** A file that does not exist contributes nothing, wherever it is listed. */
  lemma MissingFileContributesNothing(a: seq<string>, f: string, b: seq<string>, open: string -> Source)
    requires open(f) == NotFound
    ensures LoadFromFiles(a + [f] + b, open) == LoadFromFiles(a + b, open)
  {
    LoadFromFilesConcat(a + [f], b, open);
    LoadFromFilesConcat(a, [f], open);
    LoadFromFilesConcat(a, b, open);
    assert LoadFromFiles([f], open) == Success([]) by {
      assert [f][1..] == [];
      ThenAssociative(Success([]), Success([]), Success([]));
    }
    ThenAssociative(LoadFromFiles(a, open), Success([]), Success([]));
  }

  /** A readable file contributes its filtered lines. */
  lemma ReadableFileContributesItsLines(f: string, content: string, open: string -> Source)
    requires open(f) == Text(content)
    ensures LoadFromFiles([f], open) == Success(FilePatterns(content))
  {
    assert [f][1..] == [];
    ThenAssociative(Success(FilePatterns(content)), Success([]), Success([]));
  }

  /** Joined to the working directory, the empty file name names the working directory
      itself: it opens, and its first read fails. So a list holding the empty name, whose
      other files all load, aborts with a read error for it, while skipping it succeeds. */
  lemma {:induction false} EmptyFileNameAborts(files: seq<string>, open: string -> Source)
    requires open("") == ReadFailed && "" in files
    requires forall i :: 0 <= i < |files| && files[i] != "" ==> !Fails(open(files[i]))
    ensures LoadFromFiles(files, open) == Failure(ReadError(""))
    ensures LoadFromNamedFiles(files, open).Success?
    decreases |files|
  {
    if files[0] != "" {
      assert "" in files[1..];
      assert forall i :: 0 <= i < |files[1..]| ==> files[1..][i] == files[i + 1];
      EmptyFileNameAborts(files[1..], open);
    }
  }

  /** The loader with an empty file name skipped, as the `-ignore-file ""` usage text
      promises ("prevent loading any ignore files"). */
  function LoadFromNamedFiles(files: seq<string>, open: string -> Source): (r: Result<seq<string>, LoadError>)
    ensures r.Success? <==> forall i :: 0 <= i < |files| && files[i] != "" ==> !Fails(open(files[i]))
    ensures r.Failure? ==> r.error.file in files && r.error.file != "" && Fails(open(r.error.file))
  {
    if files == [] then Success([])
    else if files[0] == "" then LoadFromNamedFiles(files[1..], open)
    else
      var s := open(files[0]);
      if Fails(s) then Failure(ErrorFor(files[0], s))
      else Then(Success(Contribution(s)), LoadFromNamedFiles(files[1..], open))
  }

  /** Skipping empty names changes nothing for lists without them, and a list of only empty
      names loads no patterns whatever the working directory holds. */
  lemma {:induction false} LoadFromNamedFilesAgrees(files: seq<string>, open: string -> Source)
    ensures "" !in files ==> LoadFromNamedFiles(files, open) == LoadFromFiles(files, open)
    ensures (forall i :: 0 <= i < |files| ==> files[i] == "") ==> LoadFromNamedFiles(files, open) == Success([])
    decreases |files|
  {
    if files != [] {
      LoadFromNamedFilesAgrees(files[1..], open);
      if "" !in files {
        assert "" !in files[1..];
      }
      if forall i :: 0 <= i < |files| ==> files[i] == "" {
        assert files[0] == "";
        assert forall i :: 0 <= i < |files[1..]| ==> files[1..][i] == "";
      }
    }
  }

  // ---------------------------------------------------------------------------
  // Where an ignore-file name is looked up
  // ---------------------------------------------------------------------------

  /** Is `p` an absolute path? */
  predicate IsAbsolute(p: string) {
    p != [] && p[0] == '/'
  }

  /** The path `loadIgnorePatternsFromFiles` opens for `name`: the name joined to the working
      directory `cwd`, whether or not it is already absolute. */
  function IgnoreFilePath(cwd: string, name: string): string {
    Join(cwd, name)
  }

  /** The path an absolute name evidently means: the name itself. A relative name is
      resolved against the working directory as before. */
  function IntendedIgnoreFilePath(cwd: string, name: string): (p: string)
    ensures IsAbsolute(name) ==> p == name
    ensures !IsAbsolute(name) ==> p == IgnoreFilePath(cwd, name)
  {
    if IsAbsolute(name) then name else IgnoreFilePath(cwd, name)
  }

  /** What opening each ignore-file name yields as written, for a file system `fs` keyed on
      the path opened. */
  function OpenAsWritten(cwd: string, fs: string -> Source): string -> Source {
    name => fs(IgnoreFilePath(cwd, name))
  }

  /** What opening each ignore-file name yields with absolute names taken as given. */
  function OpenResolved(cwd: string, fs: string -> Source): string -> Source {
    name => fs(IntendedIgnoreFilePath(cwd, name))
  }

  /** A relative name below an absolute working directory names the path below it, and an
      absolute name is looked up below the working directory too: `/x/.gitignore` run from
      `/home/u` opens `/home/u/x/.gitignore`. Only the corrected lookup opens the name
      itself. */
  lemma IgnoreFilePaths(ds: seq<string>, cs: seq<string>)
    requires |ds| > 0 && |cs| > 0 && PlainNames(ds) && PlainNames(cs)
    ensures IgnoreFilePath(Absolute(ds), RelPath(cs)) == Absolute(ds + cs)
    ensures IgnoreFilePath(Absolute(ds), Absolute(cs)) == Absolute(ds + cs)
    ensures IgnoreFilePath(Absolute(ds), Absolute(cs)) != Absolute(cs)
    ensures IntendedIgnoreFilePath(Absolute(ds), RelPath(cs)) == Absolute(ds + cs)
    ensures IntendedIgnoreFilePath(Absolute(ds), Absolute(cs)) == Absolute(cs)
  {
    JoinRelative(ds, cs);
    JoinAbsolute(ds, cs);
    RelPathNotRooted(cs);
    RelPathNotRooted(ds);
    RelPathConcat(ds, cs);
  }

  /** An absolute ignore file that exists, run from a directory without the same path below
      it, contributes nothing as written: the loader looks below the working directory, finds
      nothing and skips it silently. Looked up where it is, it contributes its lines. */
  lemma AbsoluteIgnoreFileMissed(ds: seq<string>, cs: seq<string>, content: string, fs: string -> Source)
    requires |ds| > 0 && |cs| > 0 && PlainNames(ds) && PlainNames(cs)
    requires fs(Absolute(cs)) == Text(content) && fs(Absolute(ds + cs)) == NotFound
    ensures LoadFromFiles([Absolute(cs)], OpenAsWritten(Absolute(ds), fs)) == Success([])
    ensures LoadFromNamedFiles([Absolute(cs)], OpenResolved(Absolute(ds), fs)) == Success(FilePatterns(content))
  {
    var name := Absolute(cs);
    IgnoreFilePaths(ds, cs);
    assert OpenAsWritten(Absolute(ds), fs)(name) == NotFound;
    MissingFileContributesNothing([], name, [], OpenAsWritten(Absolute(ds), fs));
    assert [] + [name] + [] == [name];
    assert OpenResolved(Absolute(ds), fs)(name) == Text(content);
    ReadableFileContributesItsLines(name, content, OpenResolved(Absolute(ds), fs));
    assert name != [];
    LoadFromNamedFilesAgrees([name], OpenResolved(Absolute(ds), fs));
  }

  /** The corrected lookup differs from the written one for absolute names only. */
  lemma ResolvedAgreesOnRelativeNames(cwd: string, fs: string -> Source, files: seq<string>)
    requires forall i :: 0 <= i < |files| ==> !IsAbsolute(files[i])
    ensures LoadFromNamedFiles(files, OpenResolved(cwd, fs)) == LoadFromNamedFiles(files, OpenAsWritten(cwd, fs))
  {
    forall i | 0 <= i < |files|
      ensures OpenResolved(cwd, fs)(files[i]) == OpenAsWritten(cwd, fs)(files[i])
    {
      assert IntendedIgnoreFilePath(cwd, files[i]) == IgnoreFilePath(cwd, files[i]);
    }
    NamedFilesSameOpen(files, OpenResolved(cwd, fs), OpenAsWritten(cwd, fs));
  }

  /** Loading depends only on what opening the listed names yields. */
  lemma {:induction false} NamedFilesSameOpen(files: seq<string>, open: string -> Source, other: string -> Source)
    requires forall i :: 0 <= i < |files| ==> open(files[i]) == other(files[i])
    ensures LoadFromNamedFiles(files, open) == LoadFromNamedFiles(files, other)
    decreases |files|
  {
    if files != [] {
      NamedFilesSameOpen(files[1..], open, other);
    }
  }

  /** The empty name joined to an absolute, clean working directory is the working directory
      itself, a directory: that is the `open("")` of `EmptyFileNameAborts`. */
  lemma EmptyNameIsWorkingDirectory(ds: seq<string>, fs: string -> Source)
    requires |ds| > 0 && PlainNames(ds)
    ensures OpenAsWritten(Absolute(ds), fs)("") == fs(Absolute(ds))
  {
    CleanAbsolute(ds);
    assert IgnoreFilePath(Absolute(ds), "") == Absolute(ds);
  }

  // ---------------------------------------------------------------------------
  // The ad-hoc pattern set (`stringSet`) and `loadIgnorePatterns`
  // ---------------------------------------------------------------------------

  /** `stringSet.Contains`: membership, the relation `Add` and `ToSlice` are stated in. */
  predicate Contains(s: set<string>, v: string) {
    v in s
  }

  /** `stringSet.Add`: adding a value already present changes nothing. */
  function Add(s: set<string>, v: string): (r: set<string>)
    ensures Contains(r, v)
    ensures forall w :: Contains(r, w) <==> w == v || Contains(s, w)
    ensures |r| == if Contains(s, v) then |s| else |s| + 1
  {
    s + {v}
  }

  /** `stringSet.ToSlice`: every member exactly once, in an unspecified order (Go's map
      iteration order), modelled by an arbitrary choice at each step. */
  method ToSlice(s: set<string>) returns (r: seq<string>)
    ensures |r| == |s|
    ensures forall x :: x in r <==> Contains(s, x)
    ensures Distinct(r)
  {
    r := [];
    var rest := s;
    while rest != {}
      invariant rest <= s
      invariant forall x :: x in r <==> x in s && x !in rest
      invariant Distinct(r)
      invariant |r| + |rest| == |s|
      decreases |rest|
    {
      var x :| x in rest;
      r := r + [x];
      rest := rest - {x};
    }
  }

  /** The tail `loadIgnorePatterns` appends: the loaded file patterns, then each ad-hoc
      pattern once, in an unspecified order. */
  method AppendAdHoc(fromFiles: seq<string>, adHoc: set<string>) returns (r: seq<string>)
    ensures |r| == |fromFiles| + |adHoc|
    ensures r[..|fromFiles|] == fromFiles
    ensures forall x :: x in r[|fromFiles|..] <==> x in adHoc
    ensures Distinct(r[|fromFiles|..])
  {
    var extra := ToSlice(adHoc);
    r := fromFiles + extra;
    assert r[..|fromFiles|] == fromFiles;
    assert r[|fromFiles|..] == extra;
  }

  /** `loadIgnorePatterns` as written: the patterns of the files, loaded by
      `loadIgnorePatternsFromFiles`, then each ad-hoc pattern once. A load error is passed on
      unchanged, so an empty file name makes it fail (see `EmptyFileNameAborts`). */
  method LoadIgnorePatterns(files: seq<string>, adHoc: set<string>, open: string -> Source)
    returns (r: Result<seq<string>, LoadError>)
    ensures LoadFromFiles(files, open).Failure? ==> r == LoadFromFiles(files, open)
    ensures LoadFromFiles(files, open).Success? ==> r.Success?
    ensures r.Success? ==>
      var fromFiles := LoadFromFiles(files, open).value;
      && |r.value| == |fromFiles| + |adHoc|
      && r.value[..|fromFiles|] == fromFiles
      && (forall x :: x in r.value[|fromFiles|..] <==> x in adHoc)
      && Distinct(r.value[|fromFiles|..])
  {
    var loaded := LoadFromFiles(files, open);
    if loaded.Failure? {
      return loaded;
    }
    var all := AppendAdHoc(loaded.value, adHoc);
    r := Success(all);
  }

  /** `loadIgnorePatterns` with the corrected loader `LoadFromNamedFiles`, which skips the
      empty file name; otherwise the same. */
  method LoadIgnorePatternsNamed(files: seq<string>, adHoc: set<string>, open: string -> Source)
    returns (r: Result<seq<string>, LoadError>)
    ensures LoadFromNamedFiles(files, open).Failure? ==> r == LoadFromNamedFiles(files, open)
    ensures LoadFromNamedFiles(files, open).Success? ==> r.Success?
    ensures r.Success? ==>
      var fromFiles := LoadFromNamedFiles(files, open).value;
      && |r.value| == |fromFiles| + |adHoc|
      && r.value[..|fromFiles|] == fromFiles
      && (forall x :: x in r.value[|fromFiles|..] <==> x in adHoc)
      && Distinct(r.value[|fromFiles|..])
  {
    var loaded := LoadFromNamedFiles(files, open);
    if loaded.Failure? {
      return loaded;
    }
    var all := AppendAdHoc(loaded.value, adHoc);
    r := Success(all);
  }
}
