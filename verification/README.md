# chettu, modelled in Dafny

chettu is a command-line tool. It walks one or more directory trees and skips entries that match gitignore-style patterns. It writes the surviving paths, and the contents of every surviving file, into one `<documents>` text. That text goes to a file, to standard output or to the clipboard. This project models the pipeline inside `main` as pure functions over immutable data, and proves properties of each stage.

- **Pattern assembly**, module `Patterns`.
  - Pattern files are split into lines the way `bufio.Scanner` splits them.
  - Each line is trimmed with Go's `unicode.IsSpace` white space.
  - Blank lines and `#` comments are dropped.
  - Files are loaded in order. A missing file is skipped; an open or read error aborts the load.
  - The ad-hoc `-i` patterns (a `stringSet`) are appended, each once, in an unspecified order.
- **The pruning walk**, module `Walk`. This is the callback `processDirectory` hands to `filepath.Walk`, run over a snapshot tree.
  - The snapshot has files, directories, unreadable directories and entries that cannot be `Lstat`ed.
  - The gitignore matcher is an opaque predicate on the reported path `Join(Base(root), rel)`; path handling lives in module `Paths`.
  - The walk is proved equal to an independent reference definition: list everything in pre-order, keep the entries under no matched directory, stop at the first error, drop the matched entries.
- **The document**, module `Render`.
  - `Layout` builds the exact text `generateOutput` and `appendFileContents` write.
  - A parser for that text is proved to be exactly its inverse on every document whose parts can be told apart.
- **Configuration and output routing**, module `Config`:
  - `setDefaultValues`;
  - the `-force-replace-output` check;
  - the `promptReplace` answer;
  - where `handleOutput` sends the document, and the clipboard size guard.
- **The run**, module `Pipeline`: every root walked into one document, and `main` as a method.

The file system, the gitignore matcher, the prompt answer and the clipboard are parameters: `cwd` and `fs` for the ignore files, `tree`, `read`, `compile`, `present` and `answer`. Path resolution is modelled where it changes which file is opened. Module `Cleaning` models `filepath.Clean` and `filepath.Join` well enough to say where an ignore-file name joined to the working directory ends up.

Where the code and its prose description differ, the model follows the code:

- **File contents are written verbatim.** They are not indented and not escaped. `EmbeddedFramingIsAmbiguous` shows what that allows: a file whose contents contain the block framing renders exactly like two files.
- **An error stops the whole walk of that root.** This applies to an entry that cannot be `Lstat`ed and to a directory that cannot be listed. The walk does not continue with the siblings. `filepath.Walk` lists a directory before it calls the callback, so an unreadable directory stops the walk even when it would have been pruned. Entries already reported are kept, and the next root is walked.
- **Paths are unique only within one root.** `WalkRootPathsDistinct` proves this for well-formed trees. Two roots with the same base name, or the same root named twice, repeat paths in the manifest.
- **File contents are read by the reported path.** That path is `Join(Base(root), rel)`, resolved against the working directory. For a root such as `a/b`, the reported path `b/x` names a different file or none, and a failed read only drops the block. The model keeps this behaviour: `read` is applied to the reported path.
- **The matcher sees only the path.** It is called with the reported path and no directory flag.
- **`-i ""` clears nothing.** The usage text at line 61 says it clears the default ignore patterns. The code adds the empty string to the ad-hoc set (line 62), and it joins the pattern list like any other. `Patterns.LoadIgnorePatterns` states that the file patterns are kept in full whatever the ad-hoc set holds. What the matcher does with an empty pattern belongs to the external library.

## Model

| member | source | states |
|---|---|---|
| Text.TrimSpace | chettu.go:205 | The result is a slice of the line, starts and ends with a non-space, and only white space lies outside it; it is empty exactly when the line is all white space |
| Text.TrimSpaceIdempotent | chettu.go:205 | Trimming twice is trimming once |
| Text.TrimSurrounded | chettu.go:277 | Trimming removes exactly the white space around a trimmed, non-empty text |
| Text.ToLower | chettu.go:277 | Lower-casing keeps the length and maps each character by ASCII lower-casing |
| Text.Utf8Len | chettu.go:282 | Go's `len` of a string is between one and four bytes per character |
| Text.Utf8LenConcat | chettu.go:282 | The byte length of a concatenation is the sum of the byte lengths |
| Paths.Base | chettu.go:161 | `filepath.Base`: never empty; "." for the empty path, "/" for a path of separators, and otherwise free of separators |
| Paths.BaseOfChild | chettu.go:161 | The base of `dir/name` is `name` |
| Paths.JoinBase | chettu.go:161 | Joining onto base "." gives the relative path; any other base ends with it |
| Paths.RelPathInjective | chettu.go:156 | Different name paths below a root have different relative paths |
| Paths.DisplayInjective | chettu.go:161 | Different name paths below a root are reported as different paths |
| Paths.DisplayChars | chettu.go:161 | A reported path holds a character other than the separator only if the base or a name holds it |
| Paths.DisplayNonEmpty | chettu.go:161 | A reported path is never empty |
| Patterns.DropCR | chettu.go:203-204 | A scanned line loses one trailing carriage return if it has one, and is unchanged otherwise |
| Patterns.ScanLines | chettu.go:203-204 | Scanned lines hold no newline and there are no more lines than characters |
| Patterns.ScanLinesRoundTrip | chettu.go:203-204 | Newline-terminated lines, plus an optional unterminated last line, scan back to the same lines |
| Patterns.ScanLinesCRLFStep | chettu.go:203-204 | A line followed by a carriage return and a newline scans as that line, even when it ends in a carriage return of its own |
| Patterns.ScanLinesCRLFRoundTrip | chettu.go:203-204 | Lines without newlines, each ended by a carriage return and a newline, scan back to the same lines |
| Patterns.KeptLine | chettu.go:205-208 | A line contributes its trimmed form exactly when that is non-empty and not a `#` comment, and nothing otherwise |
| Patterns.KeptPatterns | chettu.go:204-209 | Every kept pattern is trimmed, non-empty and not a comment |
| Patterns.KeptPatternsConcat | chettu.go:204-209 | The patterns of consecutive lines are those of the first lines followed by those of the later lines |
| Patterns.KeptPatternsMembership | chettu.go:204-209 | A text is kept exactly when it is the trimmed form of some line and is a pattern |
| Patterns.KeptPatternsIdempotent | chettu.go:204-209 | Filtering kept patterns again changes nothing |
| Patterns.FilePatterns | chettu.go:203-209 | A readable file contributes only patterns |
| Patterns.FilePatternsOfLines | chettu.go:203-209 | A file of newline-terminated lines contributes the kept lines, in line order |
| Patterns.ThenAssociative | chettu.go:192-215 | Collecting patterns file after file groups either way and starts from nothing |
| Patterns.LoadFromFiles | chettu.go:192-215 | Loading succeeds exactly when no file fails to open or read; a failure names a failing file with the matching error; on success every value is a pattern |
| Patterns.LoadFromFilesConcat | chettu.go:192-214 | Loading a list is loading its first part and then the rest; the first error wins |
| Patterns.MissingFileContributesNothing | chettu.go:194-198 | A file that does not exist changes nothing, wherever it is listed |
| Patterns.ReadableFileContributesItsLines | chettu.go:203-209 | One readable file loads as its filtered lines |
| Patterns.EmptyFileNameAborts | chettu.go:192-213 | As written, the empty file name makes the load fail with a read error; the corrected loader succeeds on the same list |
| Patterns.LoadFromNamedFiles | chettu.go:66 | The corrected loader succeeds exactly when no non-empty name fails, and a failure names a non-empty failing file |
| Patterns.LoadFromNamedFilesAgrees | chettu.go:192-215 | The corrected loader equals the code's loader on lists without the empty name, and a list of only empty names loads nothing |
| Cleaning.Split | chettu.go:193 | A path always splits into at least one piece |
| Cleaning.Clean | chettu.go:193 | `filepath.Clean` never returns the empty path |
| Cleaning.Join | chettu.go:193 | `filepath.Join` returns the empty path exactly when both arguments are empty |
| Cleaning.SplitOfRelPath | chettu.go:193 | A relative path of plain names splits back into its names |
| Cleaning.CleanElemsConcat | chettu.go:193 | Cleaning a list of pieces cleans its first part, then the rest |
| Cleaning.CleanAbsolute | chettu.go:193 | An absolute path of plain names is already clean |
| Cleaning.JoinRelative | chettu.go:193 | A relative name of plain names joined to an absolute working directory names the path below it |
| Cleaning.JoinAbsolute | chettu.go:193 | An absolute name joined to an absolute working directory is nested below it, not taken as given |
| Patterns.IntendedIgnoreFilePath | chettu.go:193 | The corrected lookup opens an absolute name as given, and a relative name below the working directory |
| Patterns.IgnoreFilePaths | chettu.go:193 | From an absolute working directory, a relative name and the absolute name with the same names open the same path; only the corrected lookup opens the absolute name itself |
| Patterns.AbsoluteIgnoreFileMissed | chettu.go:193-198 | An existing absolute ignore file, with no file at the nested path, is silently skipped as written and loads its lines when looked up where it is |
| Patterns.ResolvedAgreesOnRelativeNames | chettu.go:192-215 | For lists of relative names, loading with the corrected lookup is loading as written |
| Patterns.EmptyNameIsWorkingDirectory | chettu.go:193-194 | The empty name opens the working directory itself |
| Patterns.Add | chettu.go:34-35 | After adding, the set contains exactly the old members and the new value; its size grows by one only for a new value |
| Patterns.ToSlice | chettu.go:35-42 | A value is in the slice exactly when the set contains it, and it is there once |
| Patterns.AppendAdHoc | chettu.go:118 | The file patterns are kept as the prefix, and each ad-hoc pattern follows exactly once |
| Patterns.LoadIgnorePatterns | chettu.go:113-119 | The code's loader: a load error is passed on; otherwise the file patterns form the prefix and each ad-hoc pattern follows exactly once |
| Patterns.LoadIgnorePatternsNamed | chettu.go:113-119 | The same with the loader that skips empty names |
| Walk.WalkNode | chettu.go:151-176 | No entry reported for one listed entry and what lies below it is matched |
| Walk.WalkNodes | chettu.go:151-176 | No entry reported for a directory listing is matched |
| Walk.WalkRoot | chettu.go:151-176 | No reported entry's path is matched |
| Walk.Manifest | chettu.go:170 | One manifest line per entry, in visit order, holding the entry's path |
| Walk.WalkRootIsReference | chettu.go:151-176 | The walk equals the reference definition: pre-order listing, keep entries under no matched directory, stop at the first error, drop matched entries |
| Walk.WalkRootCharacterized | chettu.go:152-176 | Each entry is a listed entry under no matched directory, unmatched, reported as `Join(Base(root), rel)` with its directory flag; the walk stops exactly when an error is reached |
| Walk.WalkRootComplete | chettu.go:162-175 | When no reachable entry reports an error, the walk does not stop and every unmatched entry under no matched directory is reported |
| Walk.NothingVisibleBelowMatched | chettu.go:162-165 | Nothing below a matched directory is reached |
| Walk.SiblingRules | chettu.go:162-167 | A matched file or directory contributes nothing and its later siblings are still visited; an entry reporting an error stops the walk |
| Walk.WalkNodeIsReference | chettu.go:151-176 | The walk of one entry under an open path equals the reference definition of its listing |
| Walk.FilePathsPicked | chettu.go:169-174 | The file-path list is the manifest with exactly the directory lines left out, in the same order |
| Walk.ManifestConcat | chettu.go:127-129 | Manifest and file-path list of consecutive walks are the concatenations of theirs |
| Walk.WalkRootPathsDistinct | chettu.go:156-161 | Within one root whose directories list distinct plain names, no path is reported twice |
| Walk.WalkRootPathsFreeOf | chettu.go:161 | A root whose base and names are free of a character reports only non-empty paths free of it |
| Render.BlockFraming | chettu.go:231-236 | A file block starts with the fixed head followed at once by the path, and ends with the contents followed by the fixed tail |
| Render.ManifestTextLines | chettu.go:170 | The manifest text has at least one character per path and, when not empty, ends with a newline |
| Render.LayoutFraming | chettu.go:121-140 | The document opens with the documents tag followed at once by the manifest and its empty line, and closes with the closing tag |
| Render.ContentBlocks | chettu.go:218-237 | Every block is a listed file, under its path, holding what reading that path returned |
| Render.ContentBlocksAllRead | chettu.go:133-135 | When every read succeeds there is one block per listed file, in list order |
| Render.ContentBlocksComplete | chettu.go:225-236 | Every listed file that can be read has its block |
| Render.ContentBlocksConcat | chettu.go:133-135 | The blocks of consecutive file lists follow each other |
| Render.ManifestTextConcat | chettu.go:169-170 | The manifest text of consecutive path lists is the concatenation of theirs |
| Render.ParseManifestRoundTrip | chettu.go:125-131 | Non-empty, newline-free manifest lines followed by the empty line read back as themselves |
| Render.ParseManifestSound | chettu.go:125-131 | Whatever the manifest reader accepts is manifest lines followed by the empty line |
| Render.TakeBlock | chettu.go:231-236 | A block taken off a text is the block framing of a path and contents with the first terminators in the right places |
| Render.TakeBlockOf | chettu.go:231-236 | A block whose path and contents hold no early terminator is taken back off any text unchanged |
| Render.ParseBlocksRoundTrip | chettu.go:133-137 | Blocks whose parts can be told apart, then the closing tag, read back as the records written |
| Render.ParseBlocksSound | chettu.go:133-137 | Whatever the block reader accepts is such blocks followed by the closing tag |
| Render.DocumentRoundTrip | chettu.go:121-140 | A document whose paths and blocks can be told apart reads back as its manifest and records |
| Render.DocumentSound | chettu.go:121-140 | Whatever the document reader accepts is the document of what it yields, so the reader is exactly the inverse of the layout |
| Render.PathDelimited | chettu.go:232 | A newline-free path never holds an early `</source>` terminator |
| Render.PlainRecordDelimited | chettu.go:232-235 | A newline-free path and contents without '<' can always be told apart |
| Render.EmbeddedFramingIsAmbiguous | chettu.go:234 | A file whose contents embed the block framing gives the same document as two files |
| Config.Valid | chettu.go:79-83 | The flags are refused exactly when replacing is forced without an output file |
| Config.Accepts | chettu.go:273-279 | A confirming answer trims to one or three characters starting with 'y' or 'Y'; a blank answer never confirms |
| Config.SetDefaults | chettu.go:104-111 | Both lists end up non-empty: an empty directory list becomes ".", an empty ignore-file list becomes ".gitignore", and nothing else changes |
| Config.SetDefaultsIdempotent | chettu.go:104-111 | Filling in defaults twice is filling them once, and keeps the flag check's verdict |
| Config.AcceptsIff | chettu.go:276-278 | An answer confirms exactly when, trimmed, it is "y" or "yes" in any mix of ASCII case |
| Config.AcceptsIgnoresSurroundingSpace | chettu.go:277-278 | White space around an answer does not change the verdict |
| Config.AcceptsShoutedYes | chettu.go:277-278 | "YES" followed by a CRLF line ending confirms |
| Config.DeclinesEmptyLine | chettu.go:276-278 | A bare line ending declines |
| Config.FileRoute | chettu.go:251-257 | No file is written exactly when no output path is named. The write is cancelled exactly when the file exists, replacing was not forced and the answer did not confirm. It is written exactly when a path is named and replacing was forced, the file is absent or the answer confirmed |
| Config.ClipRoute | chettu.go:281-286 | The clipboard is tried exactly when asked for, and copies only a document no longer in bytes than the limit |
| Config.Route | chettu.go:239-249 | Standard output is used exactly when no output file is named and the clipboard is not asked for |
| Config.RouteHasOneSink | chettu.go:239-249 | A destination is always chosen; never both a file and standard output, and standard output only when nothing else is |
| Config.DeliveredNowhere | chettu.go:239-285 | The document reaches no destination exactly when a file or the clipboard was chosen, the file write, if any, was cancelled, and the clipboard, if asked for, refused an oversized document |
| Config.RouteAsksOnlyWhenNeeded | chettu.go:252-253 | With replacing forced, or no existing file, the answer is irrelevant and nothing is cancelled |
| Config.ClipboardIndependentOfFile | chettu.go:246-248 | A cancelled file write never stops the clipboard copy; the copy is refused exactly for documents over the limit |
| Config.ClipboardGuardMonotone | chettu.go:282 | A document that fits the clipboard still fits with any of its prefixes |
| Pipeline.WalkAll | chettu.go:127-129 | No entry of any root's walk is matched |
| Pipeline.WalkAllConcat | chettu.go:127-129 | The walks of consecutive root lists follow each other |
| Pipeline.TreeEcho | chettu.go:169-182 | There is an echo exactly when there are roots, and it then ends with a newline |
| Pipeline.GenerateOutput | chettu.go:121-140 | The document opens and closes with the documents tags; with no roots it is the tags around one empty line |
| Pipeline.EchoOfOneRoot | chettu.go:169-182 | With one root, the tree echoed to standard output is the document's manifest section, empty line included |
| Pipeline.BlocksAreListedFiles | chettu.go:133-135 | Every file block is the content read for a path the walks list as a file |
| Pipeline.BlocksDelimited | chettu.go:218-237 | Blocks for newline-free listed paths, with contents holding no early terminator, can be told apart |
| Pipeline.WalkAllPrintable | chettu.go:169-170 | For trees whose names and root bases hold no newline, every manifest line is non-empty and newline-free |
| Pipeline.GenerateOutputReadsBack | chettu.go:121-140 | For such trees and contents, the document reads back as exactly the manifest of all walks and the blocks of the readable files |
| Pipeline.Run | chettu.go:44-56 | Refused flags stop the run; a pattern-load error stops it with that error; otherwise the document, the echo and the routing are those of the loaded patterns |

## Left out

- Flag parsing is not modelled: the `flag` package, `strconv.Atoi` for `-c`, and the `defaultMaxClipboardSize` it fills in. `Options` is the parsed result. Only the `-force-replace-output` check of `parseFlags` is kept, as `Config.Valid`.
- The gitignore matching rules are not modelled; they belong to an external library. The compiled matcher is the parameter `compile`.
- `os.Getwd` and `filepath.Abs` are not modelled. Their failures happen only when the working directory cannot be determined. The working directory is the parameter `cwd`, and ignore-file names are resolved against it with the modelled `filepath.Join`. The other parameters absorb their own path resolution: `tree(dir)` is the snapshot of the directory the root name `dir` denotes, and `read(path)` is what reading the reported path relative to the working directory yields.
- Opening, scanning, reading and writing files are not modelled. They are the parameters `open`, `tree`, `read` and `present`, and a failing output write is only reported. The scanner's 64 KiB line limit is not modelled: an over-long line is one form of `ReadFailed`.
- The messages printed to the console are not modelled, and the clipboard backend call is not modelled. The tree echo is modelled as text (`TreeEcho`), but not its interleaving with other output.
- `filepath.Rel` errors are not modelled. They cannot happen for paths the walk itself produced below the root.
- File contents are modelled as decoded text (`seq<char>`). Bytes that are not valid UTF-8 are not modelled.
- Text.ToLower: lowers ASCII letters only, where Go lowers all of Unicode. The answer check is unaffected, because no non-ASCII character lower-cases to 'y', 'e' or 's'.
- Pipeline.Run: loads ignore files with both corrections under Findings. It skips empty names (`LoadFromNamedFiles`) and opens absolute names as given (`OpenResolved`). Otherwise it follows `main`.
- Cleaning.Clean: models `filepath.Clean` on Unix-style paths only. Volume names and other separators are not modelled.

## Findings

| source | as written | input that shows it | evidently intended | confidence | as-written member | corrected member |
|---|---|---|---|---|---|---|
| chettu.go:193 | An ignore-file name is always joined to the working directory. `filepath.Join` does not keep an absolute second argument, so `/x/.gitignore` run from `/home/u` opens `/home/u/x/.gitignore`. That file is usually missing, and a missing file is skipped without a message (lines 196-198) | `chettu -ignore-file /etc/chettu-ignore` from any directory other than `/` | An absolute name should be opened as given | medium, not executed | Patterns.AbsoluteIgnoreFileMissed | Patterns.IntendedIgnoreFilePath |
| chettu.go:66 | `-ignore-file ""` puts the empty name in the list. It is joined to the working directory (line 193), which opens but cannot be read, so loading aborts (lines 211-213) and nothing is produced | `chettu -ignore-file ""` | The usage text says this flag value prevents loading any ignore files, so the empty name should be skipped | medium, not executed | Patterns.EmptyFileNameAborts | Patterns.LoadFromNamedFiles |
