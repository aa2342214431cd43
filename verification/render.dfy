/** The document `generateOutput` builds: the manifest of walked paths, then one block per
    readable file holding its path and contents verbatim, wrapped in a `<documents>` element.
    A parser for the same layout shows exactly which documents are unambiguous. */
module Render {
  import opened Wrappers
  import opened Text
  import opened Sequences

  const DocsOpen: string := "<documents>\n"
  const DocsClose: string := "</documents>\n"
  /** Text of a file block before its path. */
  const BlockHead: string := "\t<document>\n\t\t<source>"
  /** Text of a file block between its path and its contents. */
  const SourceEnd: string := "</source>\n\t\t<document_content>\n"
  /** Text of a file block after its contents. */
  const BlockTail: string := "\n\t\t</document_content>\n\t</document>\n"

  /** A file that was read: the path it is listed under and its contents. */
  datatype Record = Record(path: string, content: string)

  /** `appendFileContents` for a file that was read. */
  function Block(r: Record): string {
    BlockHead + r.path + SourceEnd + r.content + BlockTail
  }

  /** A block starts with the fixed head, followed at once by the path, and ends with the
      fixed tail right after the contents. */
  lemma BlockFraming(r: Record)
    ensures var b := Block(r);
      && |b| == |BlockHead| + |r.path| + |SourceEnd| + |r.content| + |BlockTail|
      && b[..|BlockHead|] == BlockHead && b[|b| - |BlockTail|..] == BlockTail
      && b[|BlockHead|..|BlockHead| + |r.path|] == r.path
      && b[|b| - |BlockTail| - |r.content|..|b| - |BlockTail|] == r.content
  {
    Framed(BlockHead, r.path, SourceEnd, r.content + BlockTail);
    Framed(BlockHead + r.path, SourceEnd, r.content, BlockTail);
    Associative(BlockHead + r.path + SourceEnd, r.content, BlockTail);
  }

  /** The manifest lines the walk callback writes: each path followed by a newline. */
  function ManifestText(paths: seq<string>): (t: string)
    ensures paths == [] ==> t == []
  {
    if paths == [] then [] else paths[0] + "\n" + ManifestText(paths[1..])
  }

  /** The blocks of the files, in order. */
  function BlocksText(records: seq<Record>): (t: string)
    ensures records == [] ==> t == []
  {
    if records == [] then [] else Block(records[0]) + BlocksText(records[1..])
  }

  /** The whole document: opening tag, manifest, an empty line, the blocks, closing tag. */
  function Layout(paths: seq<string>, records: seq<Record>): string {
    DocsOpen + ManifestText(paths) + "\n" + BlocksText(records) + DocsClose
  }

  /** The manifest text ends every path with a newline, so it ends with one itself. */
  lemma {:induction false} ManifestTextLines(paths: seq<string>)
    ensures var t := ManifestText(paths);
      && |t| >= |paths|
      && (t != [] ==> t[|t| - 1] == '\n')
    decreases |paths|
  {
    if paths != [] {
      ManifestTextLines(paths[1..]);
    }
  }

  /** The document opens with the documents tag followed at once by the manifest and the
      empty line ending it, and it closes with the closing tag. */
  lemma LayoutFraming(paths: seq<string>, records: seq<Record>)
    ensures var d := Layout(paths, records); var m := ManifestText(paths) + "\n";
      && |d| == |DocsOpen| + |m| + |BlocksText(records)| + |DocsClose|
      && d[..|DocsOpen|] == DocsOpen && d[|d| - |DocsClose|..] == DocsClose
      && d[|DocsOpen|..|DocsOpen| + |m|] == m
  {
    var m := ManifestText(paths) + "\n";
    Associative(DocsOpen, ManifestText(paths), "\n");
    Framed(DocsOpen, m, BlocksText(records), DocsClose);
  }

  /** Where each of four parts sits in their concatenation. */
  lemma Framed(a: string, b: string, c: string, d: string)
    ensures var s := a + b + c + d;
      && |s| == |a| + |b| + |c| + |d|
      && s[..|a|] == a && s[|s| - |d|..] == d
      && s[|a|..|a| + |b|] == b && s[|s| - |d| - |c|..|s| - |d|] == c
  {
    var s := a + b + c + d;
    assert s == a + (b + (c + d));
    assert s == (a + b) + c + d;
  }

  /** `appendFileContents` over the file-path list: a file whose read fails is reported on
      the console and contributes no block; the others contribute their contents verbatim. */
  function ContentBlocks(files: seq<string>, read: string -> Option<string>): (rs: seq<Record>)
    ensures |rs| <= |files|
    ensures forall i :: 0 <= i < |rs| ==> rs[i].path in files && read(rs[i].path) == Some(rs[i].content)
  {
    if files == [] then []
    else
      var head := match read(files[0]) case None => [] case Some(c) => [Record(files[0], c)];
      head + ContentBlocks(files[1..], read)
  }

  /** When every read succeeds there is one block per listed file, in list order. */
  lemma {:induction false} ContentBlocksAllRead(files: seq<string>, read: string -> Option<string>)
    requires forall i :: 0 <= i < |files| ==> read(files[i]).Some?
    ensures |ContentBlocks(files, read)| == |files|
    ensures forall i :: 0 <= i < |files| ==>
      ContentBlocks(files, read)[i] == Record(files[i], read(files[i]).value)
    decreases |files|
  {
    if files != [] {
      assert forall i :: 0 <= i < |files[1..]| ==> files[1..][i] == files[i + 1];
      ContentBlocksAllRead(files[1..], read);
      var rs := ContentBlocks(files, read);
      assert rs == [Record(files[0], read(files[0]).value)] + ContentBlocks(files[1..], read);
    }
  }

  /** A listed file that can be read has a block. */
  lemma {:induction false} ContentBlocksComplete(files: seq<string>, read: string -> Option<string>, f: string)
    requires f in files && read(f).Some?
    ensures Record(f, read(f).value) in ContentBlocks(files, read)
    decreases |files|
  {
    if files[0] != f {
      ContentBlocksComplete(files[1..], read, f);
    }
  }

  /** Blocks of consecutive file lists are the concatenation of their blocks. */
  lemma {:induction false} ContentBlocksConcat(a: seq<string>, b: seq<string>, read: string -> Option<string>)
    ensures ContentBlocks(a + b, read) == ContentBlocks(a, read) + ContentBlocks(b, read)
    decreases |a|
  {
    if a == [] {
      assert a + b == b;
    } else {
      assert (a + b)[0] == a[0] && (a + b)[1..] == a[1..] + b;
      ContentBlocksConcat(a[1..], b, read);
      var head := match read(a[0]) case None => [] case Some(c) => [Record(a[0], c)];
      Associative(head, ContentBlocks(a[1..], read), ContentBlocks(b, read));
    }
  }

  // ---------------------------------------------------------------------------
  // Reading a document back
  // ---------------------------------------------------------------------------

  /** Paths that can be told apart in the manifest: non-empty (an empty line ends the
      manifest) and without a newline. */
  predicate ManifestLines(paths: seq<string>) {
    forall i :: 0 <= i < |paths| ==> paths[i] != [] && '\n' !in paths[i]
  }

  /** Reads manifest lines up to the empty line; yields them and the text after it. */
  function ParseManifest(s: string): (r: Option<(seq<string>, string)>)
    ensures r.Some? ==> ManifestLines(r.value.0) && |r.value.1| < |s|
    decreases |s|
  {
    match IndexOf(s, '\n')
    case None => None
    case Some(k) =>
      if k == 0 then Some(([], s[1..]))
      else
        match ParseManifest(s[k + 1..])
        case None => None
        case Some(pr) =>
          assert '\n' !in s[..k] by {
            assert forall i :: 0 <= i < k ==> s[..k][i] == s[i];
          }
          Some(([s[..k]] + pr.0, pr.1))
  }

  /** A block that can be told apart: its path holds no early `SourceEnd` and its contents
      no early `BlockTail`. */
  predicate Delimited(r: Record) {
    NoEarlyOccurrence(r.path, SourceEnd) && NoEarlyOccurrence(r.content, BlockTail)
  }

  /** Every record is `Delimited`. */
  predicate AllDelimited(records: seq<Record>) {
    forall i :: 0 <= i < |records| ==> Delimited(records[i])
  }

  /** Takes the first block off `s`: after `BlockHead`, the path runs to the first
      `SourceEnd` and the contents to the first `BlockTail` after that. */
  function TakeBlock(s: string): (r: Option<(Record, string)>)
    ensures r.Some? ==> s == Block(r.value.0) + r.value.1 && Delimited(r.value.0)
  {
    if |s| < |BlockHead| || s[..|BlockHead|] != BlockHead then None
    else
      var t := s[|BlockHead|..];
      match Find(t, SourceEnd)
      case None => None
      case Some(i) =>
        var u := t[i + |SourceEnd|..];
        match Find(u, BlockTail)
        case None => None
        case Some(j) =>
          var r := Record(t[..i], u[..j]);
          var after := u[j + |BlockTail|..];
          TakeBlockParts(s, i, j);
          Some((r, after))
  }

  /** Reads blocks up to the closing tag. */
  function ParseBlocks(s: string): (r: Option<seq<Record>>)
    decreases |s|
  {
    if s == DocsClose then Some([])
    else
      match TakeBlock(s)
      case None => None
      case Some(ra) =>
        assert |ra.1| < |s| by {
          assert |s| == |Block(ra.0)| + |ra.1|;
        }
        match ParseBlocks(ra.1)
        case None => None
        case Some(rs) => Some([ra.0] + rs)
  }

  /** Reads a whole document into its manifest and its blocks. */
  function ParseDocument(s: string): (r: Option<(seq<string>, seq<Record>)>)
  {
    if |s| < |DocsOpen| || s[..|DocsOpen|] != DocsOpen then None
    else
      match ParseManifest(s[|DocsOpen|..])
      case None => None
      case Some(pr) =>
        match ParseBlocks(pr.1)
        case None => None
        case Some(rs) => Some((pr.0, rs))
  }

  /** The manifest reads back as the paths written, and the text after its empty line as
      what follows it. */
  lemma {:induction false} ParseManifestRoundTrip(paths: seq<string>, rest: string)
    requires ManifestLines(paths)
    ensures ParseManifest(ManifestText(paths) + "\n" + rest) == Some((paths, rest))
    decreases |paths|
  {
    if paths == [] {
      ParseManifestEmpty(rest);
    } else {
      var tail := paths[1..];
      assert ManifestLines(tail) by {
        assert forall i :: 0 <= i < |tail| ==> tail[i] == paths[i + 1];
      }
      ParseManifestRoundTrip(tail, rest);
      ParseManifestStep(paths, rest);
    }
  }

  /** Reading the first manifest line, then the others as far as they go. */
  lemma ParseManifestStep(paths: seq<string>, rest: string)
    requires paths != [] && ManifestLines(paths)
    requires ParseManifest(ManifestText(paths[1..]) + "\n" + rest) == Some((paths[1..], rest))
    ensures ParseManifest(ManifestText(paths) + "\n" + rest) == Some((paths, rest))
  {
    ManifestThen(paths, rest);
    ParseManifestCons(paths[0], ManifestText(paths[1..]) + "\n" + rest);
    assert [paths[0]] + paths[1..] == paths;
  }

  /** The empty line alone ends the manifest at once. */
  lemma ParseManifestEmpty(rest: string)
    ensures ParseManifest(ManifestText([]) + "\n" + rest) == Some(([], rest))
  {
    assert ManifestText([]) + "\n" + rest == [] + ['\n'] + rest;
    IndexOfAfter([], '\n', rest);
  }

  /** A manifest and what follows it, regrouped around its first line. */
  lemma ManifestThen(paths: seq<string>, rest: string)
    requires paths != []
    ensures ManifestText(paths) + "\n" + rest == paths[0] + "\n" + (ManifestText(paths[1..]) + "\n" + rest)
  {
    var p, m := paths[0] + "\n", ManifestText(paths[1..]);
    Associative(p, m, "\n");
    Associative(p, m + "\n", rest);
  }

  /** The manifest reader takes a non-empty, newline-free line off the front, then reads on. */
  lemma ParseManifestCons(p: string, after: string)
    requires p != [] && '\n' !in p
    ensures ParseManifest(p + "\n" + after) ==
      match ParseManifest(after) case None => None case Some(pr) => Some(([p] + pr.0, pr.1))
  {
    assert forall i :: 0 <= i < |p| ==> p[i] != '\n';
    IndexOfAfter(p, '\n', after);
    Parts(p, "\n", after);
  }

  /** Whatever the manifest reader accepts is a manifest followed by its empty line. */
  lemma {:induction false} ParseManifestSound(s: string)
    requires ParseManifest(s).Some?
    ensures s == ManifestText(ParseManifest(s).value.0) + "\n" + ParseManifest(s).value.1
    decreases |s|
  {
    var k := IndexOf(s, '\n').value;
    assert OccursAt(s, "\n", k);
    SplitAround(s, "\n", k);
    if k == 0 {
      assert ParseManifest(s) == Some(([], s[1..]));
    } else {
      var line, rest := s[..k], s[k + 1..];
      ParseManifestSound(rest);
      var pr := ParseManifest(rest).value;
      var lines := [line] + pr.0;
      assert ParseManifest(s) == Some((lines, pr.1));
      assert lines[0] == line && lines[1..] == pr.0;
      assert ManifestText(lines) == line + "\n" + ManifestText(pr.0);
      Associative(line + "\n", ManifestText(pr.0), "\n");
      Associative(line + "\n", ManifestText(pr.0) + "\n", pr.1);
    }
  }

  /** The pieces the block reader cuts out of `s`, at the first occurrences `i` and `j` of
      the path and contents terminators, are a delimited block and what follows it. */
  lemma TakeBlockParts(s: string, i: nat, j: nat)
    requires |s| >= |BlockHead| && s[..|BlockHead|] == BlockHead
    requires var t := s[|BlockHead|..];
      && OccursAt(t, SourceEnd, i) && (forall k :: 0 <= k < i ==> !OccursAt(t, SourceEnd, k))
      && var u := t[i + |SourceEnd|..];
      && OccursAt(u, BlockTail, j) && (forall k :: 0 <= k < j ==> !OccursAt(u, BlockTail, k))
    ensures var t := s[|BlockHead|..]; var u := t[i + |SourceEnd|..];
      && Delimited(Record(t[..i], u[..j]))
      && s == Block(Record(t[..i], u[..j])) + u[j + |BlockTail|..]
  {
    var t := s[|BlockHead|..];
    var u := t[i + |SourceEnd|..];
    var r := Record(t[..i], u[..j]);
    var after := u[j + |BlockTail|..];
    FirstOccurrenceDelimits(t, SourceEnd, i);
    FirstOccurrenceDelimits(u, BlockTail, j);
    SplitAround(u, BlockTail, j);
    SplitAround(t, SourceEnd, i);
    assert s == s[..|BlockHead|] + s[|BlockHead|..];
    BlockThen(r, after);
  }

  /** A block followed by more text, grouped the way the block reader takes it apart. */
  lemma BlockThen(r: Record, after: string)
    ensures Block(r) + after == BlockHead + (r.path + SourceEnd + (r.content + BlockTail + after))
  {
    Regroup(BlockHead, r.path, SourceEnd, r.content, BlockTail, after);
  }

  /** The block reader takes a `Delimited` block back off the front of any text. */
  lemma TakeBlockOf(r: Record, after: string)
    requires Delimited(r)
    ensures TakeBlock(Block(r) + after) == Some((r, after))
  {
    var w := r.content + BlockTail + after;
    var t := r.path + SourceEnd + w;
    var s := Block(r) + after;
    assert s == BlockHead + t by {
      BlockThen(r, after);
    }
    assert s[..|BlockHead|] == BlockHead && s[|BlockHead|..] == t;
    assert Find(t, SourceEnd) == Some(|r.path|) && t[..|r.path|] == r.path
        && t[|r.path| + |SourceEnd|..] == w by {
      FindAfter(r.path, SourceEnd, w);
      Parts(r.path, SourceEnd, w);
    }
    assert Find(w, BlockTail) == Some(|r.content|) && w[..|r.content|] == r.content
        && w[|r.content| + |BlockTail|..] == after by {
      FindAfter(r.content, BlockTail, after);
      Parts(r.content, BlockTail, after);
    }
  }

  /** The block reader reads a `Delimited` block off the front, then reads on. */
  lemma ParseBlocksCons(r: Record, after: string)
    requires Delimited(r)
    ensures ParseBlocks(Block(r) + after) ==
      match ParseBlocks(after) case None => None case Some(rs) => Some([r] + rs)
  {
    TakeBlockOf(r, after);
    assert Block(r) + after != DocsClose by {
      assert |Block(r) + after| >= |BlockHead| + |DocsClose|;
    }
  }

  /** The records after the first of `Delimited` records are `Delimited`. */
  lemma AllDelimitedTail(records: seq<Record>)
    requires records != [] && AllDelimited(records)
    ensures AllDelimited(records[1..])
  {
    assert forall i :: 0 <= i < |records| - 1 ==> records[1..][i] == records[i + 1];
  }

  /** The blocks and closing tag of non-empty records: the first block, then the rest. */
  lemma BlocksTextCons(records: seq<Record>)
    requires records != []
    ensures BlocksText(records) + DocsClose == Block(records[0]) + (BlocksText(records[1..]) + DocsClose)
  {
    Associative(Block(records[0]), BlocksText(records[1..]), DocsClose);
  }

  /** Blocks that are `Delimited` read back as the records written. */
  lemma {:induction false} ParseBlocksRoundTrip(records: seq<Record>)
    requires AllDelimited(records)
    ensures ParseBlocks(BlocksText(records) + DocsClose) == Some(records)
    decreases |records|
  {
    if records != [] {
      AllDelimitedTail(records);
      ParseBlocksRoundTrip(records[1..]);
      ParseBlocksStep(records);
    }
  }

  /** Reading the first block, then the others as far as they go. */
  lemma ParseBlocksStep(records: seq<Record>)
    requires records != [] && Delimited(records[0])
    requires ParseBlocks(BlocksText(records[1..]) + DocsClose) == Some(records[1..])
    ensures ParseBlocks(BlocksText(records) + DocsClose) == Some(records)
  {
    BlocksTextCons(records);
    ParseBlocksCons(records[0], BlocksText(records[1..]) + DocsClose);
    assert [records[0]] + records[1..] == records;
  }

  /** Whatever the block reader accepts is a sequence of `Delimited` blocks followed by the
      closing tag. */
  lemma {:induction false} ParseBlocksSound(s: string)
    requires ParseBlocks(s).Some?
    ensures s == BlocksText(ParseBlocks(s).value) + DocsClose
    ensures AllDelimited(ParseBlocks(s).value)
    decreases |s|
  {
    if s != DocsClose {
      var ra := TakeBlock(s).value;
      var r, after := ra.0, ra.1;
      assert |s| == |Block(r)| + |after|;
      ParseBlocksSound(after);
      var rs := ParseBlocks(after).value;
      assert ParseBlocks(s).value == [r] + rs;
      assert ([r] + rs)[0] == r && ([r] + rs)[1..] == rs;
      assert BlocksText([r] + rs) == Block(r) + BlocksText(rs);
      assert s == BlocksText([r] + rs) + DocsClose by {
        Associative(Block(r), BlocksText(rs), DocsClose);
      }
    }
  }

  /** The document, grouped the way the document reader takes it apart. */
  lemma LayoutParts(paths: seq<string>, records: seq<Record>)
    ensures Layout(paths, records)
         == DocsOpen + (ManifestText(paths) + "\n" + (BlocksText(records) + DocsClose))
  {
    Regroup5(DocsOpen, ManifestText(paths), "\n", BlocksText(records), DocsClose);
  }

  /** A document whose paths and blocks can be told apart reads back as what was written. */
  lemma DocumentRoundTrip(paths: seq<string>, records: seq<Record>)
    requires ManifestLines(paths) && AllDelimited(records)
    ensures ParseDocument(Layout(paths, records)) == Some((paths, records))
  {
    var body := BlocksText(records) + DocsClose;
    var m := ManifestText(paths) + "\n" + body;
    LayoutParts(paths, records);
    Parts(DocsOpen, m, []);
    ParseManifestRoundTrip(paths, body);
    ParseBlocksRoundTrip(records);
  }

  /** Whatever the document reader accepts is the layout of what it yields, with paths and
      blocks that can be told apart: the reader is exactly the inverse of `Layout`. */
  lemma DocumentSound(s: string)
    requires ParseDocument(s).Some?
    ensures ManifestLines(ParseDocument(s).value.0) && AllDelimited(ParseDocument(s).value.1)
    ensures s == Layout(ParseDocument(s).value.0, ParseDocument(s).value.1)
  {
    var m := s[|DocsOpen|..];
    var pr := ParseManifest(m).value;
    var rs := ParseBlocks(pr.1).value;
    assert ParseDocument(s).value == (pr.0, rs);
    ParseManifestSound(m);
    ParseBlocksSound(pr.1);
    assert s == DocsOpen + m by {
      assert s == s[..|DocsOpen|] + m;
    }
    LayoutParts(pr.0, rs);
  }

  /** A path without a newline never holds an early `SourceEnd`. */
  lemma PathDelimited(path: string)
    requires '\n' !in path
    ensures NoEarlyOccurrence(path, SourceEnd)
  {
    assert SourceEnd[9] == '\n';
    assert forall i :: 0 <= i < 9 ==> SourceEnd[i] != '\n' by {
      assert SourceEnd[..9] == "</source>";
      assert forall i :: 0 <= i < 9 ==> SourceEnd[i] == SourceEnd[..9][i];
    }
    NoEarlyFromMarker(path, SourceEnd, 9);
  }

  /** A path without a newline and contents without '<' can always be told apart. */
  lemma PlainRecordDelimited(r: Record)
    requires '\n' !in r.path && '<' !in r.content
    ensures Delimited(r)
  {
    PathDelimited(r.path);
    assert BlockTail[3] == '<';
    assert BlockTail[0] != '<' && BlockTail[1] != '<' && BlockTail[2] != '<';
    NoEarlyFromMarker(r.content, BlockTail, 3);
  }

  /** The manifest text of consecutive path lists is the concatenation of theirs. */
  lemma {:induction false} ManifestTextConcat(a: seq<string>, b: seq<string>)
    ensures ManifestText(a + b) == ManifestText(a) + ManifestText(b)
    decreases |a|
  {
    if a == [] {
      assert a + b == b;
    } else {
      assert (a + b)[0] == a[0] && (a + b)[1..] == a[1..] + b;
      ManifestTextConcat(a[1..], b);
      Associative(a[0] + "\n", ManifestText(a[1..]), ManifestText(b));
    }
  }

  /** Contents are written verbatim, so a file whose contents embed the block framing yields
      the same document as two files, the second of which could not be read on its own. */
  lemma EmbeddedFramingIsAmbiguous(paths: seq<string>, a: string, b: string, x: string, y: string)
    ensures Layout(paths, [Record(a, x + BlockTail + BlockHead + b + SourceEnd + y)])
         == Layout(paths, [Record(a, x), Record(b, y)])
  {
    var joined := Record(a, x + BlockTail + BlockHead + b + SourceEnd + y);
    var first, second := Record(a, x), Record(b, y);
    assert [joined][1..] == [] && [first, second][1..] == [second] && [second][1..] == [];
    assert BlocksText([joined]) == Block(joined);
    assert BlocksText([first, second]) == Block(first) + Block(second);
    assert Block(joined) == Block(first) + Block(second) by {
      EmbeddedRegroup(BlockHead, a, SourceEnd, x, BlockTail, b, y);
    }
  }

  /** The concatenation fact behind `EmbeddedFramingIsAmbiguous`, over arbitrary texts. */
  lemma EmbeddedRegroup(h: string, a: string, s: string, x: string, t: string, b: string, y: string)
    ensures h + a + s + (x + t + h + b + s + y) + t == (h + a + s + x + t) + (h + b + s + y + t)
  {
  }
}
