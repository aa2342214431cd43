/** The pruning tree walk: the callback `processDirectory` hands to `filepath.Walk`, run over
    a snapshot of one root. The ignore matcher is an opaque predicate on the reported path. */
module Walk {
  import opened Paths
  import opened Sequences

  /** One filesystem entry as the walk sees it through `Lstat`. Children are listed in the
      order `filepath.Walk` visits them, which is lexical name order. */
  datatype Node =
    | File(name: string)                      // anything that is not a directory (regular file, symbolic link, ...)
    | Dir(name: string, children: seq<Node>)  // a directory whose listing succeeds
    | UnreadableDir(name: string)             // a directory whose listing fails
    | Unstattable(name: string)               // an entry whose `Lstat` fails

  /** One manifest line: the reported path and whether it is a directory. */
  datatype Entry = Entry(path: string, isDir: bool)

  /** What one walk produced before it finished or stopped: the surviving entries in visit
      order, and whether an error stopped the walk. */
  datatype Walked = Walked(entries: seq<Entry>, aborted: bool)

  // ---------------------------------------------------------------------------
  // The walk
  // ---------------------------------------------------------------------------

  /** The callback's work for `n`, an entry of the directory reached through `dir`. An error
      reported for the entry stops the walk; for a directory the listing is attempted before
      the callback runs, so an unreadable directory stops the walk even when it matches. A
      matched directory is skipped whole (`SkipDir`), a matched file is dropped; anything
      else is emitted, and a directory is then descended into. */
  function WalkNode(base: string, matches: string -> bool, dir: seq<string>, n: Node): (w: Walked)
    ensures forall i :: 0 <= i < |w.entries| ==> !matches(w.entries[i].path)
    decreases n
  {
    var path := Display(base, dir + [n.name]);
    match n
    case Unstattable(_) => Walked([], true)
    case UnreadableDir(_) => Walked([], true)
    case File(_) => if matches(path) then Walked([], false) else Walked([Entry(path, false)], false)
    case Dir(_, children) =>
      if matches(path) then Walked([], false)
      else
        var below := WalkNodes(base, matches, dir + [n.name], children);
        Walked([Entry(path, true)] + below.entries, below.aborted)
  }

  /** The walk over the entries `ns` of the directory reached through `dir`, in order; an
      error in one entry leaves the later ones unvisited. */
  function WalkNodes(base: string, matches: string -> bool, dir: seq<string>, ns: seq<Node>): (w: Walked)
    ensures forall i :: 0 <= i < |w.entries| ==> !matches(w.entries[i].path)
    decreases ns
  {
    if ns == [] then Walked([], false)
    else
      var first := WalkNode(base, matches, dir, ns[0]);
      if first.aborted then first
      else
        var rest := WalkNodes(base, matches, dir, ns[1..]);
        Walked(first.entries + rest.entries, rest.aborted)
  }

  /** The walk of one root whose base name is `base`. The root itself is never matched or
      emitted; an error reported for it stops the walk at once, and a root that is not a
      directory has nothing below it. */
  function WalkRoot(base: string, matches: string -> bool, root: Node): (w: Walked)
    ensures forall i :: 0 <= i < |w.entries| ==> !matches(w.entries[i].path)
  {
    match root
    case Dir(_, children) => WalkNodes(base, matches, [], children)
    case File(_) => Walked([], false)
    case UnreadableDir(_) => Walked([], true)
    case Unstattable(_) => Walked([], true)
  }

  /** The manifest lines of a walk, in visit order. */
  function Manifest(entries: seq<Entry>): (paths: seq<string>)
    ensures |paths| == |entries|
    ensures forall i :: 0 <= i < |entries| ==> paths[i] == entries[i].path
  {
    if entries == [] then [] else [entries[0].path] + Manifest(entries[1..])
  }

  /** The file-path list of a walk: the paths of the entries that are not directories. */
  function FilePaths(entries: seq<Entry>): (paths: seq<string>)
    ensures |paths| <= |entries|
  {
    if entries == [] then []
    else (if entries[0].isDir then [] else [entries[0].path]) + FilePaths(entries[1..])
  }

  // ---------------------------------------------------------------------------
  // Reference definition: all entries in pre-order, then the pruning filter
  // ---------------------------------------------------------------------------

  /** What the reference listing records for an entry. */
  datatype Kind = FileItem | DirItem | FaultItem

  /** An entry of the tree, identified by the names leading to it from the root. */
  datatype Item = Item(names: seq<string>, kind: Kind)

  /** Every entry of `n` (reached through `dir`) in depth-first pre-order, parent before
      children, ignoring the matcher. An entry whose listing or `Lstat` fails is a fault. */
  function Preorder(dir: seq<string>, n: Node): (items: seq<Item>)
    ensures |items| > 0 && items[0].names == dir + [n.name]
    ensures forall i :: 0 <= i < |items| ==> |items[i].names| > |dir| && items[i].names[..|dir| + 1] == dir + [n.name]
    ensures Named(items)
    decreases n
  {
    match n
    case File(name) => [Item(dir + [name], FileItem)]
    case UnreadableDir(name) => [Item(dir + [name], FaultItem)]
    case Unstattable(name) => [Item(dir + [name], FaultItem)]
    case Dir(name, children) =>
      var below := PreorderAll(dir + [name], children);
      assert forall i :: 0 <= i < |below| ==> below[i].names[..|dir| + 1] == dir + [name] by {
        forall i | 0 <= i < |below|
          ensures below[i].names[..|dir| + 1] == dir + [name]
        {
          assert below[i].names[..|dir| + 1] == below[i].names[..|dir + [name]|];
        }
      }
      [Item(dir + [name], DirItem)] + below
  }

  /** The pre-order listings of the entries `ns` of the directory reached through `dir`, in order. */
  function PreorderAll(dir: seq<string>, ns: seq<Node>): (items: seq<Item>)
    ensures forall i :: 0 <= i < |items| ==> |items[i].names| > |dir| && items[i].names[..|dir|] == dir
    ensures Named(items)
    decreases ns
  {
    if ns == [] then []
    else
      var first := Preorder(dir, ns[0]);
      assert forall i :: 0 <= i < |first| ==> first[i].names[..|dir|] == dir by {
        forall i | 0 <= i < |first| ensures first[i].names[..|dir|] == dir {
          assert first[i].names[..|dir|] == first[i].names[..|dir| + 1][..|dir|];
        }
      }
      first + PreorderAll(dir, ns[1..])
  }

  /** Every item of a listing names an entry below the root, or is a fault. */
  predicate Named(items: seq<Item>) {
    forall i :: 0 <= i < |items| ==> items[i].kind == FaultItem || |items[i].names| > 0
  }

  /** Every item names an entry below the root and none is a fault: items that can be emitted. */
  predicate Emittable(items: seq<Item>) {
    forall i :: 0 <= i < |items| ==> items[i].kind != FaultItem && |items[i].names| > 0
  }

  /** The pre-order listing below a root; a root that cannot be listed is itself a fault. */
  function PreorderRoot(root: Node): (items: seq<Item>)
    ensures Named(items)
  {
    match root
    case Dir(_, children) => PreorderAll([], children)
    case File(_) => []
    case UnreadableDir(_) => [Item([], FaultItem)]
    case Unstattable(_) => [Item([], FaultItem)]
  }

  /** No proper ancestor of the entry reached through `names` is matched. */
  predicate Reached(base: string, matches: string -> bool, names: seq<string>) {
    forall k :: 1 <= k < |names| ==> !matches(Display(base, names[..k]))
  }

  /** The entries the walk gets to: those under no matched directory, in order. */
  function Visible(base: string, matches: string -> bool, items: seq<Item>): (r: seq<Item>)
    ensures |r| <= |items|
    ensures Named(items) ==> Named(r)
  {
    if items == [] then []
    else
      var rest := Visible(base, matches, items[1..]);
      assert Named(items) ==> Named(items[1..]) by {
        if Named(items) {
          assert forall i :: 0 <= i < |items[1..]| ==> items[1..][i] == items[i + 1];
        }
      }
      (if Reached(base, matches, items[0].names) then [items[0]] else []) + rest
  }

  /** The emitted items and whether the walk stopped. */
  datatype Trace = Trace(items: seq<Item>, aborted: bool)

  /** Emission along the entries the walk gets to: stop at the first fault, drop matched
      entries, keep the rest. */
  function Emit(base: string, matches: string -> bool, items: seq<Item>): (t: Trace)
    requires Named(items)
    ensures Emittable(t.items)
  {
    if items == [] then Trace([], false)
    else if items[0].kind == FaultItem then Trace([], true)
    else
      assert Named(items[1..]) by {
        assert forall i :: 0 <= i < |items[1..]| ==> items[1..][i] == items[i + 1];
      }
      var rest := Emit(base, matches, items[1..]);
      if matches(Display(base, items[0].names)) then rest
      else Trace([items[0]] + rest.items, rest.aborted)
  }

  /** The manifest entries of emitted items. */
  function EntriesOf(base: string, items: seq<Item>): (es: seq<Entry>)
    requires Emittable(items)
    ensures |es| == |items|
    ensures forall i :: 0 <= i < |items| ==>
      es[i] == Entry(Display(base, items[i].names), items[i].kind == DirItem)
  {
    if items == [] then []
    else
      assert Emittable(items[1..]) by {
        assert forall i :: 0 <= i < |items[1..]| ==> items[1..][i] == items[i + 1];
      }
      [Entry(Display(base, items[0].names), items[0].kind == DirItem)] + EntriesOf(base, items[1..])
  }

  /** The walk result the reference definition describes for a listing. */
  function Reference(base: string, matches: string -> bool, items: seq<Item>): Walked
    requires Named(items)
  {
    var t := Emit(base, matches, Visible(base, matches, items));
    Walked(EntriesOf(base, t.items), t.aborted)
  }

  // ---------------------------------------------------------------------------
  // The walk agrees with the reference definition
  // ---------------------------------------------------------------------------

  /** Which entries the walk gets to does not depend on what is listed around them. */
  lemma {:induction false} VisibleConcat(base: string, matches: string -> bool, a: seq<Item>, b: seq<Item>)
    ensures Visible(base, matches, a + b) == Visible(base, matches, a) + Visible(base, matches, b)
    decreases |a|
  {
    if a == [] {
      assert a + b == b;
    } else {
      assert (a + b)[0] == a[0];
      assert (a + b)[1..] == a[1..] + b;
      VisibleConcat(base, matches, a[1..], b);
      var h := if Reached(base, matches, a[0].names) then [a[0]] else [];
      Associative(h, Visible(base, matches, a[1..]), Visible(base, matches, b));
    }
  }

  /** Concatenated listings are `Named` when both parts are. */
  lemma NamedConcat(a: seq<Item>, b: seq<Item>)
    requires Named(a) && Named(b)
    ensures Named(a + b)
  {
    forall i | 0 <= i < |a + b|
      ensures (a + b)[i].kind == FaultItem || |(a + b)[i].names| > 0
    {
      if i < |a| { assert (a + b)[i] == a[i]; } else { assert (a + b)[i] == b[i - |a|]; }
    }
  }

  /** Emission over `a + b` is emission over `a`, then, unless that stopped, over `b`. */
  lemma {:induction false} EmitConcat(base: string, matches: string -> bool, a: seq<Item>, b: seq<Item>)
    requires Named(a) && Named(b) && Named(a + b)
    ensures Emit(base, matches, a + b) ==
      var ta := Emit(base, matches, a);
      if ta.aborted then ta
      else
        var tb := Emit(base, matches, b);
        Trace(ta.items + tb.items, tb.aborted)
    decreases |a|
  {
    if a == [] {
      assert a + b == b;
    } else {
      assert (a + b)[0] == a[0];
      assert (a + b)[1..] == a[1..] + b;
      if a[0].kind != FaultItem {
        assert Named(a[1..]) by {
          assert forall i :: 0 <= i < |a[1..]| ==> a[1..][i] == a[i + 1];
        }
        NamedConcat(a[1..], b);
        EmitConcat(base, matches, a[1..], b);
        var ta := Emit(base, matches, a[1..]);
        var tb := Emit(base, matches, b);
        Associative([a[0]], ta.items, tb.items);
      }
    }
  }

  /** Manifest entries of concatenated item lists concatenate. */
  lemma EntriesOfConcat(base: string, a: seq<Item>, b: seq<Item>)
    requires Emittable(a) && Emittable(b)
    ensures Emittable(a + b)
    ensures EntriesOf(base, a + b) == EntriesOf(base, a) + EntriesOf(base, b)
  {
    assert Emittable(a + b) by {
      forall i | 0 <= i < |a + b|
        ensures (a + b)[i].kind != FaultItem && |(a + b)[i].names| > 0
      {
        if i < |a| { assert (a + b)[i] == a[i]; } else { assert (a + b)[i] == b[i - |a|]; }
      }
    }
  }

  /** Nothing below a matched directory is reached. */
  lemma {:induction false} NothingVisibleBelowMatched(base: string, matches: string -> bool, p: seq<string>, items: seq<Item>)
    requires |p| > 0 && matches(Display(base, p))
    requires forall i :: 0 <= i < |items| ==> |items[i].names| > |p| && items[i].names[..|p|] == p
    ensures Visible(base, matches, items) == []
    decreases |items|
  {
    if items != [] {
      assert !Reached(base, matches, items[0].names) by {
        assert items[0].names[..|p|] == p;
      }
      assert forall i :: 0 <= i < |items[1..]| ==> items[1..][i] == items[i + 1];
      NothingVisibleBelowMatched(base, matches, p, items[1..]);
    }
  }

  /** No directory on the way to `dir` is matched. */
  predicate OpenPath(base: string, matches: string -> bool, dir: seq<string>) {
    forall k :: 1 <= k <= |dir| ==> !matches(Display(base, dir[..k]))
  }

  /** An entry of a directory the walk descends into is reached, and descending into an
      unmatched directory keeps the path open. */
  lemma ChildOfOpenPath(base: string, matches: string -> bool, dir: seq<string>, name: string)
    requires OpenPath(base, matches, dir)
    ensures Reached(base, matches, dir + [name])
    ensures !matches(Display(base, dir + [name])) ==> OpenPath(base, matches, dir + [name])
  {
    var p := dir + [name];
    assert forall k :: 1 <= k <= |dir| ==> p[..k] == dir[..k];
    assert p[..|p|] == p;
  }

  /** The walk of one entry agrees with the reference definition of its listing. */
  lemma {:induction false} WalkNodeIsReference(base: string, matches: string -> bool, dir: seq<string>, n: Node)
    requires OpenPath(base, matches, dir)
    ensures WalkNode(base, matches, dir, n) == Reference(base, matches, Preorder(dir, n))
    decreases n
  {
    var p := dir + [n.name];
    ChildOfOpenPath(base, matches, dir, n.name);
    var head := Preorder(dir, n)[0];
    assert head.names == p;
    assert Visible(base, matches, [head]) == [head] by {
      assert [head][1..] == [];
    }
    match n
    case File(_) =>
      assert Preorder(dir, n) == [head];
      assert Emit(base, matches, [head]) ==
        if matches(Display(base, p)) then Trace([], false) else Trace([head], false);
    case UnreadableDir(_) =>
      assert Preorder(dir, n) == [head];
    case Unstattable(_) =>
      assert Preorder(dir, n) == [head];
    case Dir(name, children) =>
      var below := PreorderAll(p, children);
      assert Preorder(dir, n) == [head] + below;
      VisibleConcat(base, matches, [head], below);
      if matches(Display(base, p)) {
        NothingVisibleBelowMatched(base, matches, p, below);
        assert [head] + [] == [head];
        assert Emit(base, matches, [head]) == Trace([], false) by {
          assert [head][1..] == [];
        }
      } else {
        WalkNodesIsReference(base, matches, p, children);
        var vis := Visible(base, matches, below);
        assert ([head] + vis)[1..] == vis;
        var t := Emit(base, matches, vis);
        assert Emit(base, matches, [head] + vis) == Trace([head] + t.items, t.aborted);
        EntriesOfConcat(base, [head], t.items);
      }
  }

  /** The walk of a directory's entries agrees with the reference definition of their listing. */
  lemma {:induction false} WalkNodesIsReference(base: string, matches: string -> bool, dir: seq<string>, ns: seq<Node>)
    requires OpenPath(base, matches, dir)
    ensures WalkNodes(base, matches, dir, ns) == Reference(base, matches, PreorderAll(dir, ns))
    decreases ns
  {
    if ns != [] {
      var a := Preorder(dir, ns[0]);
      var b := PreorderAll(dir, ns[1..]);
      assert PreorderAll(dir, ns) == a + b;
      WalkNodeIsReference(base, matches, dir, ns[0]);
      WalkNodesIsReference(base, matches, dir, ns[1..]);
      VisibleConcat(base, matches, a, b);
      var va, vb := Visible(base, matches, a), Visible(base, matches, b);
      NamedConcat(va, vb);
      EmitConcat(base, matches, va, vb);
      var ta, tb := Emit(base, matches, va), Emit(base, matches, vb);
      if !ta.aborted {
        EntriesOfConcat(base, ta.items, tb.items);
      }
    }
  }

  /** The walk of a root is the reference definition: of all entries below the root in
      pre-order, keep those under no matched directory, stop at the first of them that
      reports an error, and emit the unmatched ones. */
  lemma WalkRootIsReference(base: string, matches: string -> bool, root: Node)
    ensures WalkRoot(base, matches, root) == Reference(base, matches, PreorderRoot(root))
  {
    match root
    case Dir(_, children) =>
      WalkNodesIsReference(base, matches, [], children);
    case File(_) =>
    case UnreadableDir(_) =>
      assert Visible(base, matches, PreorderRoot(root)) == PreorderRoot(root);
    case Unstattable(_) =>
      assert Visible(base, matches, PreorderRoot(root)) == PreorderRoot(root);
  }

  // ---------------------------------------------------------------------------
  // Consequences
  // ---------------------------------------------------------------------------

  /** The walk gets only to listed entries under no matched directory. */
  lemma {:induction false} VisibleSound(base: string, matches: string -> bool, items: seq<Item>)
    ensures forall i :: 0 <= i < |Visible(base, matches, items)| ==>
      Visible(base, matches, items)[i] in items && Reached(base, matches, Visible(base, matches, items)[i].names)
    decreases |items|
  {
    if items != [] {
      VisibleSound(base, matches, items[1..]);
    }
  }

  /** Emission keeps only listed, unmatched entries, and stops exactly when a fault is listed. */
  lemma {:induction false} EmitSound(base: string, matches: string -> bool, items: seq<Item>)
    requires Named(items)
    ensures var t := Emit(base, matches, items);
      && (forall i :: 0 <= i < |t.items| ==> t.items[i] in items && !matches(Display(base, t.items[i].names)))
      && (t.aborted <==> exists i :: 0 <= i < |items| && items[i].kind == FaultItem)
    decreases |items|
  {
    if items != [] && items[0].kind != FaultItem {
      assert Named(items[1..]) by {
        assert forall i :: 0 <= i < |items[1..]| ==> items[1..][i] == items[i + 1];
      }
      EmitSound(base, matches, items[1..]);
      assert forall i :: 0 <= i < |items[1..]| ==> items[1..][i] == items[i + 1];
    }
  }

  /** Without faults, emission keeps every unmatched entry. */
  lemma {:induction false} EmitComplete(base: string, matches: string -> bool, items: seq<Item>)
    requires Emittable(items)
    ensures forall it :: it in items && !matches(Display(base, it.names)) ==> it in Emit(base, matches, items).items
    decreases |items|
  {
    if items != [] {
      assert Emittable(items[1..]) by {
        assert forall i :: 0 <= i < |items[1..]| ==> items[1..][i] == items[i + 1];
      }
      EmitComplete(base, matches, items[1..]);
      forall it | it in items && !matches(Display(base, it.names))
        ensures it in Emit(base, matches, items).items
      {
        if it != items[0] {
          assert it in items[1..];
        }
      }
    }
  }

  /** What one root contributes to the document, entry by entry. Each manifest entry stands
      for an entry of the tree below the root (never the root itself, whose name list is
      empty), reported as `Join(Base(root), relPath)`; it is not matched and lies under no
      matched directory, so nothing below a pruned directory is ever emitted; directories and
      files keep their kind. The walk stops exactly when an entry it gets to reports an error. */
  lemma WalkRootCharacterized(base: string, matches: string -> bool, root: Node)
    ensures var w := WalkRoot(base, matches, root);
      var items := PreorderRoot(root);
      var t := Emit(base, matches, Visible(base, matches, items));
      && |w.entries| == |t.items|
      && (forall i :: 0 <= i < |w.entries| ==>
        && t.items[i] in items
        && |t.items[i].names| > 0
        && w.entries[i].path == Display(base, t.items[i].names)
        && w.entries[i].isDir == (t.items[i].kind == DirItem)
        && !matches(w.entries[i].path)
        && Reached(base, matches, t.items[i].names))
      && (w.aborted <==> exists it :: it in Visible(base, matches, items) && it.kind == FaultItem)
  {
    WalkRootIsReference(base, matches, root);
    var items := PreorderRoot(root);
    var vis := Visible(base, matches, items);
    VisibleSound(base, matches, items);
    EmitSound(base, matches, vis);
    var t := Emit(base, matches, vis);
    assert forall i :: 0 <= i < |t.items| ==> t.items[i] in vis;
    assert (exists it :: it in vis && it.kind == FaultItem) <==> (exists i :: 0 <= i < |vis| && vis[i].kind == FaultItem);
  }

  /** When no entry the walk gets to reports an error, every unmatched entry under no matched
      directory is emitted, and the walk does not stop. */
  lemma WalkRootComplete(base: string, matches: string -> bool, root: Node, it: Item)
    requires forall v :: v in Visible(base, matches, PreorderRoot(root)) ==> v.kind != FaultItem
    requires it in PreorderRoot(root) && it.kind != FaultItem
    requires Reached(base, matches, it.names)
    ensures !WalkRoot(base, matches, root).aborted
    ensures !matches(Display(base, it.names)) ==>
      Entry(Display(base, it.names), it.kind == DirItem) in WalkRoot(base, matches, root).entries
  {
    WalkRootIsReference(base, matches, root);
    var items := PreorderRoot(root);
    var vis := Visible(base, matches, items);
    assert Emittable(vis);
    var t := Emit(base, matches, vis);
    assert !t.aborted by {
      EmitSound(base, matches, vis);
    }
    if !matches(Display(base, it.names)) {
      assert it in t.items by {
        VisibleContains(base, matches, items, it);
        EmitComplete(base, matches, vis);
      }
      var i :| 0 <= i < |t.items| && t.items[i] == it;
      assert EntriesOf(base, t.items)[i] == Entry(Display(base, it.names), it.kind == DirItem);
    }
  }

  /** A listed entry under no matched directory is one the walk gets to. */
  lemma {:induction false} VisibleContains(base: string, matches: string -> bool, items: seq<Item>, it: Item)
    requires it in items && Reached(base, matches, it.names)
    ensures it in Visible(base, matches, items)
    decreases |items|
  {
    if it != items[0] {
      assert it in items[1..];
      VisibleContains(base, matches, items[1..], it);
    }
  }

  /** The callback's decision for one entry, seen from its siblings: a matched file or
      directory contributes nothing and the later siblings are still visited, whatever lies
      below the directory; an entry reporting an error stops the walk, matched or not. */
  lemma SiblingRules(base: string, matches: string -> bool, dir: seq<string>, n: Node, rest: seq<Node>)
    ensures (n.File? || n.Dir?) && matches(Display(base, dir + [n.name])) ==>
      WalkNodes(base, matches, dir, [n] + rest) == WalkNodes(base, matches, dir, rest)
    ensures n.UnreadableDir? || n.Unstattable? ==> WalkNodes(base, matches, dir, [n] + rest) == Walked([], true)
  {
    assert ([n] + rest)[0] == n && ([n] + rest)[1..] == rest;
    var w := WalkNodes(base, matches, dir, rest);
    assert [] + w.entries == w.entries;
  }

  // ---------------------------------------------------------------------------
  // Manifest and file-path list
  // ---------------------------------------------------------------------------

  /** Positions of the non-directory entries, in increasing order. */
  function FileIndices(entries: seq<Entry>): (idx: seq<nat>)
    ensures |idx| == |FilePaths(entries)|
    ensures forall k :: 0 <= k < |idx| ==> idx[k] < |entries|
    decreases |entries|
  {
    if entries == [] then []
    else (if entries[0].isDir then [] else [0]) + Shift(FileIndices(entries[1..]))
  }

  /** Every position moved one further along. */
  function Shift(idx: seq<nat>): (r: seq<nat>)
    ensures |r| == |idx|
    ensures forall k :: 0 <= k < |idx| ==> r[k] == idx[k] + 1
  {
    if idx == [] then [] else [idx[0] + 1] + Shift(idx[1..])
  }

  /** `idx` gives, for each line of `paths`, the position of a file entry with that path. */
  predicate LocatesFiles(entries: seq<Entry>, paths: seq<string>, idx: seq<nat>) {
    && |idx| == |paths|
    && forall k :: 0 <= k < |idx| ==>
         idx[k] < |entries| && !entries[idx[k]].isDir && paths[k] == entries[idx[k]].path
  }

  /** Putting an entry in front moves the located positions along, and a file entry in front
      locates the new first line at position 0. */
  lemma LocatesFilesCons(e: Entry, tail: seq<Entry>, paths: seq<string>, idx: seq<nat>)
    requires LocatesFiles(tail, paths, idx)
    ensures LocatesFiles([e] + tail, (if e.isDir then [] else [e.path]) + paths,
                         (if e.isDir then [] else [0]) + Shift(idx))
  {
    var entries := [e] + tail;
    var pre := if e.isDir then [] else [0];
    var fpre := if e.isDir then [] else [e.path];
    var ps, ix := fpre + paths, pre + Shift(idx);
    forall k | 0 <= k < |ix|
      ensures ix[k] < |entries| && !entries[ix[k]].isDir && ps[k] == entries[ix[k]].path
    {
      if k >= |pre| {
        ShiftedAt(pre, idx, k);
        var m := idx[k - |pre|];
        assert entries[m + 1] == tail[m];
      }
    }
  }

  /** The positions of the file entries hold, in order, the lines of the file-path list. */
  lemma {:induction false} FileIndicesSound(entries: seq<Entry>)
    ensures LocatesFiles(entries, FilePaths(entries), FileIndices(entries))
    decreases |entries|
  {
    if entries != [] {
      var tail := entries[1..];
      FileIndicesSound(tail);
      LocatesFilesCons(entries[0], tail, FilePaths(tail), FileIndices(tail));
      assert [entries[0]] + tail == entries;
    }
  }

  /** The positions of the file entries increase. */
  lemma {:induction false} FileIndicesIncrease(entries: seq<Entry>)
    ensures forall k, l :: 0 <= k < l < |FileIndices(entries)| ==>
      FileIndices(entries)[k] < FileIndices(entries)[l]
    decreases |entries|
  {
    if entries != [] {
      var tail := entries[1..];
      FileIndicesIncrease(tail);
      var idx, rest := FileIndices(entries), FileIndices(tail);
      var pre := if entries[0].isDir then [] else [0];
      assert idx == pre + Shift(rest);
      forall k, l | 0 <= k < l < |idx| ensures idx[k] < idx[l] {
        ShiftedAt(pre, rest, l);
        if k >= |pre| { ShiftedAt(pre, rest, k); }
      }
    }
  }

  /** The positions after a prefix are the moved positions. */
  lemma ShiftedAt(pre: seq<nat>, rest: seq<nat>, k: nat)
    requires |pre| <= k < |pre| + |rest|
    ensures (pre + Shift(rest))[k] == rest[k - |pre|] + 1
  {
  }

  /** A position moved along is among the moved positions. */
  lemma ShiftIn(idx: seq<nat>, x: nat)
    requires x in idx
    ensures x + 1 in Shift(idx)
  {
    var k :| 0 <= k < |idx| && idx[k] == x;
    assert Shift(idx)[k] == x + 1;
  }

  /** Every file entry's position is among the positions. */
  lemma {:induction false} FileIndicesComplete(entries: seq<Entry>)
    ensures forall j :: 0 <= j < |entries| && !entries[j].isDir ==> j in FileIndices(entries)
    decreases |entries|
  {
    if entries != [] {
      var tail := entries[1..];
      FileIndicesComplete(tail);
      var idx, rest := FileIndices(entries), FileIndices(tail);
      var pre := if entries[0].isDir then [] else [0];
      assert idx == pre + Shift(rest);
      forall j | 0 <= j < |entries| && !entries[j].isDir
        ensures j in idx
      {
        if j > 0 {
          assert tail[j - 1] == entries[j];
          ShiftIn(rest, j - 1);
        }
      }
    }
  }

  /** The file-path list is the manifest with the directory lines left out: it is picked from
      the manifest at increasing positions, every picked line is a file, and every file line
      is picked. */
  lemma FilePathsPicked(entries: seq<Entry>) returns (idx: seq<nat>)
    ensures Picks(FilePaths(entries), Manifest(entries), idx)
    ensures forall k :: 0 <= k < |idx| ==> !entries[idx[k]].isDir
    ensures forall j :: 0 <= j < |entries| && !entries[j].isDir ==> j in idx
  {
    idx := FileIndices(entries);
    FileIndicesSound(entries);
    FileIndicesIncrease(entries);
    FileIndicesComplete(entries);
  }

  /** The manifest and the file-path list of consecutive walks are the concatenations of
      theirs. */
  lemma ManifestConcat(a: seq<Entry>, b: seq<Entry>)
    ensures Manifest(a + b) == Manifest(a) + Manifest(b)
    ensures FilePaths(a + b) == FilePaths(a) + FilePaths(b)
  {
    ManifestAppend(a, b);
    FilePathsAppend(a, b);
  }

  /** The manifest of consecutive walks is the concatenation of their manifests. */
  lemma {:induction false} ManifestAppend(a: seq<Entry>, b: seq<Entry>)
    ensures Manifest(a + b) == Manifest(a) + Manifest(b)
    decreases |a|
  {
    if a == [] {
      assert a + b == b;
    } else {
      var t := a[1..];
      assert (a + b)[0] == a[0] && (a + b)[1..] == t + b;
      ManifestAppend(t, b);
      Associative([a[0].path], Manifest(t), Manifest(b));
    }
  }

  /** The file-path list of consecutive walks is the concatenation of theirs. */
  lemma {:induction false} FilePathsAppend(a: seq<Entry>, b: seq<Entry>)
    ensures FilePaths(a + b) == FilePaths(a) + FilePaths(b)
    decreases |a|
  {
    if a == [] {
      assert a + b == b;
    } else {
      var t := a[1..];
      assert (a + b)[0] == a[0] && (a + b)[1..] == t + b;
      FilePathsAppend(t, b);
      var h := if a[0].isDir then [] else [a[0].path];
      Associative(h, FilePaths(t), FilePaths(b));
    }
  }

  // ---------------------------------------------------------------------------
  // One root never reports a path twice
  // ---------------------------------------------------------------------------

  /** A snapshot a real directory listing can produce: names of one directory are plain and
      pairwise distinct. */
  predicate WellFormed(n: Node)
    decreases n
  {
    match n
    case Dir(_, children) => WellFormedChildren(children)
    case _ => true
  }

  /** The entries of one directory have plain, pairwise distinct names and well-formed subtrees. */
  predicate WellFormedChildren(ns: seq<Node>)
    decreases ns
  {
    && (forall i :: 0 <= i < |ns| ==> IsPlainName(ns[i].name))
    && (forall i, j :: 0 <= i < j < |ns| ==> ns[i].name != ns[j].name)
    && (forall i :: 0 <= i < |ns| ==> WellFormed(ns[i]))
  }

  /** No two items of a listing name the same entry. */
  predicate DistinctItems(items: seq<Item>) {
    forall i, j :: 0 <= i < j < |items| ==> items[i].names != items[j].names
  }

  /** Every item of a listing is reached through plain names. */
  predicate PlainItems(items: seq<Item>) {
    forall i :: 0 <= i < |items| ==> PlainNames(items[i].names)
  }

  /** Items of the listings of two different sibling entries are different entries. */
  lemma SeparateSiblings(dir: seq<string>, a: seq<Item>, b: seq<Item>, name: string)
    requires forall i :: 0 <= i < |a| ==> |a[i].names| > |dir| && a[i].names[|dir|] == name
    requires forall i :: 0 <= i < |b| ==> |b[i].names| > |dir| && b[i].names[|dir|] != name
    requires DistinctItems(a) && DistinctItems(b)
    ensures DistinctItems(a + b)
  {
    forall i, j | 0 <= i < j < |a + b|
      ensures (a + b)[i].names != (a + b)[j].names
    {
      if i < |a| && j >= |a| {
        assert (a + b)[i].names[|dir|] == name;
        assert (a + b)[j] == b[j - |a|];
      } else if i < |a| {
        assert (a + b)[i] == a[i] && (a + b)[j] == a[j];
      } else {
        assert (a + b)[i] == b[i - |a|] && (a + b)[j] == b[j - |a|];
      }
    }
  }

  /** The listing of a well-formed entry names each entry once, through plain names. */
  lemma {:induction false} PreorderDistinct(dir: seq<string>, n: Node)
    requires PlainNames(dir) && IsPlainName(n.name) && WellFormed(n)
    ensures DistinctItems(Preorder(dir, n)) && PlainItems(Preorder(dir, n))
    decreases n
  {
    var p := dir + [n.name];
    assert PlainNames(p);
    match n
    case File(_) =>
    case UnreadableDir(_) =>
    case Unstattable(_) =>
    case Dir(_, children) =>
      var below := PreorderAll(p, children);
      PreorderAllDistinct(p, children);
      var items := [Item(p, DirItem)] + below;
      assert Preorder(dir, n) == items;
      forall i, j | 0 <= i < j < |items|
        ensures items[i].names != items[j].names
      {
        assert items[j] == below[j - 1];
        if i == 0 {
          assert |items[j].names| > |p|;
        } else {
          assert items[i] == below[i - 1];
        }
      }
      forall i | 0 <= i < |items| ensures PlainNames(items[i].names) {
        if i > 0 { assert items[i] == below[i - 1]; }
      }
  }

  /** The listing of a well-formed directory's entries names each entry once, through plain
      names, and every item lies below one of those entries. */
  lemma {:induction false} PreorderAllDistinct(dir: seq<string>, ns: seq<Node>)
    requires PlainNames(dir) && WellFormedChildren(ns)
    ensures DistinctItems(PreorderAll(dir, ns)) && PlainItems(PreorderAll(dir, ns))
    ensures forall i :: 0 <= i < |PreorderAll(dir, ns)| ==>
      exists k :: 0 <= k < |ns| && PreorderAll(dir, ns)[i].names[|dir|] == ns[k].name
    decreases ns
  {
    if ns != [] {
      var a := Preorder(dir, ns[0]);
      var b := PreorderAll(dir, ns[1..]);
      assert WellFormedChildren(ns[1..]) by {
        assert forall i :: 0 <= i < |ns[1..]| ==> ns[1..][i] == ns[i + 1];
      }
      PreorderDistinct(dir, ns[0]);
      PreorderAllDistinct(dir, ns[1..]);
      forall i | 0 <= i < |a| ensures a[i].names[|dir|] == ns[0].name {
        assert a[i].names[..|dir| + 1] == dir + [ns[0].name];
        assert a[i].names[|dir|] == a[i].names[..|dir| + 1][|dir|];
      }
      forall i | 0 <= i < |b| ensures b[i].names[|dir|] != ns[0].name {
        var k :| 0 <= k < |ns[1..]| && b[i].names[|dir|] == ns[1..][k].name;
        assert ns[1..][k] == ns[k + 1];
      }
      SeparateSiblings(dir, a, b, ns[0].name);
      var items := a + b;
      assert PreorderAll(dir, ns) == items;
      forall i | 0 <= i < |items|
        ensures PlainNames(items[i].names)
        ensures exists k :: 0 <= k < |ns| && items[i].names[|dir|] == ns[k].name
      {
        if i < |a| {
          assert items[i] == a[i];
          assert items[i].names[|dir|] == ns[0].name;
        } else {
          assert items[i] == b[i - |a|];
          var k :| 0 <= k < |ns[1..]| && b[i - |a|].names[|dir|] == ns[1..][k].name;
          assert ns[1..][k] == ns[k + 1];
        }
      }
    }
  }

  /** The tail of a distinct listing is distinct and does not name its head. */
  lemma TailDistinct(items: seq<Item>)
    requires |items| > 0 && DistinctItems(items)
    ensures DistinctItems(items[1..])
    ensures forall x :: x in items[1..] ==> x.names != items[0].names
  {
    assert forall i :: 0 <= i < |items[1..]| ==> items[1..][i] == items[i + 1];
  }

  /** A head whose entry the distinct tail does not name keeps the listing distinct. */
  lemma ConsDistinct(h: seq<Item>, rest: seq<Item>)
    requires |h| <= 1 && DistinctItems(rest)
    requires forall i, x :: 0 <= i < |h| && x in rest ==> x.names != h[i].names
    ensures DistinctItems(h + rest)
  {
    forall i, j | 0 <= i < j < |h + rest|
      ensures (h + rest)[i].names != (h + rest)[j].names
    {
      assert (h + rest)[j] == rest[j - |h|];
      if i >= |h| { assert (h + rest)[i] == rest[i - |h|]; }
      else { assert (h + rest)[j] in rest; }
    }
  }

  /** Keeping some items of a listing, in order, keeps them distinct. */
  lemma {:induction false} VisibleDistinct(base: string, matches: string -> bool, items: seq<Item>)
    requires DistinctItems(items)
    ensures DistinctItems(Visible(base, matches, items))
    decreases |items|
  {
    if items != [] {
      var rest := items[1..];
      TailDistinct(items);
      VisibleDistinct(base, matches, rest);
      VisibleSound(base, matches, rest);
      var vr := Visible(base, matches, rest);
      var h := if Reached(base, matches, items[0].names) then [items[0]] else [];
      assert Visible(base, matches, items) == h + vr;
      assert forall x :: x in vr ==> x in rest;
      ConsDistinct(h, vr);
    }
  }

  /** Emission keeps some items of a listing, in order, so keeps them distinct. */
  lemma {:induction false} EmitDistinct(base: string, matches: string -> bool, items: seq<Item>)
    requires Named(items) && DistinctItems(items)
    ensures DistinctItems(Emit(base, matches, items).items)
    decreases |items|
  {
    if items != [] && items[0].kind != FaultItem {
      var rest := items[1..];
      TailDistinct(items);
      assert Named(rest) by {
        assert forall i :: 0 <= i < |rest| ==> rest[i] == items[i + 1];
      }
      EmitDistinct(base, matches, rest);
      EmitSound(base, matches, rest);
      var tr := Emit(base, matches, rest).items;
      assert forall x :: x in tr ==> x in rest;
      if !matches(Display(base, items[0].names)) {
        ConsDistinct([items[0]], tr);
      }
    }
  }

  /** Within one well-formed root, no path appears twice in the manifest. */
  lemma WalkRootPathsDistinct(base: string, matches: string -> bool, root: Node)
    requires WellFormed(root)
    ensures Distinct(Manifest(WalkRoot(base, matches, root).entries))
  {
    var items := PreorderRoot(root);
    match root {
      case Dir(_, children) => PreorderAllDistinct([], children);
      case File(_) =>
      case UnreadableDir(_) =>
      case Unstattable(_) =>
    }
    assert DistinctItems(items) && PlainItems(items);
    var vis := Visible(base, matches, items);
    VisibleDistinct(base, matches, items);
    VisibleSound(base, matches, items);
    EmitDistinct(base, matches, vis);
    EmitSound(base, matches, vis);
    var t := Emit(base, matches, vis);
    WalkRootIsReference(base, matches, root);
    var paths := Manifest(WalkRoot(base, matches, root).entries);
    forall i, j | 0 <= i < j < |paths|
      ensures paths[i] != paths[j]
    {
      var a, b := t.items[i], t.items[j];
      assert a in vis && b in vis;
      assert a in items && b in items;
      assert PlainNames(a.names) && PlainNames(b.names);
      assert paths[i] == Display(base, a.names) && paths[j] == Display(base, b.names);
      if paths[i] == paths[j] {
        DisplayInjective(base, a.names, b.names);
      }
    }
  }

  // ---------------------------------------------------------------------------
  // Characters of reported paths
  // ---------------------------------------------------------------------------

  /** No name in the tree contains `c`. */
  predicate FreeOf(n: Node, c: char)
    decreases n
  {
    && c !in n.name
    && match n
       case Dir(_, children) => forall i :: 0 <= i < |children| ==> FreeOf(children[i], c)
       case _ => true
  }

  /** No name any item is reached through contains `c`. */
  predicate ItemsFreeOf(items: seq<Item>, c: char) {
    forall i, k :: 0 <= i < |items| && 0 <= k < |items[i].names| ==> c !in items[i].names[k]
  }

  /** Listing a tree free of `c` below names free of `c` reaches items only through names
      free of `c`. */
  lemma {:induction false} PreorderFreeOf(dir: seq<string>, n: Node, c: char)
    requires forall k :: 0 <= k < |dir| ==> c !in dir[k]
    requires FreeOf(n, c)
    ensures ItemsFreeOf(Preorder(dir, n), c)
    decreases n
  {
    var p := dir + [n.name];
    assert forall k :: 0 <= k < |p| ==> c !in p[k];
    match n
    case File(_) =>
    case UnreadableDir(_) =>
    case Unstattable(_) =>
    case Dir(_, children) =>
      PreorderAllFreeOf(p, children, c);
      assert Preorder(dir, n) == [Item(p, DirItem)] + PreorderAll(p, children);
  }

  /** `PreorderFreeOf` for the entries of one directory. */
  lemma {:induction false} PreorderAllFreeOf(dir: seq<string>, ns: seq<Node>, c: char)
    requires forall k :: 0 <= k < |dir| ==> c !in dir[k]
    requires forall i :: 0 <= i < |ns| ==> FreeOf(ns[i], c)
    ensures ItemsFreeOf(PreorderAll(dir, ns), c)
    decreases ns
  {
    if ns != [] {
      PreorderFreeOf(dir, ns[0], c);
      assert forall i :: 0 <= i < |ns[1..]| ==> ns[1..][i] == ns[i + 1];
      PreorderAllFreeOf(dir, ns[1..], c);
      var a, b := Preorder(dir, ns[0]), PreorderAll(dir, ns[1..]);
      var all: seq<Item> := a + b;
      assert PreorderAll(dir, ns) == all;
      forall i, k | 0 <= i < |all| && 0 <= k < |all[i].names|
        ensures c !in all[i].names[k]
      {
        if i < |a| { assert all[i] == a[i]; } else { assert all[i] == b[i - |a|]; }
      }
    }
  }

  /** A well-formed root whose base and names are free of a character other than the
      separator reports only non-empty paths free of that character. */
  lemma WalkRootPathsFreeOf(base: string, matches: string -> bool, root: Node, c: char)
    requires WellFormed(root) && FreeOf(root, c) && c != '/' && c !in base
    ensures forall i :: 0 <= i < |WalkRoot(base, matches, root).entries| ==>
      var p := WalkRoot(base, matches, root).entries[i].path;
      p != [] && c !in p
  {
    var items := PreorderRoot(root);
    match root {
      case Dir(_, children) =>
        PreorderAllDistinct([], children);
        PreorderAllFreeOf([], children, c);
      case File(_) =>
      case UnreadableDir(_) =>
      case Unstattable(_) =>
    }
    assert PlainItems(items) && ItemsFreeOf(items, c);
    WalkRootCharacterized(base, matches, root);
    var w := WalkRoot(base, matches, root);
    var t := Emit(base, matches, Visible(base, matches, items));
    forall i | 0 <= i < |w.entries| ensures w.entries[i].path != [] && c !in w.entries[i].path {
      var it := t.items[i];
      var j :| 0 <= j < |items| && items[j] == it;
      assert PlainNames(it.names);
      assert forall k :: 0 <= k < |it.names| ==> c !in it.names[k];
      DisplayNonEmpty(base, it.names);
      DisplayChars(base, it.names, c);
    }
  }
}
