/** Slash-separated path strings: `filepath.Base`, and `filepath.Join` in the one shape the
    walk uses it, `Join(Base(root), rel)` with `rel` built from directory-listing names. */
module Paths {

  /** A name a directory listing can return: non-empty, without a separator, and
      neither "." nor "..". `filepath.Clean` leaves paths built from such names alone. */
  predicate IsPlainName(n: string) {
    n != [] && '/' !in n && n != "." && n != ".."
  }

  /** Length of `p` once its trailing separators are removed. */
  function WithoutTrailingSlashes(p: string): (n: nat)
    ensures n <= |p|
    ensures forall i :: n <= i < |p| ==> p[i] == '/'
    ensures n == 0 || p[n - 1] != '/'
  {
    if |p| > 0 && p[|p| - 1] == '/' then WithoutTrailingSlashes(p[..|p| - 1]) else |p|
  }

  /** Start of the last element of `p`: one past its last separator, or 0 when there is none. */
  function LastElementStart(p: string): (k: nat)
    ensures k <= |p|
    ensures forall i :: k <= i < |p| ==> p[i] != '/'
    ensures k == 0 || p[k - 1] == '/'
  {
    if |p| == 0 then 0
    else if p[|p| - 1] == '/' then |p|
    else LastElementStart(p[..|p| - 1])
  }

  /** `filepath.Base`: the last element of `path` after trailing separators are removed;
      "." for the empty path and "/" for a path made only of separators. */
  function Base(path: string): (b: string)
    ensures b != []
    ensures '/' in b ==> b == "/"
    ensures path == [] ==> b == "."
    ensures path != [] && (forall i :: 0 <= i < |path| ==> path[i] == '/') ==> b == "/"
  {
    if path == [] then "."
    else
      var p := path[..WithoutTrailingSlashes(path)];
      if p == [] then "/" else p[LastElementStart(p)..]
  }

  /** The base of `dir/name` is `name`, for any name without a separator. */
  lemma BaseOfChild(dir: string, name: string)
    requires name != [] && '/' !in name
    ensures Base(dir + "/" + name) == name
  {
    var path := dir + "/" + name;
    assert path[|path| - 1] == name[|name| - 1];
    assert WithoutTrailingSlashes(path) == |path|;
    assert path[..|path|] == path;
    assert path[|dir|] == '/';
    assert forall i :: |dir| < i < |path| ==> path[i] != '/' by {
      forall i | |dir| < i < |path| ensures path[i] != '/' {
        assert path[i] == name[i - |dir| - 1];
      }
    }
    assert path[|dir| + 1..] == name;
  }

  /** The base of a plain name is the name itself. */
  lemma BaseOfName(name: string)
    requires name != [] && '/' !in name
    ensures Base(name) == name
  {
    assert name[|name| - 1] in name;
    assert WithoutTrailingSlashes(name) == |name|;
    assert name[..|name|] == name;
    assert forall i :: 0 <= i < |name| ==> name[i] != '/';
  }

  /** `filepath.Rel(root, path)` for an entry below the root whose names from the root down
      are `cs`: the names joined by separators. */
  function RelPath(cs: seq<string>): (r: string)
    requires |cs| > 0
  {
    if |cs| == 1 then cs[0] else RelPath(cs[..|cs| - 1]) + "/" + cs[|cs| - 1]
  }

  /** `filepath.Join(base, rel)` where `base` is a result of `Base` and `rel` is a clean
      relative path: "." contributes nothing and "/" is not doubled. */
  function JoinBase(base: string, rel: string): (r: string)
    ensures base == "." ==> r == rel
    ensures base != "." ==> |r| > |rel| && r[|r| - |rel|..] == rel
  {
    if base == "." then rel
    else if base == "/" then "/" + rel
    else base + "/" + rel
  }

  /** The path the walk reports for the entry reached through names `cs` below a root
      whose base is `base`: `filepath.Join(filepath.Base(root), relPath)`. */
  function Display(base: string, cs: seq<string>): string
    requires |cs| > 0
  {
    JoinBase(base, RelPath(cs))
  }

  /** Every name of `cs` is one a directory listing can return. */
  predicate PlainNames(cs: seq<string>) {
    forall i :: 0 <= i < |cs| ==> IsPlainName(cs[i])
  }

  /** The relative path of plain names determines the names: its base is the last name and
      what precedes the last separator is the relative path of the others. */
  lemma {:induction false} RelPathInjective(a: seq<string>, b: seq<string>)
    requires |a| > 0 && |b| > 0 && PlainNames(a) && PlainNames(b)
    requires RelPath(a) == RelPath(b)
    ensures a == b
    decreases |a|
  {
    var s := RelPath(a);
    var la, lb := a[|a| - 1], b[|b| - 1];
    BaseOfRelPath(a);
    BaseOfRelPath(b);
    assert la == lb;
    SeparatorInRelPath(a);
    SeparatorInRelPath(b);
    if |a| == 1 {
      assert |b| == 1;
    } else {
      var ia, ib := a[..|a| - 1], b[..|b| - 1];
      assert RelPath(ia) == s[..|s| - |la| - 1];
      assert RelPath(ib) == s[..|s| - |lb| - 1];
      assert PlainNames(ia) && PlainNames(ib);
      RelPathInjective(ia, ib);
      assert a == ia + [la] && b == ib + [lb];
    }
  }

  /** A relative path of plain names has a separator exactly when it has more than one name. */
  lemma SeparatorInRelPath(cs: seq<string>)
    requires |cs| > 0 && PlainNames(cs)
    ensures '/' in RelPath(cs) <==> |cs| > 1
  {
    if |cs| > 1 {
      var s := RelPath(cs);
      assert s[|RelPath(cs[..|cs| - 1])|] == '/';
    }
  }

  /** The base of a relative path of plain names is its last name. */
  lemma BaseOfRelPath(cs: seq<string>)
    requires |cs| > 0 && PlainNames(cs)
    ensures Base(RelPath(cs)) == cs[|cs| - 1]
  {
    if |cs| == 1 {
      BaseOfName(cs[0]);
    } else {
      BaseOfChild(RelPath(cs[..|cs| - 1]), cs[|cs| - 1]);
    }
  }

  /** Distinct name paths below one root are reported as distinct paths. */
  lemma DisplayInjective(base: string, a: seq<string>, b: seq<string>)
    requires |a| > 0 && |b| > 0 && PlainNames(a) && PlainNames(b)
    requires Display(base, a) == Display(base, b)
    ensures a == b
  {
    var ra, rb := RelPath(a), RelPath(b);
    if base == "." {
    } else if base == "/" {
      assert ra == ("/" + ra)[1..] && rb == ("/" + rb)[1..];
    } else {
      assert ra == (base + "/" + ra)[|base| + 1..];
      assert rb == (base + "/" + rb)[|base| + 1..];
    }
    RelPathInjective(a, b);
  }

  /** A reported path contains a character only if the base or one of the names does,
      or it is the separator. */
  lemma {:induction false} DisplayChars(base: string, cs: seq<string>, c: char)
    requires |cs| > 0 && c != '/' && c !in base
    requires forall i :: 0 <= i < |cs| ==> c !in cs[i]
    ensures c !in Display(base, cs)
  {
    RelPathChars(cs, c);
  }

  /** A relative path contains a character other than the separator only if a name does. */
  lemma {:induction false} RelPathChars(cs: seq<string>, c: char)
    requires |cs| > 0 && c != '/'
    requires forall i :: 0 <= i < |cs| ==> c !in cs[i]
    ensures c !in RelPath(cs)
    decreases |cs|
  {
    if |cs| > 1 {
      RelPathChars(cs[..|cs| - 1], c);
    }
  }

  /** A reported path of plain names is never empty. */
  lemma {:induction false} DisplayNonEmpty(base: string, cs: seq<string>)
    requires |cs| > 0 && PlainNames(cs)
    ensures Display(base, cs) != []
  {
    assert |RelPath(cs)| > 0 by {
      if |cs| == 1 {
        assert IsPlainName(cs[0]);
      }
    }
  }
}
