/** `filepath.Clean` and the two-argument `filepath.Join` on slash-separated paths, enough to
    say where a name joined to an absolute working directory ends up. */
module Cleaning {
  import opened Wrappers
  import opened Text
  import opened Sequences
  import opened Paths

  /** The pieces of `p` between separators, in order (`strings.Split(p, "/")`). */
  function Split(p: string): (es: seq<string>)
    ensures |es| > 0
    decreases |p|
  {
    match IndexOf(p, '/')
    case None => [p]
    case Some(k) => [p[..k]] + Split(p[k + 1..])
  }

  /** The elements `filepath.Clean` keeps of `es`, added to `acc`: empty and "." elements
      go, ".." removes the element before it; a ".." with nothing to remove goes in a rooted
      path and is kept otherwise. */
  function CleanElems(es: seq<string>, rooted: bool, acc: seq<string>): seq<string>
    decreases |es|
  {
    if es == [] then acc
    else if es[0] == [] || es[0] == "." then CleanElems(es[1..], rooted, acc)
    else if es[0] == ".." then
      if |acc| > 0 && acc[|acc| - 1] != ".." then CleanElems(es[1..], rooted, acc[..|acc| - 1])
      else if rooted then CleanElems(es[1..], rooted, acc)
      else CleanElems(es[1..], rooted, acc + [".."])
    else CleanElems(es[1..], rooted, acc + [es[0]])
  }

  /** `filepath.Clean`: the shortest equivalent path. "." for a path that cleans to nothing,
      and a rooted path stays rooted. */
  function Clean(p: string): (c: string)
    ensures c != []
  {
    if p == [] then "."
    else
      var es := CleanElems(Split(p), p[0] == '/', []);
      var body := if es == [] then [] else RelPath(es);
      if p[0] == '/' then "/" + body else if body == [] then "." else body
  }

  /** `filepath.Join(a, b)`: the non-empty arguments joined by a separator, then cleaned. An
      absolute `b` is not treated specially. */
  function Join(a: string, b: string): (j: string)
    ensures j == [] <==> a == [] && b == []
  {
    if a == [] && b == [] then []
    else if a == [] then Clean(b)
    else if b == [] then Clean(a)
    else Clean(a + "/" + b)
  }

  /** A separator-free piece followed by a separator is split off first. */
  lemma SplitAfter(a: string, rest: string)
    requires '/' !in a
    ensures Split(a + "/" + rest) == [a] + Split(rest)
  {
    assert forall i :: 0 <= i < |a| ==> a[i] != '/';
    IndexOfAfter(a, '/', rest);
    Parts(a, "/", rest);
  }

  /** Moving the separator-joined tail `b + "/" + r` of a path under one head. */
  lemma Regroup3(a: string, b: string, r: string)
    ensures a + "/" + b + "/" + r == a + "/" + (b + "/" + r)
  {
    Associative(a + "/", b, "/" + r);
    Associative(b, "/", r);
    Associative(a + "/" + b, "/", r);
  }

  /** The names before the last of plain names are plain. */
  lemma PlainInit(cs: seq<string>)
    requires |cs| > 0 && PlainNames(cs)
    ensures PlainNames(cs[..|cs| - 1]) && IsPlainName(cs[|cs| - 1])
  {
    var init := cs[..|cs| - 1];
    assert forall i :: 0 <= i < |init| ==> init[i] == cs[i];
  }

  /** A relative path of plain names followed by a separator splits into its names first. */
  lemma {:induction false} SplitRelPath(cs: seq<string>, rest: string)
    requires |cs| > 0 && PlainNames(cs)
    ensures Split(RelPath(cs) + "/" + rest) == cs + Split(rest)
    decreases |cs|
  {
    PlainInit(cs);
    if |cs| == 1 {
      SplitAfter(cs[0], rest);
    } else {
      var last := cs[|cs| - 1];
      SplitRelPath(cs[..|cs| - 1], last + "/" + rest);
      SplitRelPathStep(cs, rest);
    }
  }

  /** Splitting after the names before the last, then after the last. */
  lemma SplitRelPathStep(cs: seq<string>, rest: string)
    requires |cs| > 1 && IsPlainName(cs[|cs| - 1])
    requires var init, last := cs[..|cs| - 1], cs[|cs| - 1];
      Split(RelPath(init) + "/" + (last + "/" + rest)) == init + Split(last + "/" + rest)
    ensures Split(RelPath(cs) + "/" + rest) == cs + Split(rest)
  {
    var init, last := cs[..|cs| - 1], cs[|cs| - 1];
    assert RelPath(cs) == RelPath(init) + "/" + last;
    Regroup3(RelPath(init), last, rest);
    SplitAfter(last, rest);
    assert init + [last] == cs;
    Associative(init, [last], Split(rest));
  }

  /** A relative path of plain names splits into its names. */
  lemma SplitOfRelPath(cs: seq<string>)
    requires |cs| > 0 && PlainNames(cs)
    ensures Split(RelPath(cs)) == cs
  {
    PlainInit(cs);
    var last := cs[|cs| - 1];
    SplitPlain(last);
    if |cs| == 1 {
      assert RelPath(cs) == last && cs == [last];
    } else {
      var init := cs[..|cs| - 1];
      SplitRelPath(init, last);
      SplitOfRelPathStep(cs);
    }
  }

  /** The last step of `SplitOfRelPath`: the names before the last, then the last. */
  lemma SplitOfRelPathStep(cs: seq<string>)
    requires |cs| > 1 && '/' !in cs[|cs| - 1]
    requires Split(RelPath(cs[..|cs| - 1]) + "/" + cs[|cs| - 1]) == cs[..|cs| - 1] + Split(cs[|cs| - 1])
    ensures Split(RelPath(cs)) == cs
  {
    var init, last := cs[..|cs| - 1], cs[|cs| - 1];
    assert RelPath(cs) == RelPath(init) + "/" + last;
    SplitPlain(last);
    assert init + [last] == cs;
  }

  /** A piece without separators is not split. */
  lemma SplitPlain(x: string)
    requires '/' !in x
    ensures Split(x) == [x]
  {
    assert IndexOf(x, '/') == None;
  }

  /** Cleaning a concatenation of element lists cleans the first, then the second. */
  lemma {:induction false} CleanElemsConcat(a: seq<string>, b: seq<string>, rooted: bool, acc: seq<string>)
    ensures CleanElems(a + b, rooted, acc) == CleanElems(b, rooted, CleanElems(a, rooted, acc))
    decreases |a|
  {
    if a == [] {
      assert a + b == b;
    } else {
      assert (a + b)[0] == a[0] && (a + b)[1..] == a[1..] + b;
      var e := a[0];
      var next :=
        if e == [] || e == "." then acc
        else if e == ".." then
          if |acc| > 0 && acc[|acc| - 1] != ".." then acc[..|acc| - 1]
          else if rooted then acc
          else acc + [".."]
        else acc + [e];
      CleanElemsConcat(a[1..], b, rooted, next);
    }
  }

  /** Plain names are all kept. */
  lemma {:induction false} CleanElemsPlain(cs: seq<string>, rooted: bool, acc: seq<string>)
    requires PlainNames(cs)
    ensures CleanElems(cs, rooted, acc) == acc + cs
    decreases |cs|
  {
    if cs != [] {
      assert IsPlainName(cs[0]);
      assert PlainNames(cs[1..]) by {
        assert forall i :: 0 <= i < |cs[1..]| ==> cs[1..][i] == cs[i + 1];
      }
      CleanElemsPlain(cs[1..], rooted, acc + [cs[0]]);
      assert acc + [cs[0]] + cs[1..] == acc + cs by {
        Associative(acc, [cs[0]], cs[1..]);
        assert [cs[0]] + cs[1..] == cs;
      }
    }
  }

  /** The relative path of two name lists in a row is theirs joined by a separator. */
  lemma {:induction false} RelPathConcat(ds: seq<string>, cs: seq<string>)
    requires |ds| > 0 && |cs| > 0
    ensures RelPath(ds + cs) == RelPath(ds) + "/" + RelPath(cs)
    decreases |cs|
  {
    var all := ds + cs;
    var last := cs[|cs| - 1];
    assert all[|all| - 1] == last;
    if |cs| == 1 {
      assert all[..|all| - 1] == ds;
    } else {
      var init := cs[..|cs| - 1];
      assert all[..|all| - 1] == ds + init;
      RelPathConcat(ds, init);
      Associative(RelPath(ds) + "/", RelPath(init), "/" + last);
      Associative(RelPath(init), "/", last);
      Associative(RelPath(ds) + "/" + RelPath(init), "/", last);
    }
  }

  /** The absolute path of plain names `cs`. */
  function Absolute(cs: seq<string>): string
    requires |cs| > 0
  {
    "/" + RelPath(cs)
  }

  /** A leading separator splits off an empty first piece. */
  lemma SplitRooted(x: string)
    ensures Split("/" + x) == [[]] + Split(x)
  {
    assert [] + "/" + x == "/" + x;
    SplitAfter([], x);
  }

  /** The empty first piece of a rooted path is cleaned away. */
  lemma CleanElemsRooted(es: seq<string>, acc: seq<string>)
    ensures CleanElems([[]] + es, true, acc) == CleanElems(es, true, acc)
  {
    CleanElemsConcat([[]], es, true, acc);
    assert CleanElems([[]], true, acc) == acc;
  }

  /** A rooted path whose pieces clean to plain names cleans to the absolute path of them. */
  lemma CleanOfRooted(x: string, cs: seq<string>)
    requires |cs| > 0
    requires CleanElems(Split("/" + x), true, []) == cs
    ensures Clean("/" + x) == Absolute(cs)
  {
    assert ("/" + x)[0] == '/';
  }

  /** An absolute path of plain names is already clean. */
  lemma CleanAbsolute(cs: seq<string>)
    requires |cs| > 0 && PlainNames(cs)
    ensures Clean(Absolute(cs)) == Absolute(cs)
  {
    SplitRooted(RelPath(cs));
    SplitOfRelPath(cs);
    CleanElemsRooted(cs, []);
    CleanElemsPlain(cs, true, []);
    CleanOfRooted(RelPath(cs), cs);
  }

  /** Joined by a separator, two absolute paths are one rooted path with a doubled
      separator between the parts. */
  lemma AbsoluteJoinedText(rd: string, rc: string)
    ensures "/" + rd + "/" + ("/" + rc) == "/" + (rd + "/" + ("/" + rc))
  {
    Associative("/" + rd, "/", "/" + rc);
    Associative("/", rd, "/" + ("/" + rc));
    Associative(rd, "/", "/" + rc);
  }

  /** The pieces of that rooted path: an empty one, the first names, an empty one for the
      doubled separator, the second names. */
  lemma AbsoluteJoinedSplit(ds: seq<string>, cs: seq<string>)
    requires |ds| > 0 && |cs| > 0 && PlainNames(ds) && PlainNames(cs)
    ensures Split("/" + (RelPath(ds) + "/" + ("/" + RelPath(cs)))) == [[]] + (ds + ([[]] + cs))
  {
    SplitRooted(RelPath(ds) + "/" + ("/" + RelPath(cs)));
    SplitRelPath(ds, "/" + RelPath(cs));
    SplitRooted(RelPath(cs));
    SplitOfRelPath(cs);
  }

  /** Those pieces clean to the names alone. */
  lemma AbsoluteJoinedElems(ds: seq<string>, cs: seq<string>)
    requires PlainNames(ds) && PlainNames(cs)
    ensures CleanElems([[]] + (ds + ([[]] + cs)), true, []) == ds + cs
  {
    CleanElemsRooted(ds + ([[]] + cs), []);
    CleanElemsConcat(ds, [[]] + cs, true, []);
    CleanElemsPlain(ds, true, []);
    assert [] + ds == ds;
    CleanElemsRooted(cs, ds);
    CleanElemsPlain(cs, true, ds);
  }

  /** Joining an absolute path of plain names under another one nests it there: the
      separator it starts with is cleaned away like a doubled separator. */
  lemma JoinAbsolute(ds: seq<string>, cs: seq<string>)
    requires |ds| > 0 && |cs| > 0 && PlainNames(ds) && PlainNames(cs)
    ensures Join(Absolute(ds), Absolute(cs)) == Absolute(ds) + Absolute(cs)
    ensures Join(Absolute(ds), Absolute(cs)) == Absolute(ds + cs)
  {
    var x := RelPath(ds) + "/" + ("/" + RelPath(cs));
    AbsoluteJoinedText(RelPath(ds), RelPath(cs));
    assert Join(Absolute(ds), Absolute(cs)) == Clean("/" + x);
    AbsoluteJoinedSplit(ds, cs);
    AbsoluteJoinedElems(ds, cs);
    CleanOfRooted(x, ds + cs);
    AbsoluteConcat(ds, cs);
  }

  /** The absolute path of two name lists in a row is the first absolute path followed by
      the second. */
  lemma AbsoluteConcat(ds: seq<string>, cs: seq<string>)
    requires |ds| > 0 && |cs| > 0
    ensures Absolute(ds + cs) == Absolute(ds) + Absolute(cs)
  {
    RelPathConcat(ds, cs);
    Associative("/", RelPath(ds) + "/", RelPath(cs));
    Associative("/" + RelPath(ds), "/", RelPath(cs));
  }

  /** A relative path of plain names starts with its first name, not with a separator. */
  lemma {:induction false} RelPathNotRooted(cs: seq<string>)
    requires |cs| > 0 && PlainNames(cs)
    ensures RelPath(cs) != [] && RelPath(cs)[0] == cs[0][0] != '/'
    decreases |cs|
  {
    assert IsPlainName(cs[0]);
    assert cs[0][0] in cs[0];
    if |cs| > 1 {
      PlainInit(cs);
      RelPathNotRooted(cs[..|cs| - 1]);
    }
  }

  /** Plain names followed by plain names are plain names. */
  lemma PlainNamesConcat(ds: seq<string>, cs: seq<string>)
    requires PlainNames(ds) && PlainNames(cs)
    ensures PlainNames(ds + cs)
  {
    forall i | 0 <= i < |ds + cs| ensures IsPlainName((ds + cs)[i]) {
      if i < |ds| { assert (ds + cs)[i] == ds[i]; } else { assert (ds + cs)[i] == cs[i - |ds|]; }
    }
  }

  /** An absolute path followed by a separator and a relative path is the absolute path of
      all the names. */
  lemma AbsoluteThenRelative(ds: seq<string>, cs: seq<string>)
    requires |ds| > 0 && |cs| > 0
    ensures Absolute(ds) + "/" + RelPath(cs) == Absolute(ds + cs)
  {
    RelPathConcat(ds, cs);
    Associative("/", RelPath(ds) + "/", RelPath(cs));
    Associative("/" + RelPath(ds), "/", RelPath(cs));
  }

  /** Joined under an absolute path of plain names, a relative path of plain names is the
      absolute path of all the names. */
  lemma JoinRelative(ds: seq<string>, cs: seq<string>)
    requires |ds| > 0 && |cs| > 0 && PlainNames(ds) && PlainNames(cs)
    ensures Join(Absolute(ds), RelPath(cs)) == Absolute(ds + cs)
  {
    RelPathNotRooted(cs);
    AbsoluteThenRelative(ds, cs);
    PlainNamesConcat(ds, cs);
    CleanAbsolute(ds + cs);
  }
}
