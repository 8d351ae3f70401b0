/** std::filesystem::path on a POSIX host, as far as linux_file_system.hpp uses it: iteration over
    elements, lexically_normal, lexically_relative and operator/. */
module HostPath {
  import G = GuestPath

  /** A root directory, the file names, and whether a separator follows the last name. */
  datatype Path = Path(rooted: bool, names: seq<string>, trailing: bool)

  const EMPTY: Path := Path(false, [], false)
  const DOT: Path := Path(false, ["."], false)

  ghost predicate Ok(p: Path) {
    && (forall i :: 0 <= i < |p.names| ==> p.names[i] != "" && '/' !in p.names[i])
    && (p.trailing ==> p.names != [])
  }

  /** What begin() to end() visits: the root, the names, an empty element for a trailing separator. */
  function Elements(p: Path): seq<string> {
    (if p.rooted then ["/"] else []) + p.names + (if p.trailing then [""] else [])
  }

  function NonEmpty(cs: seq<string>): (r: seq<string>)
    ensures forall i :: 0 <= i < |r| ==> r[i] != "" && r[i] in cs
  {
    if cs == [] then [] else (if cs[0] == "" then [] else [cs[0]]) + NonEmpty(cs[1..])
  }

  /** The path a string denotes; only '/' separates. */
  function Parse(s: string): Path {
    var names := NonEmpty(G.Split(s));
    Path(s != "" && s[0] == '/', names, s != "" && names != [] && s[|s| - 1] == '/')
  }

  // ----- lexically_normal -----

  function Push(rooted: bool, stack: seq<string>, n: string): seq<string> {
    if n == "." then stack
    else if n == ".." then
      if stack != [] && stack[|stack| - 1] != ".." then stack[..|stack| - 1]
      else if rooted then stack
      else stack + [n]
    else stack + [n]
  }

  function Fold(rooted: bool, stack: seq<string>, names: seq<string>): seq<string>
    decreases |names|
  {
    if names == [] then stack else Fold(rooted, Push(rooted, stack, names[0]), names[1..])
  }

  /** The names of the normal form, before an empty result becomes ".". */
  function Reduced(p: Path): seq<string> { Fold(p.rooted, [], p.names) }

  function Normal(p: Path): Path {
    if p == EMPTY then EMPTY
    else
      var ns := Reduced(p);
      if ns == [] then Path(p.rooted, if p.rooted then [] else ["."], false)
      else
        var last := p.names != [] && p.names[|p.names| - 1] in {".", ".."};
        Path(p.rooted, ns, (p.trailing || last) && ns[|ns| - 1] != "..")
  }

  // ----- operator/ -----

  function Append(p: Path, q: Path): Path {
    if q.rooted then q
    else if q.names == [] then Path(p.rooted, p.names, p.names != [])
    else Path(p.rooted, p.names + q.names, q.trailing)
  }

  // ----- lexically_relative -----

  function Common(a: seq<string>, b: seq<string>): (k: nat)
    ensures k <= |a| && k <= |b| && a[..k] == b[..k]
    ensures k < |a| && k < |b| ==> a[k] != b[k]
    decreases |a|
  {
    if a == [] || b == [] || a[0] != b[0] then 0 else 1 + Common(a[1..], b[1..])
  }

  /** How many steps up the elements are worth. */
  function Depth(es: seq<string>): int
    decreases |es|
  {
    if es == [] then 0
    else (if es[0] == ".." then -1 else if es[0] == "" || es[0] == "." then 0 else 1) + Depth(es[1..])
  }

  function Ups(n: nat): (r: seq<string>)
    ensures |r| == n && forall i :: 0 <= i < n ==> r[i] == ".."
  {
    seq(n, i => "..")
  }

  function Relative(p: Path, base: Path): Path {
    if p.rooted != base.rooted then EMPTY else Route(Elements(p), Elements(base))
  }

  /** The way from the elements `b` to the elements `a`. */
  function Route(a: seq<string>, b: seq<string>): Path {
    var k := Common(a, b);
    if k == |a| && k == |b| then DOT
    else
      var n := Depth(b[k..]);
      if n < 0 then EMPTY
      else if n == 0 && (k == |a| || a[k] == "") then DOT
      else Path(false, Ups(n) + NonEmpty(a[k..]), a[k..] != [] && a[|a| - 1] == "")
  }

  // ----- Containment -----

  /** is_within, as its loop decides it. */
  predicate Within(p: Path, prefix: Path) { Elements(Normal(prefix)) <= Elements(Normal(p)) }

  method IsWithin(p: Path, prefix: Path) returns (r: bool)
    ensures r <==> Within(p, prefix)
  {
    hide Normal, Elements;
    var path, pre := Elements(Normal(p)), Elements(Normal(prefix));
    for i := 0 to |pre|
      invariant i <= |path| && path[..i] == pre[..i]
    {
      if i == |path| || path[i] != pre[i] {
        return false;
      }
    }
    return true;
  }

  ghost predicate Straight(names: seq<string>) {
    forall i :: 0 <= i < |names| ==> names[i] != "." && names[i] != ".."
  }

  /** Below `base` in the directory tree: the names of `base`, then names that only go down. */
  ghost predicate Inside(p: Path, base: Path) {
    && p.rooted == base.rooted
    && Reduced(base) <= Reduced(p)
    && Straight(Reduced(p)[|Reduced(base)|..])
  }

  // ----- Normal forms -----

  lemma {:induction false} FoldAppend(rooted: bool, stack: seq<string>, a: seq<string>, b: seq<string>)
    ensures Fold(rooted, stack, a + b) == Fold(rooted, Fold(rooted, stack, a), b)
    decreases |a|
  {
    if a == [] {
      assert a + b == b;
    } else {
      FoldAppend(rooted, Push(rooted, stack, a[0]), a[1..], b);
      assert (a + b)[1..] == a[1..] + b;
    }
  }

  lemma {:induction false} FoldStraight(rooted: bool, stack: seq<string>, names: seq<string>)
    requires Straight(names)
    ensures Fold(rooted, stack, names) == stack + names
    decreases |names|
  {
    if names == [] {
      assert stack + names == stack;
    } else {
      FoldStraight(rooted, stack + [names[0]], names[1..]);
      assert stack + [names[0]] + names[1..] == stack + names;
    }
  }

  /** Reduced names: no ".", and ".." only at the front of a relative path. */
  ghost predicate Settled(rooted: bool, ns: seq<string>) {
    forall i :: 0 <= i < |ns| ==> ns[i] != "." && (ns[i] == ".." ==> !rooted && forall j :: 0 <= j < i ==> ns[j] == "..")
  }

  lemma {:induction false} FoldSettles(rooted: bool, stack: seq<string>, names: seq<string>)
    requires Settled(rooted, stack)
    ensures Settled(rooted, Fold(rooted, stack, names))
    decreases |names|
  {
    if names != [] {
      PushSettles(rooted, stack, names[0]);
      FoldSettles(rooted, Push(rooted, stack, names[0]), names[1..]);
    }
  }

  lemma PushSettles(rooted: bool, stack: seq<string>, n: string)
    requires Settled(rooted, stack)
    ensures Settled(rooted, Push(rooted, stack, n))
  {
    if n == ".." && !rooted && (stack == [] || stack[|stack| - 1] == "..") {
      var s := stack + [n];
      forall i | 0 <= i < |s|
        ensures s[i] == ".."
      {
        if stack != [] {
          assert stack[|stack| - 1] == "..";
        }
      }
    }
  }

  lemma {:induction false} FoldSettled(rooted: bool, ns: seq<string>)
    requires Settled(rooted, ns)
    ensures Fold(rooted, [], ns) == ns
    decreases |ns|
  {
    if ns != [] {
      var n := |ns| - 1;
      FoldSettled(rooted, ns[..n]);
      FoldAppend(rooted, [], ns[..n], [ns[n]]);
      assert ns == ns[..n] + [ns[n]];
      assert Fold(rooted, Push(rooted, ns[..n], ns[n]), []) == Push(rooted, ns[..n], ns[n]);
      if ns[n] == ".." && n > 0 {
        assert ns[n - 1] == "..";
      }
    }
  }

  lemma ReducedNormal(p: Path)
    ensures Settled(p.rooted, Reduced(p)) && Normal(p).rooted == p.rooted && Reduced(Normal(p)) == Reduced(p)
  {
    FoldSettles(p.rooted, [], p.names);
    FoldSettled(p.rooted, Reduced(p));
    if Reduced(p) == [] && !p.rooted {
      assert Fold(false, [], ["."]) == Fold(false, [], []);
    }
  }

  lemma NormalIdempotent(p: Path)
    ensures Normal(Normal(p)) == Normal(p)
  {
    ReducedNormal(p);
  }

  lemma {:induction false} FoldOk(rooted: bool, stack: seq<string>, names: seq<string>)
    ensures forall n :: n in Fold(rooted, stack, names) ==> n in stack || n in names
    decreases |names|
  {
    if names != [] {
      FoldOk(rooted, Push(rooted, stack, names[0]), names[1..]);
    }
  }

  lemma OkNormal(p: Path)
    requires Ok(p)
    ensures Ok(Normal(p))
  {
    FoldOk(p.rooted, [], p.names);
    var ns := Reduced(p);
    forall i | 0 <= i < |ns|
      ensures ns[i] != "" && '/' !in ns[i]
    {
      assert ns[i] in ns;
    }
  }

  // ----- What the operations do, name by name -----

  predicate PlainName(n: string) { n != "." && n != ".." }

  /** A plain name followed by ".." cancels, "." counts for nothing, ".." above the root is dropped,
      and other names stay where they are. */
  lemma ReducedLaws(rooted: bool, a: seq<string>, c: string, b: seq<string>, t: bool)
    requires PlainName(c)
    ensures Reduced(Path(rooted, a + [c, ".."] + b, t)) == Reduced(Path(rooted, a + b, t))
    ensures Reduced(Path(rooted, a + ["."] + b, t)) == Reduced(Path(rooted, a + b, t))
    ensures Reduced(Path(true, [".."] + b, t)) == Reduced(Path(true, b, t))
    ensures Reduced(Path(rooted, [], t)) == [] && Reduced(Path(false, [".."], t)) == [".."]
    ensures Reduced(Path(rooted, a + [c], t)) == Reduced(Path(rooted, a, t)) + [c]
  {
    var s := Fold(rooted, [], a);
    FoldAppend(rooted, [], a + [c, ".."], b);
    FoldAppend(rooted, [], a, [c, ".."]);
    FoldAppend(rooted, [], a + ["."], b);
    FoldAppend(rooted, [], a, ["."]);
    FoldAppend(rooted, [], a, b);
    FoldAppend(rooted, [], a, [c]);
    FoldAppend(true, [], [".."], b);
    FoldTwo(rooted, s, c, "..");
    FoldOne(rooted, s, ".");
    FoldOne(rooted, s, c);
    FoldOne(true, [], "..");
    FoldOne(false, [], "..");
    assert (s + [c])[..|s|] == s;
  }

  lemma FoldOne(rooted: bool, stack: seq<string>, n: string)
    ensures Fold(rooted, stack, [n]) == Push(rooted, stack, n) && Fold(rooted, stack, []) == stack
  {
    assert [n][1..] == [];
  }

  lemma FoldTwo(rooted: bool, stack: seq<string>, n: string, k: string)
    ensures Fold(rooted, stack, [n, k]) == Push(rooted, Push(rooted, stack, n), k)
  {
    assert [n, k][1..] == [k];
    FoldOne(rooted, Push(rooted, stack, n), k);
  }

  predicate NamesDirectory(p: Path) {
    p.trailing || (p.names != [] && (p.names[|p.names| - 1] == "." || p.names[|p.names| - 1] == ".."))
  }

  /** The normal form has these names, "." when there are none in a relative path, and a trailing
      separator exactly when the path names a directory: it ends in one, in "." or in "..". */
  lemma NormalForm(p: Path)
    requires p != EMPTY
    ensures Normal(p).rooted == p.rooted && Normal(EMPTY) == EMPTY
    ensures Normal(p).names == if Reduced(p) == [] && !p.rooted then ["."] else Reduced(p)
    ensures Normal(p).trailing
            <==> Reduced(p) != [] && Reduced(p)[|Reduced(p)| - 1] != ".." && NamesDirectory(p)
  {
  }

  /** From one path to another below a common part `c`: ".." for each name of the base that is not
      shared, then the names that are left of the path. "." leads from a path to itself. */
  lemma RelativeIs(rooted: bool, c: seq<string>, a: seq<string>, b: seq<string>)
    requires forall n :: n in c + a + b ==> n != "" && PlainName(n)
    requires a == [] || b == [] || a[0] != b[0]
    ensures a + b != [] ==> Relative(Path(rooted, c + a, false), Path(rooted, c + b, false)) == Path(false, Ups(|b|) + a, false)
    ensures Relative(Path(rooted, c, false), Path(rooted, c, false)) == DOT
    ensures Relative(Path(rooted, a, false), Path(!rooted, b, false)) == EMPTY
  {
    var es := Elements(Path(rooted, c, false));
    CommonIs(es, es, |es|);
    if a + b != [] {
      assert Elements(Path(rooted, c + a, false)) == es + a && Elements(Path(rooted, c + b, false)) == es + b;
      assert forall n :: n in a + b ==> n in c + a + b;
      RouteIs(es, a, b);
    }
  }

  lemma {:induction false} NonEmptyPlain(a: seq<string>)
    requires forall i :: 0 <= i < |a| ==> a[i] != ""
    ensures NonEmpty(a) == a
  {
    if a != [] {
      NonEmptyPlain(a[1..]);
      assert a == [a[0]] + a[1..];
    }
  }

  lemma {:induction false} DepthPlain(es: seq<string>)
    requires forall i :: 0 <= i < |es| ==> es[i] != "" && PlainName(es[i])
    ensures Depth(es) == |es|
    decreases |es|
  {
    if es != [] {
      DepthPlain(es[1..]);
    }
  }

  lemma RouteIs(es: seq<string>, a: seq<string>, b: seq<string>)
    requires forall n :: n in a + b ==> n != "" && PlainName(n)
    requires a + b != [] && (a == [] || b == [] || a[0] != b[0])
    ensures Route(es + a, es + b) == Path(false, Ups(|b|) + a, false)
  {
    assert (forall i :: 0 <= i < |a| ==> a[i] in a + b) && (forall i :: 0 <= i < |b| ==> b[i] in a + b);
    CommonIs(es + a, es + b, |es|);
    assert (es + a)[|es|..] == a && (es + b)[|es|..] == b;
    DepthPlain(b);
    NonEmptyPlain(a);
  }

  /** `p / q`: an absolute `q` replaces `p`, an empty one leaves a trailing separator, any other is
      appended. */
  lemma AppendForms(p: Path, q: Path)
    ensures q.rooted ==> Append(p, q) == q
    ensures !q.rooted && q.names != [] ==> Append(p, q) == Path(p.rooted, p.names + q.names, q.trailing)
    ensures p.names != [] ==> Append(p, EMPTY) == Path(p.rooted, p.names, true)
    ensures Append(Path(p.rooted, [], false), EMPTY) == Path(p.rooted, [], false)
  {
  }

  // ----- What is_within means -----

  function Tail(p: Path): seq<string> { p.names + (if p.trailing then [""] else []) }

  ghost predicate TailPrefix(a: Path, b: Path) {
    a.names <= b.names && (a.trailing ==> b.names == a.names && b.trailing)
  }

  lemma TailPrefixIff(a: Path, b: Path)
    requires Ok(a) && Ok(b)
    ensures Tail(a) <= Tail(b) <==> TailPrefix(a, b)
  {
    var x, y := Tail(a), Tail(b);
    if x <= y {
      var i, j := |a.names|, |b.names|;
      assert j < |x| ==> x[j] == y[j];
      assert i < |x| ==> x[i] == y[i];
      assert forall k :: 0 <= k < i ==> x[k] == a.names[k];
      assert forall k :: 0 <= k < j ==> y[k] == b.names[k];
      assert i <= j;
    }
  }

  lemma ElementsPrefix(a: Path, b: Path)
    requires Ok(a) && Ok(b) && a != EMPTY
    ensures Elements(a) <= Elements(b) <==> a.rooted == b.rooted && TailPrefix(a, b)
  {
    hide TailPrefix;
    var x, y := Elements(a), Elements(b);
    TailPrefixIff(a, b);
    if a.rooted {
      assert x == ["/"] + Tail(a) && x[1..] == Tail(a);
    } else {
      assert x == Tail(a) && x[0] == a.names[0] && x[0] != "/";
    }
    if b.rooted {
      assert y == ["/"] + Tail(b) && y[1..] == Tail(b);
    } else {
      assert y == Tail(b) && (y != [] ==> y[0] == b.names[0] && y[0] != "/");
    }
  }

  lemma WithinMeans(p: Path, prefix: Path)
    requires Ok(p) && Ok(prefix) && prefix != EMPTY
    ensures Within(p, prefix) <==> Normal(prefix).rooted == Normal(p).rooted && TailPrefix(Normal(prefix), Normal(p))
  {
    hide Normal, Elements;
    OkNormal(p);
    OkNormal(prefix);
    NormalNotEmpty(prefix);
    ElementsPrefix(Normal(prefix), Normal(p));
  }

  lemma NormalNotEmpty(p: Path)
    requires p != EMPTY && Ok(p)
    ensures Normal(p) != EMPTY
  {
  }

  lemma WithinInside(p: Path, prefix: Path)
    requires Ok(p) && Ok(prefix) && prefix.rooted && Within(p, prefix)
    ensures Inside(p, prefix)
  {
    WithinMeans(p, prefix);
    ReducedNormal(p);
    ReducedNormal(prefix);
    assert p == EMPTY ==> Reduced(p) == [];
  }

  // ----- Staying inside -----

  /** Names that only go down, appended to a base, lead inside it. */
  lemma InsideAppend(base: Path, q: Path)
    requires base != EMPTY && !q.rooted && Straight(q.names)
    ensures var r := Normal(Append(base, q));
            Reduced(r) == Reduced(base) + q.names && Inside(r, base)
  {
    var joined := Append(base, q);
    ReducedNormal(joined);
    ReducedNormal(base);
    FoldAppend(base.rooted, [], base.names, q.names);
    FoldStraight(base.rooted, Reduced(base), q.names);
    if q.names == [] {
      assert Reduced(base) + q.names == Reduced(base);
    }
    var r := Reduced(Normal(joined));
    assert r[|Reduced(base)|..] == q.names;
  }

  /** The check the code makes before it trusts a relative path. */
  predicate Trusted(rel: Path) {
    rel != EMPTY && rel != DOT && Elements(rel)[0] != ".."
  }

  lemma SettledSuffix(rooted: bool, ns: seq<string>, i: nat)
    requires Settled(rooted, ns) && i < |ns| && ns[i] != ".."
    ensures Straight(ns[i..])
  {
  }

  lemma DotUntrusted(base: Path)
    ensures !Trusted(Relative(DOT, base))
  {
    var a := Elements(DOT);
    var k := Common(a, Elements(base));
    assert a == ["."] && a[0..] == a && NonEmpty(["."]) == ["."];
    UpUntrusted(DOT, base);
  }

  lemma UpUntrusted(p: Path, base: Path)
    ensures var b := Elements(base);
            p.rooted == base.rooted && Depth(b[Common(Elements(p), b)..]) > 0 ==> !Trusted(Relative(p, base))
  {
  }

  /** A trusted relative path only goes down. */
  lemma TrustedStraight(c: Path, base: Path)
    requires Ok(c)
    requires Trusted(Relative(Normal(c), base))
    ensures var rel := Relative(Normal(c), base);
            !rel.rooted && Straight(rel.names)
  {
    var p := Normal(c);
    OkNormal(c);
    ReducedNormal(c);
    var a, b := Elements(p), Elements(base);
    var k := Common(a, b);
    var rel := Relative(p, base);
    var n := Depth(b[k..]);
    DotUntrusted(base);
    UpUntrusted(p, base);
    assert rel.names == NonEmpty(a[k..]);
    FirstNonEmpty(a[k..]);
    RestStraight(p, a, k);
  }

  lemma FirstNonEmpty(cs: seq<string>)
    requires cs != [] && cs[0] != ""
    ensures NonEmpty(cs) != [] && NonEmpty(cs)[0] == cs[0]
  {
  }

  /** From the first element that is not "..", a normal path only goes down. */
  lemma RestStraight(p: Path, a: seq<string>, k: nat)
    requires a == Elements(p) && k < |a| && a[k] != ".." && a[k] != "" && (p.rooted ==> 0 < k)
    requires Settled(p.rooted, p.names)
    ensures Straight(NonEmpty(a[k..]))
  {
    var o := if p.rooted then 1 else 0;
    SettledSuffix(p.rooted, p.names, k - o);
    var rest := a[k..];
    forall i | 0 <= i < |rest|
      ensures rest[i] != "." && rest[i] != ".."
    {
      assert rest[i] == a[k + i];
      if k + i - o < |p.names| {
        assert rest[i] == p.names[k - o..][i];
      }
    }
  }

  // ----- Exact results -----

  lemma {:induction false} CommonIs(a: seq<string>, b: seq<string>, k: nat)
    requires k <= |a| && k <= |b| && a[..k] == b[..k] && (k < |a| && k < |b| ==> a[k] != b[k])
    ensures Common(a, b) == k
  {
    if k > 0 {
      assert a[0] == a[..k][0] && b[0] == b[..k][0];
      assert a[1..][..k - 1] == a[..k][1..] && b[1..][..k - 1] == b[..k][1..];
      CommonIs(a[1..], b[1..], k - 1);
    }
  }

  lemma PlainStraight(cs: seq<string>)
    requires G.AllPlain(cs)
    ensures Straight(cs) && forall rooted :: Ok(Path(rooted, cs, false))
  {
    assert forall i :: 0 <= i < |cs| ==> G.Plain(cs[i]);
  }

  /** A path whose names are plain is already normal. */
  lemma PlainNormal(rooted: bool, cs: seq<string>)
    requires G.AllPlain(cs) && (rooted || cs != [])
    ensures Normal(Path(rooted, cs, false)) == Path(rooted, cs, false) && Reduced(Path(rooted, cs, false)) == cs
  {
    PlainStraight(cs);
    FoldStraight(rooted, [], cs);
    assert [] + cs == cs;
  }

  /** Appending plain names to a normal base and asking for the way there gives the names back. */
  lemma RelativeOfAppend(base: Path, cs: seq<string>)
    requires Ok(base) && base != EMPTY && Normal(base) == base && G.AllPlain(cs) && cs != []
    ensures Relative(Normal(Append(base, Path(false, cs, false))), base) == Path(false, cs, false)
  {
    AppendShape(base, cs);
    RelativeFrom(base, cs);
  }

  lemma AppendShape(base: Path, cs: seq<string>)
    requires Ok(base) && base != EMPTY && G.AllPlain(cs) && cs != []
    ensures Normal(Append(base, Path(false, cs, false))) == Path(base.rooted, Reduced(base) + cs, false)
  {
    hide Fold;
    var q := Path(false, cs, false);
    PlainStraight(cs);
    InsideAppend(base, q);
    var joined := Append(base, q);
    assert joined == Path(base.rooted, base.names + cs, false);
    ReducedNormal(joined);
    assert G.Plain(cs[|cs| - 1]);
    assert joined.names[|joined.names| - 1] == cs[|cs| - 1];
  }

  /** A normal base has its reduced names, except that "." stands for none. */
  lemma NormalShape(base: Path)
    requires Ok(base) && base != EMPTY && Normal(base) == base
    ensures if base == DOT then Reduced(base) == [] else base.names == Reduced(base)
  {
  }

  lemma RelativeFrom(base: Path, cs: seq<string>)
    requires Ok(base) && base != EMPTY && Normal(base) == base && G.AllPlain(cs) && cs != []
    ensures Relative(Path(base.rooted, Reduced(base) + cs, false), base) == Path(false, cs, false)
  {
    hide Normal, Reduced, Route;
    NormalShape(base);
    var r := Reduced(base);
    var front := (if base.rooted then ["/"] else []) + r;
    var rest := if base == DOT then ["."] else if base.trailing then [""] else [];
    assert Elements(Path(base.rooted, r + cs, false)) == front + cs;
    assert Elements(base) == front + rest;
    RouteFrom(front, cs, rest);
  }

  lemma RouteFrom(front: seq<string>, cs: seq<string>, rest: seq<string>)
    requires G.AllPlain(cs) && cs != [] && (rest == [] || rest == [""] || rest == ["."])
    ensures Route(front + cs, front + rest) == Path(false, cs, false)
  {
    hide NonEmpty, Common, Depth;
    var a, b, k := front + cs, front + rest, |front|;
    assert G.Plain(cs[0]) && G.Plain(cs[|cs| - 1]);
    assert a[k] == cs[0] && a[|a| - 1] == cs[|cs| - 1];
    CommonIs(a, b, k);
    assert a[k..] == cs && b[k..] == rest;
    FlatRest(rest);
    NonEmptyPlain(cs);
    assert Ups(0) + cs == cs;
  }

  lemma FlatRest(rest: seq<string>)
    requires rest == [] || rest == [""] || rest == ["."]
    ensures Depth(rest) == 0
  {
    assert rest != [] ==> rest[1..] == [];
  }

  lemma RelativeToSelf(base: Path)
    requires Ok(base) && base != EMPTY
    ensures !Trusted(Relative(Normal(Append(Normal(base), EMPTY)), Normal(base)))
  {
    NormalIdempotent(base);
  }
}
