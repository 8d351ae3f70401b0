/** Guest path strings (linux_file_system.hpp): normalisation and cwd-relative resolution. */
module GuestPath {

  function Slashed(p: string): (r: string)
    ensures |r| == |p| && forall i :: 0 <= i < |p| ==> r[i] == if p[i] == '\\' then '/' else p[i]
  {
    seq(|p|, i requires 0 <= i < |p| => if p[i] == '\\' then '/' else p[i])
  }

  /** The first slash at or after `from`, or the length of the string. */
  function FindSlash(p: string, from: nat): (r: nat)
    requires from <= |p|
    ensures from <= r <= |p| && (r < |p| ==> p[r] == '/') && forall i :: from <= i < r ==> p[i] != '/'
    decreases |p| - from
  {
    if from == |p| || p[from] == '/' then from else FindSlash(p, from + 1)
  }

  /** The components between slashes; one more than there are slashes. */
  function Split(p: string): (r: seq<string>)
    ensures r != []
    decreases |p|
  {
    var i := FindSlash(p, 0);
    if i == |p| then [p] else [p[..i]] + Split(p[i + 1..])
  }

  function Step(stack: seq<string>, c: string): seq<string> {
    if c == ".." then if stack == [] then [] else stack[..|stack| - 1]
    else if c == "" || c == "." then stack
    else stack + [c]
  }

  function Walk(stack: seq<string>, components: seq<string>): seq<string>
    decreases |components|
  {
    if components == [] then stack else Walk(Step(stack, components[0]), components[1..])
  }

  function Join(cs: seq<string>): (r: string)
    ensures r != "" && r[0] == '/'
  {
    if cs == [] then "/"
    else
      var front := Join(cs[..|cs| - 1]);
      (if |front| > 1 then front + "/" else front) + cs[|cs| - 1]
  }

  /** Where the path leads, starting from the root. */
  function Components(p: string): seq<string> { Walk([], Split(Slashed(p))) }

  function Normalize(p: string): string { Join(Components(p)) }

  /** A component that stands for itself. */
  predicate Plain(c: string) {
    c != "" && c != "." && c != ".." && '/' !in c && '\\' !in c
  }

  ghost predicate AllPlain(cs: seq<string>) {
    forall i :: 0 <= i < |cs| ==> Plain(cs[i])
  }

  /** A canonical absolute path: the root, or a slash before each of one or more plain components. */
  ghost predicate Canonical(p: string) {
    p == "/" || (p != "" && p[0] == '/' && AllPlain(Split(p[1..])))
  }

  // ----- Properties -----

  lemma {:induction false} FindUnique(p: string, from: nat, r: nat)
    requires from <= r <= |p| && (r < |p| ==> p[r] == '/') && forall i :: from <= i < r ==> p[i] != '/'
    ensures FindSlash(p, from) == r
    decreases r - from
  {
    if from < r {
      FindUnique(p, from + 1, r);
    }
  }

  lemma {:induction false} SplitAtSlash(a: string, b: string)
    ensures Split(a + "/" + b) == Split(a) + Split(b)
    decreases |a|
  {
    hide FindSlash;
    var s := a + "/" + b;
    var i := FindSlash(a, 0);
    assert s[|a|] == '/';
    FindUnique(s, 0, i);
    if i == |a| {
      assert s[..i] == a && s[i + 1..] == b;
    } else {
      var rest := a[i + 1..];
      SplitAtSlash(rest, b);
      assert s[..i] == a[..i] && s[i + 1..] == rest + "/" + b;
      assert [a[..i]] + (Split(rest) + Split(b)) == ([a[..i]] + Split(rest)) + Split(b);
    }
  }

  lemma SplitHasNoSlash(p: string)
    ensures forall k :: 0 <= k < |Split(p)| ==> '/' !in Split(p)[k]
    decreases |p|
  {
    var i := FindSlash(p, 0);
    if i < |p| {
      SplitHasNoSlash(p[i + 1..]);
    }
  }

  lemma SplitKeepsCharacters(p: string)
    requires '\\' !in p
    ensures forall k :: 0 <= k < |Split(p)| ==> '\\' !in Split(p)[k]
    decreases |p|
  {
    var i := FindSlash(p, 0);
    if i < |p| {
      SplitKeepsCharacters(p[i + 1..]);
    }
  }

  lemma SlashedAppend(a: string, b: string)
    ensures Slashed(a + b) == Slashed(a) + Slashed(b)
  {
  }

  lemma SlashedFixed(p: string)
    requires '\\' !in p
    ensures Slashed(p) == p
  {
  }

  lemma {:induction false} WalkAppend(stack: seq<string>, a: seq<string>, b: seq<string>)
    ensures Walk(stack, a + b) == Walk(Walk(stack, a), b)
    decreases |a|
  {
    if a == [] {
      assert a + b == b;
    } else {
      WalkAppend(Step(stack, a[0]), a[1..], b);
      assert (a + b)[1..] == a[1..] + b;
    }
  }

  lemma {:induction false} WalkPlain(stack: seq<string>, cs: seq<string>)
    requires AllPlain(cs)
    ensures Walk(stack, cs) == stack + cs
    decreases |cs|
  {
    if cs == [] {
      assert stack + cs == stack;
    } else {
      WalkPlain(stack + [cs[0]], cs[1..]);
      assert stack + [cs[0]] + cs[1..] == stack + cs;
    }
  }

  /** Walking over components without separators leaves plain ones only. */
  lemma {:induction false} WalkStaysPlain(stack: seq<string>, components: seq<string>)
    requires AllPlain(stack)
    requires forall k :: 0 <= k < |components| ==> '/' !in components[k] && '\\' !in components[k]
    ensures AllPlain(Walk(stack, components))
    decreases |components|
  {
    if components != [] {
      WalkStaysPlain(Step(stack, components[0]), components[1..]);
    }
  }

  lemma ComponentsPlain(p: string)
    ensures AllPlain(Components(p))
  {
    SplitHasNoSlash(Slashed(p));
    SplitKeepsCharacters(Slashed(p));
    WalkStaysPlain([], Split(Slashed(p)));
  }

  lemma SplitWord(c: string)
    requires '/' !in c
    ensures Split(c) == [c]
  {
    assert FindSlash(c, 0) == |c|;
  }

  /** A joined path splits into its components behind the leading slash. */
  lemma {:induction false} SplitJoin(cs: seq<string>)
    requires AllPlain(cs) && cs != []
    ensures |Join(cs)| > 1 && Split(Join(cs)) == [""] + cs && Split(Join(cs)[1..]) == cs && '\\' !in Join(cs)
    decreases |cs|
  {
    hide Split, Plain;
    var n := |cs| - 1;
    var c := cs[n];
    PlainWord(c);
    if n == 0 {
      assert cs == [c] && cs[..0] == [];
      assert Join(cs) == "" + "/" + c && Join(cs)[1..] == c;
      SplitAtSlash("", c);
      SplitWord("");
    } else {
      var front := Join(cs[..n]);
      SplitJoin(cs[..n]);
      SplitAtSlash(front, c);
      SplitAtSlash(front[1..], c);
      assert Join(cs) == front + "/" + c && Join(cs)[1..] == front[1..] + "/" + c;
      assert cs[..n] + [c] == cs && ([""] + cs[..n]) + [c] == [""] + cs;
    }
  }

  lemma PlainWord(c: string)
    requires Plain(c)
    ensures c != "" && '\\' !in c && Split(c) == [c]
  {
    SplitWord(c);
  }

  lemma JoinSplits(cs: seq<string>)
    requires AllPlain(cs)
    ensures Components(Join(cs)) == cs && Slashed(Join(cs)) == Join(cs)
  {
    if cs == [] {
      SplitAtSlash("", "");
      assert "" + "/" + "" == "/" && Split("") == [""];
      assert Slashed("/") == "/";
      assert Walk([], ["", ""]) == Walk([], [""]) == [];
    } else {
      SplitJoin(cs);
      SlashedFixed(Join(cs));
      WalkAppend([], [""], cs);
      assert Walk([], [""]) == [];
      WalkPlain([], cs);
      assert [] + cs == cs;
    }
  }

  lemma NormalizeCanonical(p: string)
    ensures Canonical(Normalize(p))
  {
    ComponentsPlain(p);
    if Components(p) != [] {
      SplitJoin(Components(p));
    }
  }

  /** Canonical paths are exactly the fixed points. */
  lemma CanonicalIffFixed(p: string)
    ensures Canonical(p) <==> Normalize(p) == p
  {
    if Canonical(p) {
      if p == "/" {
        JoinSplits([]);
      } else {
        var cs := Split(p[1..]);
        CanonicalJoins(p[1..]);
        assert p == "/" + p[1..];
        JoinSplits(cs);
      }
    }
    if Normalize(p) == p {
      NormalizeCanonical(p);
    }
  }

  /** A string of plain components is what joining them writes after the leading slash. */
  lemma {:induction false} CanonicalJoins(s: string)
    requires AllPlain(Split(s))
    ensures Join(Split(s)) == "/" + s
    decreases |s|
  {
    hide Split, Plain, LastSlash;
    var i := LastSlash(s);
    if i == 0 {
      assert s[0..] == s;
      SplitWord(s);
      assert [s][..0] == [];
    } else {
      var a, b := s[..i - 1], s[i..];
      assert s == a + "/" + b;
      SplitAtSlash(a, b);
      SplitWord(b);
      var front := Split(a);
      assert Split(s)[..|Split(s)| - 1] == front;
      assert forall k :: 0 <= k < |front| ==> front[k] == Split(s)[k];
      CanonicalJoins(a);
      SplitJoin(front);
      assert "/" + a + "/" + b == "/" + s;
    }
  }

  /** The position after the last slash, or 0. */
  function LastSlash(s: string): (i: nat)
    ensures i <= |s| && '/' !in s[i..] && (0 < i ==> s[i - 1] == '/')
  {
    if s == "" then 0
    else if s[|s| - 1] == '/' then |s|
    else
      var i := LastSlash(s[..|s| - 1]);
      assert s[i..] == s[..|s| - 1][i..] + [s[|s| - 1]];
      i
  }

  lemma NormalizeIdempotent(p: string)
    ensures Normalize(Normalize(p)) == Normalize(p)
  {
    ComponentsPlain(p);
    JoinSplits(Components(p));
  }

  lemma ComponentsCompose(a: string, b: string)
    ensures Components(a + "/" + b) == Walk(Components(a), Split(Slashed(b)))
  {
    SlashedAppend(a + "/", b);
    SlashedAppend(a, "/");
    assert Slashed("/") == "/";
    SplitAtSlash(Slashed(a), Slashed(b));
    WalkAppend([], Split(Slashed(a)), Split(Slashed(b)));
  }

  /** Normalising the first part first changes nothing. */
  lemma NormalizeCompose(a: string, b: string)
    ensures Normalize(Normalize(a) + "/" + b) == Normalize(a + "/" + b)
  {
    ComponentsCompose(a, b);
    ComponentsCompose(Normalize(a), b);
    ComponentsPlain(a);
    JoinSplits(Components(a));
  }

  // ----- What each kind of component does -----

  lemma StepAfter(a: string, c: string)
    requires '/' !in c && '\\' !in c
    ensures Components(a + "/" + c) == Step(Components(a), c)
  {
    hide Split, Slashed, Step;
    ComponentsCompose(a, c);
    SlashedFixed(c);
    SplitWord(c);
    assert [c][1..] == [];
  }

  /** A plain component is appended. */
  lemma PlainAppends(a: string, c: string)
    requires Plain(c)
    ensures Normalize(a + "/" + c) == (if Normalize(a) == "/" then "/" else Normalize(a) + "/") + c
  {
    hide Split, Slashed;
    StepAfter(a, c);
    var cs := Components(a);
    assert (cs + [c])[..|cs|] == cs;
    ComponentsPlain(a);
    if cs != [] {
      SplitJoin(cs);
    }
  }

  /** A plain component followed by ".." leaves the path where it was, and ".." stops at the root. */
  lemma DotDotUndoes(a: string, c: string)
    requires Plain(c)
    ensures Normalize(a + "/" + c + "/" + "..") == Normalize(a)
    ensures Normalize("/..") == "/" && Normalize("") == "/"
  {
    hide Split, Slashed;
    StepAfter(a, c);
    StepAfter(a + "/" + c, "..");
    assert (Components(a) + [c])[..|Components(a)|] == Components(a);
    assert "" + "/" + ".." == "/..";
    StepAfter("", "..");
    EmptyIsRoot();
  }

  lemma EmptyIsRoot()
    ensures Components("") == []
  {
    SplitWord("");
    assert Slashed("") == "";
    assert [""][1..] == [];
  }

  /** "." and the empty component change nothing. */
  lemma DotsVanish(a: string)
    ensures Normalize(a + "/" + ".") == Normalize(a) && Normalize(a + "/" + "") == Normalize(a)
  {
    hide Split, Slashed;
    StepAfter(a, ".");
    StepAfter(a, "");
  }

  /** A backslash separates like a slash, wherever it stands. */
  lemma BackslashSeparates(a: string, b: string)
    ensures Normalize(a + "\\" + b) == Normalize(a + "/" + b)
  {
    assert Slashed(a + "\\" + b) == Slashed(a + "/" + b);
  }

  // ----- The code -----

  method NormalizeGuestPathString(guestPath: string) returns (normalized: string)
    ensures normalized == Normalize(guestPath)
  {
    var components: seq<string> := [];
    var path := "";
    for i := 0 to |guestPath|
      invariant |path| == i && forall k :: 0 <= k < i ==> path[k] == if guestPath[k] == '\\' then '/' else guestPath[k]
    {
      path := path + [if guestPath[i] == '\\' then '/' else guestPath[i]];
    }
    assert path == Slashed(guestPath);
    components := SplitAndWalk(path);
    normalized := "/";
    for i := 0 to |components|
      invariant normalized == Join(components[..i])
    {
      assert components[..i + 1][..i] == components[..i];
      if |normalized| > 1 {
        normalized := normalized + "/";
      }
      normalized := normalized + components[i];
    }
    assert components[..|components|] == components;
  }

  method SplitAndWalk(path: string) returns (components: seq<string>)
    ensures components == Walk([], Split(path))
  {
    hide FindSlash, Split, Walk, Step;
    components := [];
    var offset := 0;
    assert path[0..] == path;
    while true
      invariant 0 <= offset <= |path|
      invariant Walk(components, Split(path[offset..])) == Walk([], Split(path))
      decreases |path| - offset
    {
      var end := FindSlash(path, offset);
      WalkNext(components, path, offset);
      components := Process(components, path[offset..end]);
      if end == |path| {
        break;
      }
      offset := end + 1;
    }
  }

  /** One turn of the component loop. */
  method Process(components: seq<string>, component: string) returns (r: seq<string>)
    ensures r == Step(components, component)
  {
    r := components;
    if component == ".." {
      if r != [] {
        r := r[..|r| - 1];
      }
    } else if component != "" && component != "." {
      r := r + [component];
    }
  }

  lemma WalkNext(stack: seq<string>, path: string, offset: nat)
    requires offset <= |path|
    ensures Walk(stack, Split(path[offset..])) == Next(stack, path, offset, FindSlash(path, offset))
  {
    hide FindSlash, Step, Split, Walk;
    var end := FindSlash(path, offset);
    SplitNext(path, offset);
    if end == |path| {
      WalkCons(stack, path[offset..end], []);
      assert [path[offset..end]] + [] == [path[offset..end]];
      WalkNone(Step(stack, path[offset..end]));
    } else {
      WalkCons(stack, path[offset..end], Split(path[end + 1..]));
    }
  }

  lemma WalkCons(stack: seq<string>, c: string, rest: seq<string>)
    ensures Walk(stack, [c] + rest) == Walk(Step(stack, c), rest)
  {
    assert ([c] + rest)[1..] == rest;
  }

  lemma WalkNone(stack: seq<string>)
    ensures Walk(stack, []) == stack
  {
  }

  lemma SplitNext(path: string, offset: nat)
    requires offset <= |path|
    ensures var end := FindSlash(path, offset);
            Split(path[offset..]) == [path[offset..end]] + if end == |path| then [] else Split(path[end + 1..])
  {
    hide FindSlash;
    var end := FindSlash(path, offset);
    var rest := path[offset..];
    FindUnique(rest, 0, end - offset);
    assert rest[..end - offset] == path[offset..end];
    if end == |path| {
      assert rest == path[offset..end];
    } else {
      assert rest[end - offset + 1..] == path[end + 1..];
    }
  }

  function Next(stack: seq<string>, path: string, offset: nat, end: nat): seq<string>
    requires offset <= end <= |path|
  {
    if end == |path| then Step(stack, path[offset..end])
    else Walk(Step(stack, path[offset..end]), Split(path[end + 1..]))
  }

  predicate Absolute(p: string) { p == "" || p[0] == '/' || p[0] == '\\' }

  function Resolve(cwd: string, p: string): string { Normalize(if Absolute(p) then p else cwd + "/" + p) }

  /** A relative path is taken from the cwd, and the cwd need not be normal. */
  method ResolveGuestPathString(cwd: string, guestPath: string) returns (r: string)
    ensures Canonical(r)
    ensures r == Resolve(cwd, guestPath)
  {
    NormalizeCanonical(if Absolute(guestPath) then guestPath else cwd + "/" + guestPath);
    if guestPath == "" || guestPath[0] == '/' || guestPath[0] == '\\' {
      r := NormalizeGuestPathString(guestPath);
      return;
    }
    var absolute := NormalizeGuestPathString(cwd);
    NormalizeCompose(cwd, guestPath);
    if absolute != "/" {
      absolute := absolute + "/";
    } else {
      RootCompose(guestPath);
    }
    absolute := absolute + guestPath;
    r := NormalizeGuestPathString(absolute);
  }

  lemma RootCompose(p: string)
    ensures Normalize("/" + p) == Normalize("/" + "/" + p)
  {
    ComponentsCompose("", p);
    ComponentsCompose("/", p);
    assert "" + "/" + p == "/" + p;
    JoinSplits([]);
    assert Slashed("") == "" && Split("") == [""];
    assert Walk([], [""]) == [];
  }

  /** Changing to `a` and then resolving `b` there is resolving the joined path at once, whatever the
      working directory and whichever of the paths are absolute. */
  lemma ResolveComposes(cwd: string, a: string, b: string)
    ensures Resolve(Resolve(cwd, a), b) == if Absolute(b) then Resolve(cwd, b) else Resolve(cwd, a + "/" + b)
  {
    hide Normalize;
    NormalizeCompose(if Absolute(a) then a else cwd + "/" + a, b);
    if !Absolute(a) {
      assert cwd + "/" + a + "/" + b == cwd + "/" + (a + "/" + b);
      assert (a + "/" + b)[0] == a[0];
    } else if a == "" {
      assert a + "/" + b == "/" + b;
    }
  }

  /** A resolved path stays as it is from any working directory. */
  lemma ResolveStable(cwd: string, other: string, p: string)
    ensures Resolve(other, Resolve(cwd, p)) == Resolve(cwd, p)
  {
    hide Normalize;
    var q := if Absolute(p) then p else cwd + "/" + p;
    NormalizeCanonical(q);
    NormalizeIdempotent(q);
  }
}
