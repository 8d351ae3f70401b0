/** linux_file_system: where a guest path lands on the host. */
module FileSystem {
  import opened Machine
  import opened HostPath
  import G = GuestPath

  datatype Mapping = Mapping(guest: Path, host: Path, readOnly: bool)

  /** The host path spelled like a normalised guest path. */
  function GuestAsPath(cs: seq<string>): Path { Path(true, cs, false) }

  function Below(cs: seq<string>): Path { Path(false, cs, false) }

  // ----- Strings and paths -----

  lemma OkParse(s: string)
    ensures Ok(Parse(s))
  {
    G.SplitHasNoSlash(s);
  }

  lemma ParseNormalized(cs: seq<string>)
    requires G.AllPlain(cs)
    ensures Parse(G.Join(cs)) == GuestAsPath(cs)
    ensures Parse(if G.Join(cs) == "/" then "" else G.Join(cs)[1..]) == Below(cs)
  {
    hide G.AllPlain, Parse, G.Join;
    if cs == [] {
      ParseRoot();
    } else {
      ParseJoin(cs);
    }
  }

  lemma ParseRoot()
    ensures G.Join([]) == "/" && Parse("/") == GuestAsPath([]) && Parse("") == Below([])
  {
    hide G.Split;
    EmptySplits();
  }

  lemma ParseJoin(cs: seq<string>)
    requires G.AllPlain(cs) && cs != []
    ensures |G.Join(cs)| > 1
    ensures Parse(G.Join(cs)) == GuestAsPath(cs) && Parse(G.Join(cs)[1..]) == Below(cs)
  {
    hide G.AllPlain, G.Split, G.Join;
    G.SplitJoin(cs);
    PlainStraight(cs);
    assert Ok(Path(true, cs, false));
    NonEmptyPlain(cs);
    FirstEmpty(cs);
    LastCharacter(cs);
    SecondCharacter(cs);
  }

  lemma FirstEmpty(cs: seq<string>)
    ensures NonEmpty([""] + cs) == NonEmpty(cs)
  {
    assert ([""] + cs)[1..] == cs;
  }

  /** The leading slash is the only one before the first name. */
  lemma SecondCharacter(cs: seq<string>)
    requires G.AllPlain(cs) && cs != []
    ensures |G.Join(cs)| > 1 && G.Join(cs)[1] != '/'
  {
    hide G.Plain, G.Split;
    G.SplitJoin(cs);
    var t := G.Join(cs)[1..];
    if t[0] == '/' {
      G.SplitAtSlash("", t[1..]);
      assert "" + "/" + t[1..] == t;
      G.SplitWord("");
    }
  }

  lemma EmptySplits()
    ensures NonEmpty(G.Split("")) == [] && NonEmpty(G.Split("/")) == []
  {
    assert G.Split("") == [""];
    assert "/"[1..] == "" && G.Split("/") == [""] + [""];
    assert ([""] + [""])[1..] == [""] && [""][1..] == [];
  }

  lemma LastCharacter(cs: seq<string>)
    requires G.AllPlain(cs) && cs != []
    ensures |G.Join(cs)| > 1 && G.Join(cs)[|G.Join(cs)| - 1] != '/'
  {
    var c := cs[|cs| - 1];
    assert G.Plain(c);
    assert c[|c| - 1] in c;
  }

  // ----- Mappings -----

  predicate Matches(m: Mapping, cs: seq<string>) { m.guest.names <= cs }

  ghost predicate MappingOk(m: Mapping) {
    && m.guest.rooted && !m.guest.trailing && G.AllPlain(m.guest.names)
    && Ok(m.host) && m.host.rooted && Normal(m.host) == m.host
  }

  ghost predicate MappingsOk(ms: seq<Mapping>) {
    && (forall i :: 0 <= i < |ms| ==> MappingOk(ms[i]))
    && (forall i, j :: 0 <= i < j < |ms| ==> ms[i].guest != ms[j].guest)
  }

  /** The most specific mapping for a guest path. */
  ghost predicate Deepest(ms: seq<Mapping>, cs: seq<string>, m: Mapping) {
    && m in ms && Matches(m, cs)
    && forall k :: k in ms && Matches(k, cs) ==> |k.guest.names| <= |m.guest.names|
  }

  lemma DeepestUnique(ms: seq<Mapping>, cs: seq<string>, m: Mapping, k: Mapping)
    requires MappingsOk(ms) && Deepest(ms, cs, m) && Deepest(ms, cs, k)
    ensures m == k
  {
    assert m.guest.names == cs[..|m.guest.names|] == k.guest.names;
    var i :| 0 <= i < |ms| && ms[i] == m;
    var j :| 0 <= j < |ms| && ms[j] == k;
    assert MappingOk(ms[i]) && MappingOk(ms[j]);
    assert m.guest == k.guest;
  }

  lemma MatchesMeans(m: Mapping, cs: seq<string>)
    requires MappingOk(m) && G.AllPlain(cs)
    ensures Within(GuestAsPath(cs), m.guest) <==> Matches(m, cs)
  {
    hide Normal, Within;
    PlainStraight(cs);
    PlainStraight(m.guest.names);
    PlainNormal(true, cs);
    PlainNormal(true, m.guest.names);
    WithinMeans(GuestAsPath(cs), m.guest);
  }

  /** A mapping whose host directory was given with a trailing separator only serves its own root. */
  predicate Serves(m: Mapping, cs: seq<string>) { m.host.trailing ==> cs == m.guest.names }

  /** The host path is the host directory followed by what the guest path has beyond the mapping. */
  ghost predicate MapsTo(m: Mapping, cs: seq<string>, r: Path)
    requires Matches(m, cs)
  {
    Inside(r, m.host) && Reduced(r) == Reduced(m.host) + cs[|m.guest.names|..]
  }

  lemma RelativeToMapping(m: Mapping, cs: seq<string>)
    requires MappingOk(m) && G.AllPlain(cs) && Matches(m, cs)
    ensures var rest := cs[|m.guest.names|..];
            Relative(GuestAsPath(cs), m.guest) == if rest == [] then DOT else Below(rest)
  {
    hide Normal, Reduced;
    var g := m.guest;
    var rest := cs[|g.names|..];
    assert cs == g.names + rest;
    PlainStraight(g.names);
    PlainNormal(true, g.names);
    assert G.AllPlain(rest);
    if rest == [] {
      assert cs == g.names;
      CommonIs(Elements(g), Elements(g), |Elements(g)|);
    } else {
      RelativeFrom(g, rest);
    }
  }

  lemma MappedInside(m: Mapping, cs: seq<string>)
    requires MappingOk(m) && G.AllPlain(cs) && Matches(m, cs)
    ensures var r := Normal(Append(m.host, Below(cs[|m.guest.names|..])));
            MapsTo(m, cs, r) && (Within(r, m.host) <==> Serves(m, cs))
  {
    hide Fold, Within;
    var host := m.host;
    var rest := cs[|m.guest.names|..];
    assert cs == m.guest.names + rest;
    assert G.AllPlain(rest);
    PlainStraight(rest);
    InsideAppend(host, Below(rest));
    ReducedNormal(host);
    var joined := Append(host, Below(rest));
    var r := Normal(joined);
    assert Ok(joined);
    OkNormal(joined);
    NormalIdempotent(joined);
    WithinMeans(r, host);
    if rest != [] {
      AppendShape(host, rest);
    }
  }

  // ----- Relative translation -----

  /** How translate_relative_to keeps a path below the root. */
  function StayBelow(base: Path, candidate: Path, guest: string): Path {
    var rel := Relative(candidate, base);
    Normal(Append(base, if Trusted(rel) then rel else Below(G.Components(guest))))
  }

  function Candidate(base: Path, guest: string): Path { Normal(Append(Normal(base), Parse(guest))) }

  lemma OkCandidate(base: Path, guest: string)
    requires Ok(base)
    ensures Ok(Append(Normal(base), Parse(guest))) && Ok(Candidate(base, guest))
  {
    OkParse(guest);
    OkNormal(base);
    OkNormal(Append(Normal(base), Parse(guest)));
  }

  /** Whatever the guest path, with any number of ".." or an absolute path of its own. */
  lemma StayBelowInside(root: Path, base: Path, guest: string)
    requires Ok(base) && root != EMPTY
    ensures Inside(StayBelow(root, Candidate(base, guest), guest), root)
  {
    hide Inside, Trusted, Relative, Normal, Append, Parse;
    var c := Append(Normal(base), Parse(guest));
    OkCandidate(base, guest);
    var rel := Relative(Normal(c), root);
    if Trusted(rel) {
      TrustedStraight(c, root);
      InsideAppend(root, rel);
    } else {
      G.ComponentsPlain(guest);
      PlainStraight(G.Components(guest));
      InsideAppend(root, Below(G.Components(guest)));
    }
  }

  /** From a normalised root, an already normal guest path is simply appended. */
  lemma StayBelowExact(root: Path, cs: seq<string>)
    requires Ok(root) && root != EMPTY && Normal(root) == root && G.AllPlain(cs)
    ensures var guest := if G.Join(cs) == "/" then "" else G.Join(cs)[1..];
            StayBelow(root, Candidate(root, guest), guest) == Normal(Append(root, Below(cs)))
  {
    hide Normal, Append, Parse;
    var guest := if G.Join(cs) == "/" then "" else G.Join(cs)[1..];
    ParseNormalized(cs);
    ComponentsOfTail(cs);
    if cs == [] {
      RelativeToSelf(root);
    } else {
      RelativeOfAppend(root, cs);
    }
  }

  lemma ComponentsOfTail(cs: seq<string>)
    requires G.AllPlain(cs)
    ensures G.Components(if G.Join(cs) == "/" then "" else G.Join(cs)[1..]) == cs
  {
    hide G.Plain, G.Split;
    G.JoinSplits(cs);
    if cs == [] {
      assert G.Slashed("") == "";
      G.SplitWord("");
      assert G.Walk([], [""]) == [];
    } else {
      G.SplitJoin(cs);
      G.SlashedFixed(G.Join(cs)[1..]);
      G.WalkPlain([], cs);
      assert [] + cs == cs;
    }
  }

  // ----- The class -----

  ghost predicate PrefixOk(p: Path) { Ok(p) && p.rooted && Normal(p) == p }

  /** Some pass-through prefix, or the root itself, already contains the path. */
  predicate PassesThrough(prefixes: seq<Path>, root: Path, p: Path) {
    (exists i :: 0 <= i < |prefixes| && Within(p, prefixes[i])) || Within(p, root)
  }

  predicate Device(cs: seq<string>) {
    cs == ["dev", "null"] || cs == ["dev", "zero"] || cs == ["dev", "urandom"] || cs == ["dev", "random"]
  }

  function DevicePath(cs: seq<string>): Path {
    if cs == ["dev", "random"] then GuestAsPath(["dev", "urandom"]) else GuestAsPath(cs)
  }

  /** A normalised name compared as a string is compared component by component. */
  lemma SameName(cs: seq<string>, name: seq<string>)
    requires G.AllPlain(cs) && G.AllPlain(name)
    ensures G.Join(cs) == G.Join(name) <==> cs == name
  {
    G.JoinSplits(cs);
    G.JoinSplits(name);
  }

  lemma DeviceName(n: string)
    requires G.Plain(n)
    ensures G.AllPlain(["dev", n]) && G.Join(["dev", n]) == "/dev/" + n
  {
    assert ["dev", n][..1] == ["dev"] && ["dev"][..0] == [];
    assert G.Join(["dev"]) == "/dev";
  }

  class LinuxFileSystem {
    var root: Path
    var prefixes: seq<Path>
    var mappings: seq<Mapping>

    ghost predicate Valid()
      reads this
    {
      Ok(root) && MappingsOk(mappings) && forall i :: 0 <= i < |prefixes| ==> PrefixOk(prefixes[i])
    }

    constructor (root: Path)
      requires Ok(root)
      ensures Valid() && this.root == root && prefixes == [] && mappings == []
    {
      this.root := root;
      prefixes := [];
      mappings := [];
    }

    /** A prefix given relative to the host's working directory is made absolute; one that is
        already there is not added again. */
    method AddPassthroughPrefix(prefix: Path, cwd: Path)
      requires Valid() && Ok(prefix) && PrefixOk(cwd)
      modifies this`prefixes
      ensures Valid()
      ensures prefix == EMPTY ==> prefixes == old(prefixes)
      ensures prefix != EMPTY ==> PrefixOk(Anchored(cwd, prefix)) && Anchored(cwd, prefix) in prefixes
      ensures prefix != EMPTY && Anchored(cwd, prefix) in old(prefixes) ==> prefixes == old(prefixes)
      ensures prefix != EMPTY && Anchored(cwd, prefix) !in old(prefixes) ==> prefixes == old(prefixes) + [Anchored(cwd, prefix)]
    {
      hide Normal;
      if prefix == EMPTY {
        return;
      }
      var normalized := Normal(prefix);
      if !normalized.rooted {
        normalized := Normal(Append(cwd, normalized));
      }
      AnchoredOk(cwd, prefix);
      if normalized in prefixes {
        return;
      }
      prefixes := prefixes + [normalized];
    }

    /** At most one mapping per guest directory: a second one replaces the first in place. */
    method AddPathMapping(guest: string, host: Path, readOnly: bool, cwd: Path)
      requires Valid() && Ok(host) && host != EMPTY && PrefixOk(cwd)
      modifies this`mappings
      ensures Valid()
      ensures var m := Mapping(GuestAsPath(G.Components(guest)), Anchored(cwd, host), readOnly);
              && m in mappings
              && (forall k: Mapping :: k.guest != m.guest ==> (k in mappings <==> k in old(mappings)))
    {
      hide Normal, G.Components, G.Join, Parse;
      var normalized := G.NormalizeGuestPathString(guest);
      G.ComponentsPlain(guest);
      ParseNormalized(G.Components(guest));
      var normalizedGuest := Parse(normalized);
      var normalizedHost := Normal(host);
      if !normalizedHost.rooted {
        normalizedHost := Normal(Append(cwd, normalizedHost));
      }
      AnchoredOk(cwd, host);
      var m := Mapping(normalizedGuest, normalizedHost, readOnly);
      assert MappingOk(m);
      for i := 0 to |mappings|
        invariant mappings == old(mappings)
        invariant forall k :: 0 <= k < i ==> mappings[k].guest != normalizedGuest
      {
        if mappings[i].guest == normalizedGuest {
          ReplaceMapping(mappings, i, m);
          mappings := mappings[i := m];
          return;
        }
      }
      mappings := mappings + [m];
    }

    /** The deepest mapping wins; None only when nothing matches. */
    method FindMapping(cs: seq<string>) returns (best: Option<Mapping>)
      requires Valid() && G.AllPlain(cs)
      ensures best.None? <==> forall i :: 0 <= i < |mappings| ==> !Matches(mappings[i], cs)
      ensures best.Some? ==> Deepest(mappings, cs, best.value)
    {
      hide Within;
      best := None;
      var bestDepth := 0;
      for i := 0 to |mappings|
        invariant best.None? <==> forall k :: 0 <= k < i ==> !Matches(mappings[k], cs)
        invariant best.Some? ==> Deepest(mappings[..i], cs, best.value) && bestDepth == 1 + |best.value.guest.names|
      {
        var m := mappings[i];
        MatchesMeans(m, cs);
        assert mappings[..i + 1] == mappings[..i] + [m];
        var within := IsWithin(GuestAsPath(cs), m.guest);
        if within {
          var depth := |Elements(m.guest)|;
          if best.None? || depth > bestDepth {
            assert best.None? ==> forall k :: k in mappings[..i] ==> !Matches(k, cs);
            best := Some(m);
            bestDepth := depth;
          }
        }
      }
      assert mappings[..|mappings|] == mappings;
    }

    method TranslateMappedPath(cs: seq<string>) returns (r: Option<Path>)
      requires Valid() && G.AllPlain(cs)
      ensures r.Some? <==> exists m :: Deepest(mappings, cs, m) && Serves(m, cs)
      ensures r.Some? ==> exists m :: Deepest(mappings, cs, m) && MapsTo(m, cs, r.value)
    {
      hide Within, MapsTo, Normal, Relative, Serves;
      var mapping := FindMapping(cs);
      if mapping.None? {
        assert forall m :: m in mappings ==> !Matches(m, cs);
        return None;
      }
      var m := mapping.value;
      assert MappingOk(m);
      var relative := Relative(GuestAsPath(cs), m.guest);
      RelativeToMapping(m, cs);
      if relative == DOT {
        relative := EMPTY;
      }
      BelowNotUp(cs, |m.guest.names|);
      assert relative == EMPTY || Elements(relative)[0] != "..";
      var hostPath := Normal(Append(m.host, relative));
      MappedInside(m, cs);
      var within := IsWithin(hostPath, m.host);
      if !within {
        forall k | Deepest(mappings, cs, k)
          ensures !Serves(k, cs)
        {
          DeepestUnique(mappings, cs, m, k);
        }
        return None;
      }
      return Some(hostPath);
    }

    method Translate(guestPath: string) returns (r: Path)
      requires Valid()
      ensures guestPath == "" ==> r == root
      ensures guestPath != "" ==> Lands(root, prefixes, mappings, G.Components(guestPath), r)
    {
      hide G.Components, G.Join, Deepest, Serves, MapsTo, Inside, Within, Normal, Device, Reduced;
      if guestPath == "" {
        return root;
      }
      var normalized := G.NormalizeGuestPathString(guestPath);
      ghost var cs := G.Components(guestPath);
      G.ComponentsPlain(guestPath);
      ParseNormalized(cs);
      var normalizedGuest := Parse(normalized);
      var device := TranslateDevice(normalized, cs);
      if device.Some? {
        return device.value;
      }
      var mapped := TranslateMappedPath(normalizedGuest.names);
      if mapped.Some? {
        return mapped.value;
      }
      if root == EMPTY {
        return normalizedGuest;
      }
      var passes := Passes(normalizedGuest);
      if passes {
        return normalizedGuest;
      }
      var relative := if normalized == "/" then "" else normalized[1..];
      r := TranslateRelativeTo(root, relative);
      RootContainsItself(root);
      StayBelowInside(root, root, relative);
      RootExact(root, cs);
    }

    /** The loop over the pass-through prefixes, then the test against the root. */
    method Passes(p: Path) returns (r: bool)
      ensures r <==> PassesThrough(prefixes, root, p)
    {
      hide Within;
      for i := 0 to |prefixes|
        invariant forall k :: 0 <= k < i ==> !Within(p, prefixes[k])
      {
        var within := IsWithin(p, prefixes[i]);
        if within {
          return true;
        }
      }
      r := IsWithin(p, root);
    }

    /** Below the root, below the first pass-through prefix that holds the base, or anywhere. */
    method TranslateRelativeTo(base: Path, guestPath: string) returns (r: Path)
      requires Valid() && Ok(base)
      ensures r == RelativeTo(root, prefixes, base, guestPath)
      ensures root != EMPTY && Within(Normal(base), root) ==> Inside(r, root)
      ensures root != EMPTY && !Within(Normal(base), root) ==>
                forall i: nat :: FirstPrefix(prefixes, base, i) ==> Inside(r, prefixes[i])
    {
      hide Within, Normal, Inside, Relative, G.Components, G.Join, Parse;
      var normalizedBase := Normal(base);
      var candidate := Normal(Append(normalizedBase, Parse(guestPath)));
      if root == EMPTY {
        return candidate;
      }
      StayBelowInside(root, base, guestPath);
      var within := IsWithin(normalizedBase, root);
      if within {
        var relative := Relative(candidate, root);
        if relative == EMPTY || relative == DOT || Elements(relative)[0] == ".." {
          var normalized := G.NormalizeGuestPathString(guestPath);
          G.ComponentsPlain(guestPath);
          ParseNormalized(G.Components(guestPath));
          relative := Parse(if normalized == "/" then "" else normalized[1..]);
        }
        return Normal(Append(root, relative));
      }
      r := UnderPrefixes(base, candidate);
      forall i: nat | FirstPrefix(prefixes, base, i)
        ensures Inside(r, prefixes[i])
      {
        UnderFirstIs(prefixes, base, candidate, i);
        PrefixKeeps(prefixes[i], base, guestPath);
      }
    }

    method UnderPrefixes(base: Path, candidate: Path) returns (r: Path)
      ensures r == UnderFirst(prefixes, base, candidate)
    {
      hide Within, Normal, Relative, Append;
      var normalizedBase := Normal(base);
      assert prefixes[0..] == prefixes;
      for i := 0 to |prefixes|
        invariant UnderFirst(prefixes[i..], base, candidate) == UnderFirst(prefixes, base, candidate)
      {
        var prefix := prefixes[i];
        assert prefixes[i..][0] == prefix && prefixes[i..][1..] == prefixes[i + 1..];
        var within := IsWithin(normalizedBase, prefix);
        if within {
          var relative := Relative(candidate, prefix);
          if relative != EMPTY && relative != DOT && Elements(relative)[0] != ".." {
            return Normal(Append(prefix, relative));
          }
          return normalizedBase;
        }
      }
      return candidate;
    }
  }

  /** The absolute normal form of a host path. */
  function Anchored(cwd: Path, p: Path): Path {
    if Normal(p).rooted then Normal(p) else Normal(Append(cwd, Normal(p)))
  }

  lemma AnchoredOk(cwd: Path, p: Path)
    requires Ok(p) && PrefixOk(cwd)
    ensures PrefixOk(Anchored(cwd, p))
  {
    hide Fold;
    OkNormal(p);
    NormalIdempotent(p);
    ReducedNormal(p);
    var joined := Append(cwd, Normal(p));
    assert Ok(joined);
    OkNormal(joined);
    NormalIdempotent(joined);
    ReducedNormal(joined);
  }

  lemma ReplaceMapping(ms: seq<Mapping>, i: nat, m: Mapping)
    requires MappingsOk(ms) && i < |ms| && ms[i].guest == m.guest && MappingOk(m)
    ensures MappingsOk(ms[i := m])
    ensures m in ms[i := m] && forall k: Mapping :: k.guest != m.guest ==> (k in ms[i := m] <==> k in ms)
  {
    hide MappingOk;
    var r := ms[i := m];
    assert r[i] == m;
    forall k: Mapping | k.guest != m.guest
      ensures k in r <==> k in ms
    {
      if k in ms {
        var j :| 0 <= j < |ms| && ms[j] == k;
        assert r[j] == k;
      }
    }
  }

  /** The device files; both random devices are the host's urandom. */
  method TranslateDevice(normalized: string, ghost cs: seq<string>) returns (r: Option<Path>)
    requires G.AllPlain(cs) && normalized == G.Join(cs)
    ensures r == if Device(cs) then Some(DevicePath(cs)) else None
  {
    hide G.AllPlain, G.Join, G.Plain;
    DeviceNames();
    SameName(cs, ["dev", "null"]);
    SameName(cs, ["dev", "zero"]);
    SameName(cs, ["dev", "urandom"]);
    SameName(cs, ["dev", "random"]);
    if normalized == "/dev/null" {
      return Some(GuestAsPath(["dev", "null"]));
    }
    if normalized == "/dev/zero" {
      return Some(GuestAsPath(["dev", "zero"]));
    }
    if normalized == "/dev/urandom" || normalized == "/dev/random" {
      return Some(GuestAsPath(["dev", "urandom"]));
    }
    return None;
  }

  lemma DeviceNames()
    ensures G.AllPlain(["dev", "null"]) && G.Join(["dev", "null"]) == "/dev/null"
    ensures G.AllPlain(["dev", "zero"]) && G.Join(["dev", "zero"]) == "/dev/zero"
    ensures G.AllPlain(["dev", "urandom"]) && G.Join(["dev", "urandom"]) == "/dev/urandom"
    ensures G.AllPlain(["dev", "random"]) && G.Join(["dev", "random"]) == "/dev/random"
  {
    hide G.Join, G.AllPlain;
    DeviceName("null");
    DeviceName("zero");
    DeviceName("urandom");
    DeviceName("random");
  }

  lemma BelowNotUp(cs: seq<string>, n: nat)
    requires G.AllPlain(cs) && n <= |cs|
    ensures n < |cs| ==> Elements(Below(cs[n..]))[0] != ".."
  {
    assert n < |cs| ==> G.Plain(cs[n]);
  }

  lemma RootContainsItself(root: Path)
    ensures Within(Normal(root), root)
  {
    NormalIdempotent(root);
  }

  lemma RootExact(root: Path, cs: seq<string>)
    requires Ok(root) && root != EMPTY && G.AllPlain(cs)
    ensures var guest := if G.Join(cs) == "/" then "" else G.Join(cs)[1..];
            Normal(root) == root ==> Reduced(StayBelow(root, Candidate(root, guest), guest)) == Reduced(root) + cs
  {
    hide Normal, Reduced, StayBelow, Candidate, G.Join;
    if Normal(root) == root {
      StayBelowExact(root, cs);
      PlainStraight(cs);
      InsideAppend(root, Below(cs));
    }
  }

  /** The result of translate for the components of the normalised guest path. */
  ghost predicate Lands(root: Path, prefixes: seq<Path>, mappings: seq<Mapping>, cs: seq<string>, r: Path) {
    if Device(cs) then r == DevicePath(cs)
    else if exists m :: Deepest(mappings, cs, m) && Serves(m, cs) then
      exists m :: Deepest(mappings, cs, m) && MapsTo(m, cs, r)
    else if root == EMPTY || PassesThrough(prefixes, root, GuestAsPath(cs)) then r == GuestAsPath(cs)
    else Inside(r, root) && (Normal(root) == root ==> Reduced(r) == Reduced(root) + cs)
  }

  /** The four device files keep their names, except that random is urandom; no mapping, prefix or
      root takes part. Other names directly under /dev are ordinary. */
  lemma DevicesLand(root: Path, prefixes: seq<Path>, mappings: seq<Mapping>, n: string, r: Path)
    requires n == "null" || n == "zero" || n == "urandom" || n == "random"
    ensures Lands(root, prefixes, mappings, ["dev", n], r) <==> r == Path(true, ["dev", if n == "random" then "urandom" else n], false)
    ensures forall cs :: Device(cs) <==> |cs| == 2 && cs[0] == "dev" && cs[1] in {"null", "zero", "urandom", "random"}
  {
    forall cs: seq<string>
      ensures Device(cs) <==> |cs| == 2 && cs[0] == "dev" && cs[1] in {"null", "zero", "urandom", "random"}
    {
      assert |cs| == 2 ==> cs == [cs[0], cs[1]];
    }
    assert Device(["dev", n]);
  }

  /** The directory and everything below it, unless it is spelled with a trailing separator. */
  ghost predicate Holds(area: Path, cs: seq<string>) {
    area.rooted && !Normal(area).trailing && Reduced(area) <= cs
  }

  /** A guest path passes through exactly when a prefix or the root holds it. */
  lemma PassesIff(prefixes: seq<Path>, root: Path, cs: seq<string>)
    requires G.AllPlain(cs) && Ok(root) && root != EMPTY && forall i :: 0 <= i < |prefixes| ==> PrefixOk(prefixes[i])
    ensures PassesThrough(prefixes, root, GuestAsPath(cs)) <==> exists area :: area in prefixes + [root] && Holds(area, cs)
  {
    hide Within, Holds;
    forall area | area in prefixes + [root]
      ensures Within(GuestAsPath(cs), area) <==> Holds(area, cs)
    {
      assert Ok(area) && area != EMPTY;
      HoldsIff(area, cs);
    }
    forall i | 0 <= i < |prefixes|
      ensures prefixes[i] in prefixes + [root]
    {
    }
    assert root in prefixes + [root];
  }

  lemma HoldsIff(area: Path, cs: seq<string>)
    requires G.AllPlain(cs) && Ok(area) && area != EMPTY
    ensures Within(GuestAsPath(cs), area) <==> Holds(area, cs)
  {
    hide Within, Fold, Normal;
    PlainNormal(true, cs);
    PlainStraight(cs);
    NormalNames(area);
    WithinMeans(GuestAsPath(cs), area);
  }

  // ----- Where a base-relative path may lead -----

  /** Below a pass-through prefix, or the base itself when the path would leave it. */
  function KeepUnder(prefix: Path, base: Path, candidate: Path): Path {
    var rel := Relative(candidate, prefix);
    if Trusted(rel) then Normal(Append(prefix, rel)) else Normal(base)
  }

  function UnderFirst(prefixes: seq<Path>, base: Path, candidate: Path): Path
    decreases |prefixes|
  {
    if prefixes == [] then candidate
    else if Within(Normal(base), prefixes[0]) then KeepUnder(prefixes[0], base, candidate)
    else UnderFirst(prefixes[1..], base, candidate)
  }

  /** translate_relative_to. */
  function RelativeTo(root: Path, prefixes: seq<Path>, base: Path, guest: string): Path {
    var c := Candidate(base, guest);
    if root == EMPTY then c
    else if Within(Normal(base), root) then StayBelow(root, c, guest)
    else UnderFirst(prefixes, base, c)
  }

  ghost predicate FirstPrefix(prefixes: seq<Path>, base: Path, i: nat) {
    i < |prefixes| && Within(Normal(base), prefixes[i]) && forall k :: 0 <= k < i ==> !Within(Normal(base), prefixes[k])
  }

  lemma {:induction false} UnderFirstIs(prefixes: seq<Path>, base: Path, c: Path, i: nat)
    requires FirstPrefix(prefixes, base, i)
    ensures UnderFirst(prefixes, base, c) == KeepUnder(prefixes[i], base, c)
    decreases i
  {
    hide Within, KeepUnder;
    if i > 0 {
      UnderFirstIs(prefixes[1..], base, c, i - 1);
    }
  }

  lemma {:induction false} UnderNone(prefixes: seq<Path>, base: Path, c: Path)
    requires forall k :: 0 <= k < |prefixes| ==> !Within(Normal(base), prefixes[k])
    ensures UnderFirst(prefixes, base, c) == c
    decreases |prefixes|
  {
    hide Within, KeepUnder;
    if prefixes != [] {
      UnderNone(prefixes[1..], base, c);
    }
  }

  lemma {:induction false} FirstOrNone(prefixes: seq<Path>, base: Path, n: nat)
    requires n <= |prefixes|
    ensures (exists i: nat :: i < n && FirstPrefix(prefixes, base, i)) || forall k :: 0 <= k < n ==> !Within(Normal(base), prefixes[k])
    decreases n
  {
    hide Within;
    if n > 0 {
      FirstOrNone(prefixes, base, n - 1);
      assert (forall k :: 0 <= k < n - 1 ==> !Within(Normal(base), prefixes[k])) && Within(Normal(base), prefixes[n - 1])
        ==> FirstPrefix(prefixes, base, n - 1);
    }
  }

  lemma PrefixKeeps(prefix: Path, base: Path, guest: string)
    requires PrefixOk(prefix) && Ok(base) && Within(Normal(base), prefix)
    ensures Inside(KeepUnder(prefix, base, Candidate(base, guest)), prefix)
  {
    hide Within, Inside, Normal, Relative, Trusted, Parse, Append;
    OkNormal(base);
    WithinInside(Normal(base), prefix);
    var c := Append(Normal(base), Parse(guest));
    OkCandidate(base, guest);
    var rel := Relative(Normal(c), prefix);
    if Trusted(rel) {
      TrustedStraight(c, prefix);
      InsideAppend(prefix, rel);
    }
  }

  lemma InsideTransitive(a: Path, b: Path, c: Path)
    requires Inside(a, b) && Inside(b, c)
    ensures Inside(a, c)
  {
    hide Reduced;
    var x, y, z := Reduced(a), Reduced(b), Reduced(c);
    forall i | |z| <= i < |x|
      ensures x[i] != "." && x[i] != ".."
    {
      assert i < |y| ==> y[|z|..][i - |z|] == y[i] == x[i];
      assert |y| <= i ==> x[|y|..][i - |y|] == x[i];
    }
  }

  /** The code's test accepts a base inside an area exactly when neither a trailing separator nor a
      bare "." in the area's spelling gets in the way. */
  predicate Sealed(area: Path, base: Path) {
    && (Normal(area).trailing ==> Normal(base).names == Normal(area).names && Normal(base).trailing)
    && (Normal(area) == DOT ==> Normal(base) == DOT)
  }

  lemma NormalNames(p: Path)
    requires Ok(p)
    ensures Normal(p).rooted == p.rooted
    ensures Reduced(p) != [] || p.rooted ==> Normal(p).names == Reduced(p) && Normal(p) != DOT
    ensures Reduced(p) != [] ==> Reduced(p)[0] != "."
    ensures Reduced(p) == [] && !p.rooted ==> Normal(p) == if p == EMPTY then EMPTY else DOT
    ensures Reduced(p) == [] ==> !Normal(p).trailing
  {
    hide Fold;
    ReducedNormal(p);
    FoldEmpty(false);
    assert Reduced(p) != [] ==> Reduced(p)[0] != ".";
  }

  lemma FoldEmpty(rooted: bool)
    ensures Fold(rooted, [], []) == []
  {
  }

  lemma SealedIff(area: Path, base: Path)
    requires Ok(area) && area != EMPTY && Ok(base) && Inside(base, area)
    ensures Within(Normal(base), area) <==> Sealed(area, base)
  {
    hide Within, Normal, Reduced;
    NormalNames(area);
    NormalNames(base);
    NormalIdempotent(base);
    OkNormal(base);
    WithinMeans(Normal(base), area);
  }

  /** An absolute path of the guest leaves every area the test has not accepted. */
  lemma SlashEscapes(area: Path, base: Path)
    requires Ok(area) && area != EMPTY && Ok(base) && Inside(base, area) && !Within(Normal(base), area)
    ensures !Inside(Candidate(base, "/"), area)
  {
    hide Within, Fold;
    SealedIff(area, base);
    NormalNames(area);
    ParseRoot();
    FoldEmpty(true);
    assert Candidate(base, "/") == Path(true, [], false);
  }

  /** A path spelled out name by name. */
  function Spell(names: seq<string>): string {
    if names == [] then "" else Spell(names[..|names| - 1]) + "/" + names[|names| - 1]
  }

  lemma {:induction false} SplitSpelled(names: seq<string>)
    requires names != [] && forall i :: 0 <= i < |names| ==> names[i] != "" && '/' !in names[i]
    ensures G.Split(Spell(names)) == [""] + names && Spell(names) != "" && Spell(names)[0] == '/' && Spell(names)[|Spell(names)| - 1] != '/'
    decreases |names|
  {
    hide G.Split;
    var n := |names| - 1;
    var front, last := names[..n], names[n];
    G.SplitWord(last);
    G.SplitAtSlash(Spell(front), last);
    assert last[|last| - 1] in last;
    if n == 0 {
      G.SplitWord("");
      assert front == [] && names == [last] && "" + "/" + last == Spell(names);
    } else {
      SplitSpelled(front);
      assert ([""] + front) + [last] == [""] + names;
    }
  }

  lemma ParseSpelled(names: seq<string>)
    requires Ok(Path(true, names, false)) && names != []
    ensures Parse(Spell(names)) == Path(true, names, false)
  {
    hide G.Split, Spell;
    SplitSpelled(names);
    NonEmptyPlain(names);
    FirstEmpty(names);
  }

  /** A guest path to a sibling: it stays below the prefix and leaves a smaller area. */
  lemma SiblingEscapes(prefix: Path, base: Path, area: Path) returns (guest: string)
    requires PrefixOk(prefix) && Ok(base) && Within(Normal(base), prefix) && Inside(base, area) && !Inside(prefix, area)
    ensures !Inside(KeepUnder(prefix, base, Candidate(base, guest)), area)
  {
    hide Within, Relative, Trusted, Parse, Append, Fold;
    var p, r := Reduced(prefix), Reduced(area);
    OkNormal(base);
    WithinInside(Normal(base), prefix);
    ReducedNormal(base);
    ReducedNormal(prefix);
    NormalNames(prefix);
    SmallerArea(prefix, base, area);
    var x := if r[|p|] == "x" then "y" else "x";
    var names := p + [x];
    guest := Spell(names);
    SpelledOk(prefix, x);
    ParseSpelled(names);
    assert G.Plain(x) && G.AllPlain([x]);
    SiblingLands(prefix, base, x, guest);
    assert names[|p|] == x;
  }

  lemma SpelledOk(prefix: Path, x: string)
    requires PrefixOk(prefix) && (x == "x" || x == "y")
    ensures Ok(Path(true, Reduced(prefix) + [x], false))
  {
    hide Fold;
    NormalNames(prefix);
  }

  /** Two areas around one base are nested. */
  lemma SmallerArea(prefix: Path, base: Path, area: Path)
    requires prefix.rooted && Inside(base, prefix) && Inside(base, area) && !Inside(prefix, area)
    ensures |Reduced(prefix)| < |Reduced(area)| && area.rooted
  {
    hide Fold;
    ReducedNormal(prefix);
    var p, r, b := Reduced(prefix), Reduced(area), Reduced(base);
    assert r == b[..|r|] && p == b[..|p|];
  }

  lemma SiblingLands(prefix: Path, base: Path, x: string, guest: string)
    requires PrefixOk(prefix) && (x == "x" || x == "y") && G.AllPlain([x])
    requires Parse(guest) == Path(true, Reduced(prefix) + [x], false)
    ensures Reduced(KeepUnder(prefix, base, Candidate(base, guest))) == Reduced(prefix) + [x]
  {
    hide Within, Relative, Parse, Fold;
    var p := Reduced(prefix);
    var there := Path(true, p + [x], false);
    ReducedNormal(prefix);
    SettledMore(p, x);
    FoldSettled(true, p + [x]);
    assert Candidate(base, guest) == Normal(there);
    assert Normal(there) == there;
    RelativeFrom(prefix, [x]);
    InsideAppend(prefix, Below([x]));
    assert Elements(Below([x]))[0] == x;
  }

  lemma SettledMore(p: seq<string>, x: string)
    requires Settled(true, p) && (x == "x" || x == "y")
    ensures Settled(true, p + [x])
  {
  }

  /** Exactly when every guest path, taken from a base inside the root, stays inside the root: the
      root's spelling does not defeat the test, or a pass-through prefix inside the root steps in. */
  lemma RootKeepsIff(root: Path, prefixes: seq<Path>, base: Path)
    requires Ok(root) && root != EMPTY && Ok(base) && Inside(base, root)
    requires forall i :: 0 <= i < |prefixes| ==> PrefixOk(prefixes[i])
    ensures (forall guest :: Inside(RelativeTo(root, prefixes, base, guest), root))
       <==> Sealed(root, base) || exists i: nat :: FirstPrefix(prefixes, base, i) && Inside(prefixes[i], root)
  {
    hide Inside, Within, StayBelow, Candidate, KeepUnder, Sealed, UnderFirst;
    SealedIff(root, base);
    if Within(Normal(base), root) {
      forall guest
        ensures Inside(RelativeTo(root, prefixes, base, guest), root)
      {
        StayBelowInside(root, base, guest);
      }
    } else {
      assert forall guest :: RelativeTo(root, prefixes, base, guest) == UnderFirst(prefixes, base, Candidate(base, guest));
      PrefixesKeepIff(prefixes, base, root);
    }
  }

  /** The pass-through branch keeps an area exactly when the first prefix around the base lies in it. */
  lemma PrefixesKeepIff(prefixes: seq<Path>, base: Path, area: Path)
    requires Ok(area) && area != EMPTY && Ok(base) && Inside(base, area)
    requires forall i :: 0 <= i < |prefixes| ==> PrefixOk(prefixes[i])
    requires Within(Normal(base), area) ==> exists k :: 0 <= k < |prefixes| && Within(Normal(base), prefixes[k])
    ensures (forall guest :: Inside(UnderFirst(prefixes, base, Candidate(base, guest)), area))
       <==> exists i: nat :: FirstPrefix(prefixes, base, i) && Inside(prefixes[i], area)
  {
    hide Inside, Within, Candidate, KeepUnder, PrefixOk;
    FirstOrNone(prefixes, base, |prefixes|);
    if i: nat :| i < |prefixes| && FirstPrefix(prefixes, base, i) {
      OnlyFirst(prefixes, base, i);
      if Inside(prefixes[i], area) {
        forall guest
          ensures Inside(UnderFirst(prefixes, base, Candidate(base, guest)), area)
        {
          UnderFirstIs(prefixes, base, Candidate(base, guest), i);
          PrefixKeeps(prefixes[i], base, guest);
          InsideTransitive(KeepUnder(prefixes[i], base, Candidate(base, guest)), prefixes[i], area);
        }
      } else {
        var guest := SiblingEscapes(prefixes[i], base, area);
        UnderFirstIs(prefixes, base, Candidate(base, guest), i);
      }
    } else {
      SlashEscapes(area, base);
      UnderNone(prefixes, base, Candidate(base, "/"));
    }
  }

  lemma OnlyFirst(prefixes: seq<Path>, base: Path, i: nat)
    requires FirstPrefix(prefixes, base, i)
    ensures forall j: nat :: FirstPrefix(prefixes, base, j) ==> j == i
  {
    hide Within;
  }

  /** A single pass-through prefix keeps a base inside it, away from the root, exactly when the
      prefix was given without a trailing separator or the base is spelled the same way. */
  lemma PrefixKeepsIff(root: Path, prefix: Path, base: Path)
    requires root != EMPTY && PrefixOk(prefix) && Ok(base) && Inside(base, prefix) && !Within(Normal(base), root)
    ensures (forall guest :: Inside(RelativeTo(root, [prefix], base, guest), prefix)) <==> Sealed(prefix, base)
  {
    hide Inside, Within, Candidate, KeepUnder, Sealed, UnderFirst;
    SealedIff(prefix, base);
    var prefixes := [prefix];
    assert forall guest :: RelativeTo(root, prefixes, base, guest) == UnderFirst(prefixes, base, Candidate(base, guest));
    assert Within(Normal(base), prefixes[0]) <==> FirstPrefix(prefixes, base, 0);
    InsideItself(prefix);
    PrefixesKeepIff(prefixes, base, prefix);
  }

  lemma InsideItself(p: Path)
    ensures Inside(p, p)
  {
  }

  /** A mapping of "/g" added with host "/h/": the guest path "/g/x" leads to "/h/x", which the test
      does not place in "/h/", so no mapping serves it. */
  lemma TrailingHostUnserved(cwd: Path)
    ensures var m := Mapping(GuestAsPath(["g"]), Anchored(cwd, Path(true, ["h"], true)), false);
            var cs, r := ["g", "x"], Path(true, ["h", "x"], false);
            && Parse("/h/") == Path(true, ["h"], true) && MappingOk(m) && Deepest([m], cs, m)
            && Normal(Append(m.host, Below(["x"]))) == r && Inside(r, m.host) && !Within(r, m.host)
            && !exists k :: Deepest([m], cs, k) && Serves(k, cs)
  {
    hide Within, G.Split, Fold;
    var host := Path(true, ["h"], true);
    FoldStraight(true, [], ["h"]);
    FoldStraight(true, [], ["h", "x"]);
    assert Normal(host) == host;
    var m := Mapping(GuestAsPath(["g"]), host, false);
    var cs := ["g", "x"];
    assert MappingOk(m);
    assert cs[..1] == ["g"] && cs[1..] == ["x"];
    MappedInside(m, cs);
    assert Append(host, Below(["x"])) == Path(true, ["h"] + ["x"], false) && ["h"] + ["x"] == ["h", "x"];
    ParseTrailing();
  }

  lemma ParseTrailing()
    ensures Parse("/h/") == Path(true, ["h"], true)
  {
    hide G.Split;
    G.SplitWord("h");
    G.SplitWord("");
    assert "" + "/" + "h/" == "/h/" && "h" + "/" + "" == "h/";
    G.SplitAtSlash("", "h/");
    G.SplitAtSlash("h", "");
    assert [""] + (["h"] + [""]) == ["", "h", ""];
    assert ["", "h", ""][1..] == ["h", ""] && ["h", ""][1..] == [""] && [""][1..] == [];
    assert NonEmpty([""]) == [] && NonEmpty(["h", ""]) == ["h"];
  }

  /** Root "/r/", base "/r/sub", guest path "../../etc": the result is "/etc". */
  lemma TrailingRootEscape()
    ensures var root, base := Path(true, ["r"], true), Path(true, ["r", "sub"], false);
            && Ok(root) && Normal(root) == root && Ok(base) && Inside(base, root) && !Sealed(root, base)
            && RelativeTo(root, [], base, "../../etc") == Path(true, ["etc"], false)
            && !Inside(RelativeTo(root, [], base, "../../etc"), root)
  {
    hide Within, G.Split, Fold;
    var root, base := Path(true, ["r"], true), Path(true, ["r", "sub"], false);
    FoldWords();
    assert Reduced(root) == ["r"] && Reduced(base) == ["r", "sub"];
    assert Normal(root) == root && Normal(base) == base;
    assert Ok(root) && Ok(base);
    assert Reduced(base)[1..] == ["sub"];
    SealedIff(root, base);
    ParseUpTwice();
    var up := Path(false, ["..", "..", "etc"], false);
    assert Append(base, up) == Path(true, ["r", "sub"] + ["..", "..", "etc"], false);
    assert ["r", "sub"] + ["..", "..", "etc"] == ["r", "sub", "..", "..", "etc"];
    assert Candidate(base, "../../etc") == Path(true, ["etc"], false);
    UnderNone([], base, Candidate(base, "../../etc"));
    assert Reduced(Path(true, ["etc"], false)) == ["etc"];
    assert ["r"][0] != ["etc"][0];
  }

  /** Root ".", base "sub": the guest path "/" is the host's root directory. */
  lemma DotRootEscape()
    ensures var base := Path(false, ["sub"], false);
            Inside(base, DOT) && !Sealed(DOT, base) && !Inside(RelativeTo(DOT, [], base, "/"), DOT)
  {
    hide Within;
    var base := Path(false, ["sub"], false);
    FoldStraight(false, [], ["sub"]);
    assert Fold(false, [], ["."]) == Fold(false, [], []) == [];
    assert Reduced(base) == ["sub"] && Reduced(DOT) == [];
    assert Normal(base) == base && Normal(DOT) == DOT && Ok(DOT) && Ok(base);
    SealedIff(DOT, base);
    SlashEscapes(DOT, base);
    UnderNone([], base, Candidate(base, "/"));
  }

  lemma FoldWords()
    ensures Fold(true, [], ["r"]) == ["r"] && Fold(true, [], ["etc"]) == ["etc"]
    ensures Fold(true, [], ["r", "sub"]) == ["r", "sub"]
    ensures Fold(true, [], ["r", "sub", "..", "..", "etc"]) == ["etc"]
  {
    FoldStraight(true, [], ["r"]);
    FoldStraight(true, [], ["etc"]);
    FoldStraight(true, [], ["r", "sub"]);
    assert ["r", "sub", "..", "..", "etc"] == ["r", "sub"] + ["..", "..", "etc"];
    FoldAppend(true, [], ["r", "sub"], ["..", "..", "etc"]);
    FoldUp(["r", "sub"], ["..", "etc"]);
    FoldUp(["r"], ["etc"]);
    assert ["r", "sub"][..1] == ["r"] && ["r"][..0] == [];
    assert [".."] + ["..", "etc"] == ["..", "..", "etc"] && [".."] + ["etc"] == ["..", "etc"];
  }

  lemma FoldUp(stack: seq<string>, rest: seq<string>)
    requires stack != [] && stack[|stack| - 1] != ".."
    ensures Fold(true, stack, [".."] + rest) == Fold(true, stack[..|stack| - 1], rest)
  {
    assert ([".."] + rest)[1..] == rest;
  }

  lemma ParseUpTwice()
    ensures Parse("../../etc") == Path(false, ["..", "..", "etc"], false)
  {
    hide G.Split;
    G.SplitWord("..");
    G.SplitWord("etc");
    assert ".." + "/" + "etc" == "../etc" && ".." + "/" + "../etc" == "../../etc";
    G.SplitAtSlash("..", "etc");
    G.SplitAtSlash("..", "../etc");
    assert [".."] + ([".."] + ["etc"]) == ["..", "..", "etc"];
    NonEmptyPlain(["..", "..", "etc"]);
  }

  /** Wherever translate lands with a root set, it is a device, or inside the deepest mapping's
      host directory, a pass-through prefix or the root. */
  lemma LandsContained(root: Path, prefixes: seq<Path>, mappings: seq<Mapping>, cs: seq<string>, r: Path)
    requires Ok(root) && root != EMPTY && G.AllPlain(cs) && (forall i :: 0 <= i < |prefixes| ==> PrefixOk(prefixes[i]))
    requires Lands(root, prefixes, mappings, cs, r)
    ensures Device(cs) || Inside(r, root) || (exists i :: 0 <= i < |prefixes| && Inside(r, prefixes[i]))
         || (exists m :: Deepest(mappings, cs, m) && Inside(r, m.host))
  {
    hide Within, Inside, Normal, Deepest, Device, Reduced;
    PlainStraight(cs);
    if PassesThrough(prefixes, root, GuestAsPath(cs)) {
      forall i | 0 <= i < |prefixes| && Within(GuestAsPath(cs), prefixes[i])
        ensures Inside(GuestAsPath(cs), prefixes[i])
      {
        assert PrefixOk(prefixes[i]);
        WithinInside(GuestAsPath(cs), prefixes[i]);
      }
      if Within(GuestAsPath(cs), root) {
        RootIsRooted(root, cs);
        WithinInside(GuestAsPath(cs), root);
      }
    }
  }

  lemma RootIsRooted(root: Path, cs: seq<string>)
    requires Ok(root) && root != EMPTY && G.AllPlain(cs) && Within(GuestAsPath(cs), root)
    ensures root.rooted
  {
    hide Within;
    PlainStraight(cs);
    WithinMeans(GuestAsPath(cs), root);
    ReducedNormal(root);
    ReducedNormal(GuestAsPath(cs));
  }
}
