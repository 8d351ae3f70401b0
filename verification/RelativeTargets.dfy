/** translate_relative_to in terms of directories: which one the result is, for every spelling. */
module RelativeTargets {
  import opened HostPath
  import opened FileSystem
  import G = GuestPath

  /** Two spellings of one directory. */
  ghost predicate SamePlace(p: Path, q: Path) {
    p.rooted == q.rooted && Reduced(p) == Reduced(q)
  }

  /** Inside `area`, and not `area` itself. */
  ghost predicate StrictlyInside(p: Path, area: Path) {
    Inside(p, area) && Reduced(p) != Reduced(area)
  }

  // ----- When the way down is trusted -----

  /** What follows the names among the elements of a normal path. */
  ghost predicate Flat(rest: seq<string>) {
    rest == [] || rest == [""] || rest == ["."]
  }

  ghost predicate NormalParts(p: Path, front: seq<string>, rest: seq<string>) {
    && Flat(rest)
    && front == (if p.rooted then ["/"] else [])
    && Elements(p) == front + Reduced(p) + rest
    && (rest == [""] ==> Reduced(p) != [])
    && (rest == ["."] ==> Reduced(p) == [] && !p.rooted)
  }

  lemma PartsOf(p: Path) returns (front: seq<string>, rest: seq<string>)
    requires Ok(p) && Normal(p) == p
    ensures NormalParts(p, front, rest) && (p != EMPTY && !p.rooted && Reduced(p) == [] ==> rest == ["."])
  {
    hide Fold, Normal;
    front := if p.rooted then ["/"] else [];
    if p == EMPTY {
      rest := [];
      FoldEmpty(false);
    } else {
      NormalShape(p);
      rest := if p == DOT then ["."] else if p.trailing then [""] else [];
    }
  }

  /** The climbs at the front of a relative path `b` are also at the front of `c`. */
  ghost predicate ClimbsToo(b: seq<string>, c: seq<string>) {
    forall i :: 0 <= i < |b| && b[i] == ".." ==> i < |c| && c[i] == ".."
  }

  lemma {:induction false} DepthDown(xs: seq<string>, rest: seq<string>)
    requires Straight(xs) && "" !in xs && Flat(rest)
    ensures Depth(xs + rest) == |xs|
    decreases |xs|
  {
    if xs == [] {
      assert xs + rest == rest;
      FlatRest(rest);
    } else {
      assert (xs + rest)[1..] == xs[1..] + rest;
      DepthDown(xs[1..], rest);
    }
  }

  /** A name of the base is not on the way: the way goes up first. */
  lemma AsideUntrusted(front: seq<string>, c: seq<string>, b: seq<string>, rest: seq<string>)
    requires Flat(rest) && b != [] && Straight(b) && "" !in b && (c != [] ==> c[0] != b[0])
    ensures Depth((front + (b + rest))[Common(front + c, front + (b + rest))..]) > 0
  {
    hide Depth, Common;
    var k := |front|;
    var p, q := front + c, front + (b + rest);
    assert p[..k] == front == q[..k] && q[k] == b[0];
    CommonIs(p, q, k);
    assert q[k..] == b + rest;
    DepthDown(b, rest);
  }

  /** Past all names of the base: the names that are left. */
  lemma RouteDown(front: seq<string>, c: seq<string>, cRest: seq<string>, bRest: seq<string>)
    requires c != [] && "" !in c && c[0] != "." && (cRest == [] || cRest == [""]) && Flat(bRest)
    ensures Route(front + c + cRest, front + bRest) == Path(false, c, cRest == [""])
  {
    hide Depth, Common, NonEmpty;
    var k := |front|;
    var p, q := front + c + cRest, front + bRest;
    assert p[..k] == front == q[..k] && p[k] == c[0];
    CommonIs(p, q, k);
    assert q[k..] == bRest && p[k..] == c + cRest;
    FlatRest(bRest);
    NamesThenRest(c, cRest);
    assert Ups(0) + c == c;
    assert cRest == [] ==> p[|p| - 1] == c[|c| - 1];
  }

  lemma {:induction false} NamesThenRest(c: seq<string>, rest: seq<string>)
    requires "" !in c && (rest == [] || rest == [""])
    ensures NonEmpty(c + rest) == c
    decreases |c|
  {
    if c == [] {
      assert c + rest == rest && (rest != [] ==> rest[1..] == []);
    } else {
      assert (c + rest)[1..] == c[1..] + rest;
      NamesThenRest(c[1..], rest);
      assert c == [c[0]] + c[1..];
    }
  }

  /** The code's three tests on a relative path say that it leads strictly inside the base, and then
      its names are what the path has beyond the base. */
  lemma TrustedIff(c: Path, b: Path)
    requires Ok(c) && Ok(b) && b != EMPTY && Normal(c) == c && Normal(b) == b
    requires ClimbsToo(Reduced(b), Reduced(c))
    ensures Trusted(Relative(c, b)) <==> StrictlyInside(c, b)
    ensures Trusted(Relative(c, b)) ==> Relative(c, b).names == Reduced(c)[|Reduced(b)|..]
  {
    hide Normal, Reduced, Elements, Depth;
    if c.rooted == b.rooted {
      var rc, rb := Reduced(c), Reduced(b);
      var m := Common(rc, rb);
      if m < |rb| {
        TrustedAside(c, b, m);
      } else if m < |rc| {
        TrustedBeyond(c, b);
      } else {
        TrustedEqual(c, b);
      }
    }
  }

  lemma ReducedOk(p: Path)
    requires Ok(p)
    ensures "" !in Reduced(p) && "." !in Reduced(p) && Settled(p.rooted, Reduced(p))
  {
    ReducedNormal(p);
    FoldOk(p.rooted, [], p.names);
  }

  lemma TrustedAside(c: Path, b: Path, m: nat)
    requires Ok(c) && Ok(b) && Normal(c) == c && Normal(b) == b && c.rooted == b.rooted
    requires m == Common(Reduced(c), Reduced(b)) < |Reduced(b)| && ClimbsToo(Reduced(b), Reduced(c))
    ensures !Trusted(Relative(c, b)) && !Inside(c, b)
  {
    hide Normal, Reduced, Elements, Trusted, Depth, Common, Settled;
    var rc, rb := Reduced(c), Reduced(b);
    var front, cRest := PartsOf(c);
    var _, bRest := PartsOf(b);
    ReducedOk(b);
    var x := rb[..m];
    assert rb == x + rb[m..] && rc == x + rc[m..];
    assert rb[m] != ".." && "" !in rb[m..];
    SettledSuffix(b.rooted, rb, m);
    assert Elements(c) == (front + x) + (rc[m..] + cRest) && Elements(b) == (front + x) + (rb[m..] + bRest);
    AsideUntrusted(front + x, rc[m..] + cRest, rb[m..], bRest);
    UpUntrusted(c, b);
  }

  lemma TrustedBeyond(c: Path, b: Path)
    requires Ok(c) && Ok(b) && b != EMPTY && Normal(c) == c && Normal(b) == b && c.rooted == b.rooted
    requires Reduced(b) < Reduced(c)
    ensures Trusted(Relative(c, b)) <==> Inside(c, b)
    ensures Relative(c, b).names == Reduced(c)[|Reduced(b)|..]
  {
    hide Normal, Reduced, Elements, Route;
    var rc, rb := Reduced(c), Reduced(b);
    var front, cRest := PartsOf(c);
    var _, bRest := PartsOf(b);
    ReducedOk(c);
    var down := rc[|rb|..];
    assert rc == rb + down && down[0] == rc[|rb|];
    assert "" !in down && "." !in down;
    RouteDown(front + rb, down, cRest, bRest);
    assert Elements(c) == front + rb + down + cRest && Elements(b) == front + rb + bRest;
    FirstDecides(c, rc, rb, down, cRest == [""]);
  }

  lemma FirstDecides(c: Path, rc: seq<string>, rb: seq<string>, down: seq<string>, t: bool)
    requires rc == rb + down && down != [] && "." !in down && Settled(c.rooted, rc)
    ensures Trusted(Path(false, down, t)) <==> Straight(down)
  {
    hide Settled;
    assert Elements(Path(false, down, t))[0] == down[0];
    if down[0] != ".." {
      SettledSuffix(c.rooted, rc, |rb|);
      assert rc[|rb|..] == down;
    }
  }

  lemma TrustedEqual(c: Path, b: Path)
    requires Ok(c) && Ok(b) && b != EMPTY && Normal(c) == c && Normal(b) == b && c.rooted == b.rooted
    requires Reduced(b) == Reduced(c)
    ensures !Trusted(Relative(c, b))
  {
    hide Normal, Reduced, Elements;
    var front, cRest := PartsOf(c);
    var _, bRest := PartsOf(b);
    var f := front + Reduced(b);
    SameUntrusted(f, cRest, bRest);
    assert cRest == ["."] ==> bRest == ["."];
  }

  lemma SameUntrusted(f: seq<string>, cRest: seq<string>, bRest: seq<string>)
    requires Flat(cRest) && Flat(bRest) && (cRest == ["."] ==> bRest == ["."])
    ensures Route(f + cRest, f + bRest) == DOT
  {
    hide Depth;
    var p, q := f + cRest, f + bRest;
    if cRest == bRest {
      CommonIs(p, q, |p|);
    } else {
      CommonIs(p, q, |f|);
      assert q[|f|..] == bRest;
      FlatRest(bRest);
    }
  }

  // ----- Where a base-relative path leads -----

  ghost predicate Climbs(u: nat, stack: seq<string>) {
    u <= |stack| && forall i :: 0 <= i < u ==> stack[i] == ".."
  }

  lemma {:induction false} FoldClimbs(u: nat, stack: seq<string>, names: seq<string>)
    requires Climbs(u, stack)
    ensures Climbs(u, Fold(false, stack, names))
    decreases |names|
  {
    if names != [] {
      FoldClimbs(u, Push(false, stack, names[0]), names[1..]);
    }
  }

  /** The directory a path names from a base does not depend on how the base is spelled. */
  lemma CandidateIs(base: Path, guest: string)
    requires Ok(base)
    ensures SamePlace(Candidate(base, guest), Append(base, Parse(guest)))
    ensures Normal(Candidate(base, guest)) == Candidate(base, guest) && Ok(Candidate(base, guest))
  {
    hide Fold, Parse, Normal;
    var q := Parse(guest);
    OkCandidate(base, guest);
    NormalIdempotent(Append(Normal(base), q));
    ReducedNormal(Append(Normal(base), q));
    ReducedNormal(base);
    FoldAppend(base.rooted, [], Normal(base).names, q.names);
    FoldAppend(base.rooted, [], base.names, q.names);
    assert q.names == [] ==> base.names + q.names == base.names && Normal(base).names + q.names == Normal(base).names;
  }

  /** From a base that climbs at least as far as an area, every path does. */
  lemma CandidateClimbs(area: Path, base: Path, guest: string)
    requires Ok(area) && Ok(base) && base.rooted == area.rooted && Reduced(area) <= Reduced(base)
    ensures Candidate(base, guest).rooted == area.rooted ==> ClimbsToo(Reduced(area), Reduced(Candidate(base, guest)))
  {
    hide Fold, Parse, Normal;
    CandidateIs(base, guest);
    ReducedOk(area);
    var q := Parse(guest);
    var ra, rb := Reduced(area), Reduced(base);
    if !area.rooted && !q.rooted {
      FoldAppend(false, [], base.names, q.names);
      assert q.names == [] ==> base.names + q.names == base.names;
      FoldNone(rb);
      var rc := Fold(false, rb, q.names);
      forall i | 0 <= i < |ra| && ra[i] == ".."
        ensures i < |rc| && rc[i] == ".."
      {
        assert forall j :: 0 <= j <= i ==> rb[j] == ra[j];
        FoldClimbs(i + 1, rb, q.names);
      }
    }
  }

  lemma FoldNone(stack: seq<string>)
    ensures Fold(false, stack, []) == stack
  {
  }

  /** What is_within accepts has all names of the area. */
  lemma WithinNames(base: Path, area: Path)
    requires Ok(base) && Ok(area) && area != EMPTY && Within(Normal(base), area)
    ensures base.rooted == area.rooted && Reduced(area) <= Reduced(base)
  {
    hide Within, Normal, Reduced;
    OkNormal(base);
    NormalIdempotent(base);
    WithinMeans(Normal(base), area);
    NormalNames(area);
    NormalNames(base);
  }

  /** A trusted way, followed from the area, ends where the path leads. */
  lemma TrustedLeads(area: Path, base: Path, guest: string)
    requires Ok(area) && area != EMPTY && Normal(area) == area && Ok(base)
    requires base.rooted == area.rooted && Reduced(area) <= Reduced(base)
    ensures var there, rel := Append(base, Parse(guest)), Relative(Candidate(base, guest), area);
            && (Trusted(rel) <==> StrictlyInside(there, area))
            && (Trusted(rel) ==> SamePlace(Normal(Append(area, rel)), there))
  {
    hide Normal, Reduced, Trusted, Relative, Candidate, Parse, Append;
    var c := Candidate(base, guest);
    CandidateIs(base, guest);
    CandidateClimbs(area, base, guest);
    if c.rooted == area.rooted {
      TrustedIff(c, area);
      if Trusted(Relative(c, area)) {
        var rel := Relative(c, area);
        TrustedStraight(c, area);
        InsideAppend(area, rel);
        assert Reduced(c) == Reduced(area) + Reduced(c)[|Reduced(area)|..];
      }
    } else {
      OtherRoot(c, area);
    }
  }

  lemma OtherRoot(c: Path, area: Path)
    requires c.rooted != area.rooted
    ensures !Trusted(Relative(c, area)) && !Inside(c, area)
  {
  }

  /** The directory that translate_relative_to answers. A path that names a directory strictly inside
      the root (or inside the first pass-through prefix around the base) leads there. Any other path
      from inside the root is taken from the root, with ".." never climbing above it; from inside a
      prefix it leads back to the base. Without a root, and away from the root and every prefix, the
      path leads where it says. */
  lemma LeadsTo(root: Path, prefixes: seq<Path>, base: Path, guest: string)
    requires Ok(root) && Normal(root) == root && Ok(base)
    requires forall i :: 0 <= i < |prefixes| ==> PrefixOk(prefixes[i])
    ensures var there, r := Append(base, Parse(guest)), RelativeTo(root, prefixes, base, guest);
            && (root == EMPTY ==> SamePlace(r, there))
            && (root != EMPTY && Within(Normal(base), root) ==>
                  if StrictlyInside(there, root) then SamePlace(r, there)
                  else r.rooted == root.rooted && Reduced(r) == Reduced(root) + G.Components(guest))
            && (root != EMPTY && !Within(Normal(base), root) ==>
                  && (forall i: nat :: FirstPrefix(prefixes, base, i) ==>
                        SamePlace(r, if StrictlyInside(there, prefixes[i]) then there else base))
                  && ((forall i :: 0 <= i < |prefixes| ==> !Within(Normal(base), prefixes[i])) ==> SamePlace(r, there)))
  {
    hide Normal, Reduced, Trusted, Relative, Candidate, Parse, Append, Within, StrictlyInside, UnderFirst, KeepUnder, StayBelow;
    var c := Candidate(base, guest);
    CandidateIs(base, guest);
    if root != EMPTY {
      if Within(Normal(base), root) {
        RootLeads(root, base, guest);
      } else {
        forall i: nat | FirstPrefix(prefixes, base, i)
          ensures SamePlace(RelativeTo(root, prefixes, base, guest),
                    if StrictlyInside(Append(base, Parse(guest)), prefixes[i]) then Append(base, Parse(guest)) else base)
        {
          UnderFirstIs(prefixes, base, c, i);
          PrefixLeads(prefixes[i], base, guest);
        }
        if forall i :: 0 <= i < |prefixes| ==> !Within(Normal(base), prefixes[i]) {
          UnderNone(prefixes, base, c);
        }
      }
    }
  }

  lemma RootLeads(root: Path, base: Path, guest: string)
    requires Ok(root) && root != EMPTY && Normal(root) == root && Ok(base) && Within(Normal(base), root)
    ensures var there, r := Append(base, Parse(guest)), StayBelow(root, Candidate(base, guest), guest);
            if StrictlyInside(there, root) then SamePlace(r, there)
            else r.rooted == root.rooted && Reduced(r) == Reduced(root) + G.Components(guest)
  {
    hide Normal, Reduced, Trusted, Relative, Candidate, Parse, Append, Within, G.Components;
    WithinNames(base, root);
    TrustedLeads(root, base, guest);
    G.ComponentsPlain(guest);
    PlainStraight(G.Components(guest));
    InsideAppend(root, Below(G.Components(guest)));
  }

  lemma PrefixLeads(prefix: Path, base: Path, guest: string)
    requires PrefixOk(prefix) && Ok(base) && Within(Normal(base), prefix)
    ensures var there := Append(base, Parse(guest));
            SamePlace(KeepUnder(prefix, base, Candidate(base, guest)), if StrictlyInside(there, prefix) then there else base)
  {
    hide Normal, Reduced, Trusted, Relative, Candidate, Parse, Append, Within;
    WithinNames(base, prefix);
    TrustedLeads(prefix, base, guest);
    ReducedNormal(base);
  }
}
