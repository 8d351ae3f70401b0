/** Writing byte strings into a buffer at given places, as slice assignment and pack_into do. */
module Writes {
  import opened Machine

  datatype Write = Write(at: nat, data: seq<byte>) {
    function End(): nat { at + |data| }
  }

  function Put(s: seq<byte>, at: nat, data: seq<byte>): (r: seq<byte>)
    requires at + |data| <= |s|
    ensures |r| == |s|
    ensures forall x :: 0 <= x < |s| ==> r[x] == if at <= x < at + |data| then data[x - at] else s[x]
  {
    s[..at] + data + s[at + |data|..]
  }

  ghost predicate Inside(ws: seq<Write>, n: nat) {
    forall i :: 0 <= i < |ws| ==> ws[i].End() <= n
  }

  ghost predicate Apart(a: Write, b: Write) { a.End() <= b.at || b.End() <= a.at }

  ghost predicate AllApart(ws: seq<Write>) {
    forall i, j :: 0 <= i < j < |ws| ==> Apart(ws[i], ws[j])
  }

  ghost predicate Covers(w: Write, x: int) { w.at <= x < w.End() }

  /** All the writes, first to last. */
  function Apply(s: seq<byte>, ws: seq<Write>): (r: seq<byte>)
    requires Inside(ws, |s|)
    ensures |r| == |s|
  {
    if ws == [] then s else Put(Apply(s, ws[..|ws| - 1]), ws[|ws| - 1].at, ws[|ws| - 1].data)
  }

  lemma ApplyNext(s: seq<byte>, ws: seq<Write>, w: Write)
    requires Inside(ws, |s|) && w.End() <= |s|
    ensures Inside(ws + [w], |s|) && Apply(s, ws + [w]) == Put(Apply(s, ws), w.at, w.data)
  {
    assert (ws + [w])[..|ws|] == ws;
  }

  /** A byte no write covers keeps its value. */
  lemma {:induction false} ApplyElsewhere(s: seq<byte>, ws: seq<Write>, x: nat)
    requires Inside(ws, |s|) && x < |s| && forall i :: 0 <= i < |ws| ==> !Covers(ws[i], x)
    ensures Apply(s, ws)[x] == s[x]
    decreases |ws|
  {
    if ws != [] {
      ApplyElsewhere(s, ws[..|ws| - 1], x);
    }
  }

  /** Among writes that do not overlap, each one is still there at the end. */
  lemma {:induction false} ApplyCovered(s: seq<byte>, ws: seq<Write>, i: nat, x: nat)
    requires Inside(ws, |s|) && AllApart(ws) && i < |ws| && Covers(ws[i], x)
    ensures x < |s| && Apply(s, ws)[x] == ws[i].data[x - ws[i].at]
    decreases |ws|
  {
    var n := |ws| - 1;
    assert ws[i].End() <= |s|;
    if i < n {
      ApplyCovered(s, ws[..n], i, x);
      assert Apart(ws[i], ws[n]);
    }
  }

  lemma ApplyRead(s: seq<byte>, ws: seq<Write>, i: nat)
    requires Inside(ws, |s|) && AllApart(ws) && i < |ws|
    ensures ws[i].End() <= |s| && Apply(s, ws)[ws[i].at..ws[i].End()] == ws[i].data
  {
    hide Apply, AllApart;
    var w := ws[i];
    assert w.End() <= |s|;
    var r := Apply(s, ws)[w.at..w.End()];
    forall k | 0 <= k < |r|
      ensures r[k] == w.data[k]
    {
      ApplyCovered(s, ws, i, w.at + k);
    }
  }

  lemma ApplyKeeps(s: seq<byte>, ws: seq<Write>, lo: nat, hi: nat)
    requires Inside(ws, |s|) && lo <= hi <= |s| && forall i :: 0 <= i < |ws| ==> ws[i].End() <= lo || hi <= ws[i].at
    ensures Apply(s, ws)[lo..hi] == s[lo..hi]
  {
    hide Apply;
    var r := Apply(s, ws)[lo..hi];
    forall k | 0 <= k < |r|
      ensures r[k] == s[lo..hi][k]
    {
      ApplyElsewhere(s, ws, lo + k);
    }
  }

  /** The same writes in any order give the same result. */
  lemma OrderIrrelevant(s: seq<byte>, ws: seq<Write>, vs: seq<Write>)
    requires Inside(ws, |s|) && AllApart(ws) && Inside(vs, |s|) && AllApart(vs)
    requires forall w :: w in ws <==> w in vs
    ensures Apply(s, ws) == Apply(s, vs)
  {
    hide Apply, AllApart;
    var a, b := Apply(s, ws), Apply(s, vs);
    forall x | 0 <= x < |s|
      ensures a[x] == b[x]
    {
      if i :| 0 <= i < |ws| && Covers(ws[i], x) {
        ApplyCovered(s, ws, i, x);
        assert ws[i] in vs;
        var j :| 0 <= j < |vs| && vs[j] == ws[i];
        ApplyCovered(s, vs, j, x);
      } else {
        ApplyElsewhere(s, ws, x);
        forall j | 0 <= j < |vs|
          ensures !Covers(vs[j], x)
        {
          assert vs[j] in ws;
        }
        ApplyElsewhere(s, vs, x);
      }
    }
  }

  /** Each write ends before the next begins. */
  ghost predicate Ascending(ws: seq<Write>) {
    forall i :: 0 <= i < |ws| - 1 ==> ws[i].End() <= ws[i + 1].at
  }

  /** The check on neighbours is enough. */
  lemma {:induction false} AscendingBefore(ws: seq<Write>, i: nat, j: nat)
    requires Ascending(ws) && i < j < |ws|
    ensures ws[i].End() <= ws[j].at
    decreases j
  {
    if i < j - 1 {
      AscendingBefore(ws, i, j - 1);
      assert ws[j - 1].End() <= ws[j - 1 + 1].at;
    }
  }

  lemma AscendingApart(ws: seq<Write>)
    requires Ascending(ws)
    ensures AllApart(ws)
  {
    forall i, j | 0 <= i < j < |ws|
      ensures Apart(ws[i], ws[j])
    {
      AscendingBefore(ws, i, j);
    }
  }

  /** A permutation of disjoint non-empty writes is disjoint. */
  lemma PermutedApart(ws: seq<Write>, vs: seq<Write>)
    requires AllApart(ws) && multiset(ws) == multiset(vs) && forall i :: 0 <= i < |ws| ==> ws[i].data != []
    ensures AllApart(vs)
  {
    forall i, j | 0 <= i < j < |vs|
      ensures Apart(vs[i], vs[j])
    {
      assert vs[i] in multiset(vs) && vs[j] in multiset(vs);
      if vs[i] == vs[j] {
        Twice(vs, i, j);
        OnlyOnce(ws, vs[i]);
      } else {
        var k :| 0 <= k < |ws| && ws[k] == vs[i];
        var l :| 0 <= l < |ws| && ws[l] == vs[j];
        assert k < l ==> Apart(ws[k], ws[l]);
        assert l < k ==> Apart(ws[l], ws[k]);
      }
    }
  }

  lemma Twice(vs: seq<Write>, i: nat, j: nat)
    requires i < j < |vs| && vs[i] == vs[j]
    ensures multiset(vs)[vs[i]] >= 2
  {
    var a, b := vs[..j], vs[j..];
    assert vs == a + b;
    assert a[i] == vs[i] && vs[i] in multiset(a);
    assert b[0] == vs[i] && vs[i] in multiset(b);
  }

  lemma {:induction false} OnlyOnce(ws: seq<Write>, w: Write)
    requires AllApart(ws) && forall i :: 0 <= i < |ws| ==> ws[i].data != []
    ensures multiset(ws)[w] <= 1
    decreases |ws|
  {
    if ws != [] {
      var n := |ws| - 1;
      OnlyOnce(ws[..n], w);
      assert ws == ws[..n] + [ws[n]];
      forall k | 0 <= k < n
        ensures ws[k] != ws[n]
      {
        assert Apart(ws[k], ws[n]);
      }
      assert ws[n] !in multiset(ws[..n]);
    }
  }
}
