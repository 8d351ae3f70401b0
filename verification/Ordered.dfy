/** The ascending order in which an ordered map or set of addresses or ids is visited. */
module Ordered {

  ghost predicate Sorted(keys: seq<nat>) {
    forall i, j :: 0 <= i < j < |keys| ==> keys[i] < keys[j]
  }

  ghost function Elements(keys: seq<nat>): set<nat> {
    set k | k in keys
  }

  lemma LeastExists(s: set<nat>)
    requires s != {}
    ensures exists x :: x in s && forall y :: y in s ==> x <= y
  {
    var x :| x in s;
    var rest := s - {x};
    if rest == {} {
      assert s == {x};
    } else {
      LeastExists(rest);
      var z :| z in rest && forall y :: y in rest ==> z <= y;
      var w := if x < z then x else z;
      forall y | y in s
        ensures w <= y
      {
        assert y == x || y in rest;
      }
      assert w in s;
    }
  }

  function Least(s: set<nat>): (x: nat)
    requires s != {}
    ensures x in s && forall y :: y in s ==> x <= y
  {
    LeastExists(s);
    var x :| x in s && forall y :: y in s ==> x <= y;
    x
  }

  function Ascending(s: set<nat>): (keys: seq<nat>)
    ensures Sorted(keys) && Elements(keys) == s
    decreases |s|
  {
    if s == {} then []
    else
      var x := Least(s);
      var rest := Ascending(s - {x});
      ConsSorted(x, rest);
      [x] + rest
  }

  lemma ConsSorted(x: nat, rest: seq<nat>)
    requires Sorted(rest) && forall k :: k in Elements(rest) ==> x < k
    ensures Sorted([x] + rest) && Elements([x] + rest) == {x} + Elements(rest)
  {
    assert forall i :: 0 <= i < |rest| ==> rest[i] in Elements(rest);
    ElementsAppend([x], rest);
  }

  lemma ElementsAppend(s: seq<nat>, t: seq<nat>)
    ensures Elements(s + t) == Elements(s) + Elements(t)
  {
    assert forall k :: k in s + t <==> k in s || k in t;
  }
}
