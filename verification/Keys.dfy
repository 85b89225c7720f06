/**
 Finite sets of numbers, taken in ascending order.
 */
module Keys {
  function Least(s: set<nat>): (k: nat)
    requires s != {}
    ensures k in s && forall j | j in s :: k <= j
  {
    LeastExists(s);
    var k :| k in s && forall j | j in s :: k <= j;
    k
  }

  lemma LeastExists(s: set<nat>)
    requires s != {}
    ensures exists k :: k in s && forall j | j in s :: k <= j
  {
    var x :| x in s;
    LeastUpTo(s, x);
  }

  lemma {:induction false} LeastUpTo(s: set<nat>, x: nat)
    requires x in s
    ensures exists k :: k in s && forall j | j in s :: k <= j
    decreases x
  {
    if y: nat :| y in s && y < x {
      LeastUpTo(s, y);
    }
  }

  /** The elements in ascending order. */
  function Ascending(s: set<nat>): (a: seq<nat>)
    ensures forall x :: x in a <==> x in s
    ensures forall i, j | 0 <= i < j < |a| :: a[i] < a[j]
  {
    if s == {} then []
    else
      var k := Least(s);
      [k] + Ascending(s - {k})
  }

  /** The largest element, or 0. */
  function Highest(s: set<nat>): (h: nat)
    ensures h == 0 || h in s
    ensures forall x | x in s :: x <= h
  {
    if s == {} then 0
    else
      var k := Least(s);
      var h := Highest(s - {k});
      assert forall x | x in s :: x == k || x in s - {k};
      if k > h then k else h
  }

  /** No number is missing between two elements. */
  ghost predicate Contiguous(s: set<nat>) {
    forall a, b, c | a in s && c in s && a <= b <= c :: b in s
  }

  function ToSet(a: seq<nat>): set<nat> {
    set x | x in a
  }

  /** The first n elements in ascending order are closed downwards. */
  lemma PrefixDownward(s: set<nat>, n: nat, x: nat, y: nat)
    requires n <= |Ascending(s)| && y in Ascending(s)[..n] && x in s && x <= y
    ensures x in Ascending(s)[..n]
  {
    var a := Ascending(s);
    var j :| 0 <= j < n && a[j] == y;
    assert x in a;
    var i :| 0 <= i < |a| && a[i] == x;
    assert !(j < i);
  }

  /** Removing elements in ascending order leaves no gap, however far the removal got. */
  lemma PrefixRemoved(s: set<nat>, more: set<nat>, n: nat)
    requires Contiguous(s + more) && n <= |Ascending(s)|
    requires forall x, y | x in s && y in more :: x < y
    ensures Contiguous(s + more - ToSet(Ascending(s)[..n]))
  {
    var gone := Ascending(s)[..n];
    forall x, y, z | x in s + more - ToSet(gone) && z in s + more && x <= y <= z
      ensures y in s + more - ToSet(gone)
    {
      assert y in gone ==> y in s;
      if y in gone && x in s {
        PrefixDownward(s, n, x, y);
      }
    }
  }
}
