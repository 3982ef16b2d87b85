/** Walks through a graph that is given by the successors of each node. */
module Walks {

  /** Every node is a successor of the one before it. */
  ghost predicate Walk<T(!new)>(next: T -> seq<T>, p: seq<T>) {
    p != [] && forall i | 0 <= i < |p| - 1 :: p[i + 1] in next(p[i])
  }

  /** The last node occurred before. */
  ghost predicate Closes<T>(p: seq<T>) { p != [] && p[|p| - 1] in p[..|p| - 1] }

  ghost predicate Reaches<T(!new)>(next: T -> seq<T>, from: T, to: T) {
    exists p :: Walk(next, p) && p[0] == from && p[|p| - 1] == to
  }

  /** A cycle can be reached. */
  ghost predicate Cyclic<T(!new)>(next: T -> seq<T>, from: T) {
    exists p :: Walk(next, p) && p[0] == from && Closes(p)
  }

  lemma WalkOn<T(!new)>(next: T -> seq<T>, p: seq<T>, to: T)
    requires Walk(next, p) && to in next(p[|p| - 1])
    ensures Walk(next, p + [to])
  {
  }

  lemma WalkBefore<T(!new)>(next: T -> seq<T>, x: T, p: seq<T>)
    requires Walk(next, p) && p[0] in next(x)
    ensures Walk(next, [x] + p)
  {
    var q := [x] + p;
    forall i | 0 <= i < |q| - 1 ensures q[i + 1] in next(q[i]) {
      if i > 0 { assert p[i - 1 + 1] in next(p[i - 1]); }
    }
  }

  lemma ClosesBefore<T>(x: T, p: seq<T>)
    requires p != []
    ensures Closes(p) || p[|p| - 1] == x ==> Closes([x] + p)
  {
    assert ([x] + p)[..|[x] + p| - 1] == [x] + p[..|p| - 1];
  }

  lemma ReachesItself<T(!new)>(next: T -> seq<T>, x: T)
    ensures Reaches(next, x, x)
  {
    assert Walk(next, [x]);
  }

  /** What a successor reaches, and a cycle that it reaches, is reached. */
  lemma ReachesOn<T(!new)>(next: T -> seq<T>, x: T, y: T)
    requires y in next(x)
    ensures forall z | Reaches(next, y, z) :: Reaches(next, x, z)
    ensures Cyclic(next, y) ==> Cyclic(next, x)
  {
    forall z | Reaches(next, y, z) ensures Reaches(next, x, z) {
      var p :| Walk(next, p) && p[0] == y && p[|p| - 1] == z;
      WalkBefore(next, x, p);
      assert ([x] + p)[|[x] + p| - 1] == z;
    }
    if p: seq<T> :| Walk(next, p) && p[0] == y && Closes(p) {
      WalkBefore(next, x, p);
      ClosesBefore(x, p);
    }
  }

  /** A successor that leads back makes a cycle. */
  lemma WayBackIsCycle<T(!new)>(next: T -> seq<T>, x: T, y: T)
    requires y in next(x) && Reaches(next, y, x)
    ensures Cyclic(next, x)
  {
    var p: seq<T> :| Walk(next, p) && p[0] == y && p[|p| - 1] == x;
    WalkBefore(next, x, p);
    ClosesBefore(x, p);
  }

  /** A walk that closes at its first node again, or behind it. */
  lemma ClosesBehind<T>(p: seq<T>)
    ensures Closes(p) ==> |p| > 1 && (p[|p| - 1] == p[0] || Closes(p[1..]))
  {
    if |p| > 1 { assert p[..|p| - 1] == [p[0]] + p[1..][..|p[1..]| - 1]; }
  }

  /** A set that holds the start and the successors of its nodes holds what can be reached. */
  lemma {:induction false} StaysInside<T(!new)>(next: T -> seq<T>, p: seq<T>, inside: seq<T>)
    requires Walk(next, p) && p[0] in inside
    requires forall x | x in inside :: forall y | y in next(x) :: y in inside
    ensures forall x | x in p :: x in inside
  {
    var k := 0;
    while k < |p| - 1
      invariant 0 <= k < |p| && forall i | 0 <= i <= k :: p[i] in inside
    {
      assert p[k + 1] in next(p[k]);
      k := k + 1;
    }
  }

  lemma WalkJoin<T(!new)>(next: T -> seq<T>, p: seq<T>, q: seq<T>)
    requires Walk(next, p) && Walk(next, q) && p[|p| - 1] == q[0]
    ensures Walk(next, p + q[1..]) && (p + q[1..])[|p + q[1..]| - 1] == q[|q| - 1]
  {
    var r := p + q[1..];
    forall i | 0 <= i < |r| - 1 ensures r[i + 1] in next(r[i]) {
      if i >= |p| - 1 { assert q[i - (|p| - 1) + 1] in next(q[i - (|p| - 1)]); }
    }
  }

  lemma WalkTail<T(!new)>(next: T -> seq<T>, p: seq<T>, i: nat)
    requires Walk(next, p) && i < |p|
    ensures Walk(next, p[i..]) && p[i..][|p| - i - 1] == p[|p| - 1]
  {
    forall k | 0 <= k < |p[i..]| - 1 ensures p[i..][k + 1] in next(p[i..][k]) { assert p[i + k + 1] in next(p[i + k]); }
  }

  ghost predicate ReachesNone<T(!new)>(next: T -> seq<T>, from: T, path: seq<T>) {
    forall s | s in path :: !Reaches(next, from, s)
  }

  /** A cycle that can be reached is reached from a successor, or leads from a successor back. */
  lemma CyclicStep<T(!new)>(next: T -> seq<T>, x: T) returns (y: T)
    requires Cyclic(next, x)
    ensures y in next(x) && (Cyclic(next, y) || Reaches(next, y, x))
  {
    var p: seq<T> :| Walk(next, p) && p[0] == x && Closes(p);
    WalkTail(next, p, 1);
    assert p[0 + 1] in next(p[0]);
    y := p[1];
    var q, last := p[1..], p[|p| - 1];
    var j :| 0 <= j < |p| - 1 && p[j] == last;
    if j > 0 {
      assert q[..|q| - 1][j - 1] == last;
      assert Closes(q);
    }
  }

  lemma ReachStep<T(!new)>(next: T -> seq<T>, x: T, to: T) returns (y: T)
    requires Reaches(next, x, to) && x != to
    ensures y in next(x) && Reaches(next, y, to)
  {
    var p: seq<T> :| Walk(next, p) && p[0] == x && p[|p| - 1] == to;
    WalkTail(next, p, 1);
    assert p[0 + 1] in next(p[0]);
    y := p[1];
  }

  /** A node whose successors are on no cycle and lead back to neither it nor the path is on no cycle either. */
  lemma Expand<T(!new)>(next: T -> seq<T>, path: seq<T>, x: T)
    requires x !in path
    requires forall y | y in next(x) :: !Cyclic(next, y) && ReachesNone(next, y, path + [x])
    ensures !Cyclic(next, x) && ReachesNone(next, x, path)
  {
    assert x in path + [x] && forall s | s in path :: s in path + [x];
    if Cyclic(next, x) {
      var y := CyclicStep(next, x);
    }
    forall s | s in path ensures !Reaches(next, x, s) {
      if Reaches(next, x, s) {
        var y := ReachStep(next, x, s);
      }
    }
  }

  /** A node on no cycle leads back to no node on the way to it. */
  lemma NoWayBack<T(!new)>(next: T -> seq<T>, path: seq<T>, x: T)
    requires Walk(next, path + [x]) && !Cyclic(next, x)
    ensures ReachesNone(next, x, path)
  {
    forall s | s in path ensures !Reaches(next, x, s) {
      if p: seq<T> :| Walk(next, p) && p[0] == x && p[|p| - 1] == s {
        var i :| 0 <= i < |path| && path[i] == s;
        WalkTail(next, path + [x], i);
        var q := (path + [x])[i..];
        WalkJoin(next, p, q);
        var r := p + q[1..];
        assert r[|r| - 1] == x && r[..|r| - 1][0] == x;
        assert Closes(r);
      }
    }
  }
}
