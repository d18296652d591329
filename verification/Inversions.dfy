/** Lines of vertices: positions, reversal, and how far a line is from descending order. */
module Inversions {
  import opened Arborescences

  function Reverse(s: seq<Vertex>): (r: seq<Vertex>)
    ensures |r| == |s|
  {
    if s == [] then [] else Reverse(s[1..]) + [s[0]]
  }

  /** The index of `v`, or the length of the list when it is not there. */
  function Pos(order: seq<Vertex>, v: Vertex): (n: nat)
    ensures n <= |order|
    ensures n < |order| <==> v in order
    ensures n < |order| ==> order[n] == v
  {
    if order == [] then 0 else if order[0] == v then 0 else 1 + Pos(order[1..], v)
  }

  /** It is the first place. */
  lemma {:induction false} PosIsFirst(order: seq<Vertex>, v: Vertex)
    ensures forall k :: 0 <= k < Pos(order, v) ==> order[k] != v
  {
    if order != [] && order[0] != v {
      PosIsFirst(order[1..], v);
    }
  }

  function GreaterIn(x: Vertex, s: seq<Vertex>): nat {
    if s == [] then 0 else (if x < s[0] then 1 else 0) + GreaterIn(x, s[1..])
  }

  function Ascents(s: seq<Vertex>): nat {
    if s == [] then 0 else GreaterIn(s[0], s[1..]) + Ascents(s[1..])
  }

  lemma {:induction false} GreaterInConcat(x: Vertex, s: seq<Vertex>, t: seq<Vertex>)
    ensures GreaterIn(x, s + t) == GreaterIn(x, s) + GreaterIn(x, t)
  {
    if s == [] {
      assert s + t == t;
    } else {
      assert (s + t)[1..] == s[1..] + t;
      GreaterInConcat(x, s[1..], t);
    }
  }

  lemma {:induction false} GreaterInBound(x: Vertex, s: seq<Vertex>)
    ensures GreaterIn(x, s) <= |s|
  {
    if s != [] { GreaterInBound(x, s[1..]); }
  }

  lemma TwoInFront(i: Vertex, j: Vertex, q: seq<Vertex>)
    ensures Ascents([i, j] + q) == (if i < j then 1 else 0) + GreaterIn(i, q) + GreaterIn(j, q) + Ascents(q)
  {
    assert ([i, j] + q)[1..] == [j] + q && ([j] + q)[1..] == q;
  }

  /** Exchanging two neighbours that stand in ascending order removes exactly one ascent. */
  lemma {:induction false} SwapRemovesOne(p: seq<Vertex>, i: Vertex, j: Vertex, q: seq<Vertex>)
    requires i < j
    ensures Ascents(p + [i, j] + q) == Ascents(p + [j, i] + q) + 1
  {
    if p == [] {
      assert p + [i, j] == [i, j] && p + [j, i] == [j, i];
      TwoInFront(i, j, q);
      TwoInFront(j, i, q);
    } else {
      SwapRemovesOne(p[1..], i, j, q);
      assert (p + [i, j] + q)[1..] == p[1..] + [i, j] + q && (p + [j, i] + q)[1..] == p[1..] + [j, i] + q;
      SameGreater(p[0], p[1..], i, j, q);
    }
  }

  lemma SameGreater(x: Vertex, p: seq<Vertex>, i: Vertex, j: Vertex, q: seq<Vertex>)
    ensures GreaterIn(x, p + [i, j] + q) == GreaterIn(x, p + [j, i] + q)
  {
    GreaterInConcat(x, p + [i, j], q);
    GreaterInConcat(x, p, [i, j]);
    GreaterInConcat(x, p + [j, i], q);
    GreaterInConcat(x, p, [j, i]);
    assert [i, j][1..] == [j] && [j, i][1..] == [i];
  }

  /** Taking a vertex out of the line adds no ascent. */
  lemma {:induction false} RemoveAddsNone(p: seq<Vertex>, x: Vertex, q: seq<Vertex>)
    ensures Ascents(p + q) <= Ascents(p + [x] + q)
  {
    if p == [] {
      assert p + q == q && (p + [x] + q)[1..] == q;
    } else {
      RemoveAddsNone(p[1..], x, q);
      assert (p + q)[1..] == p[1..] + q && (p + [x] + q)[1..] == p[1..] + [x] + q;
      GreaterInConcat(p[0], p[1..], q);
      GreaterInConcat(p[0], p[1..] + [x], q);
      GreaterInConcat(p[0], p[1..], [x]);
    }
  }

  lemma {:induction false} AscentsBound(s: seq<Vertex>)
    ensures 2 * Ascents(s) <= |s| * (|s| - 1)
  {
    if s != [] {
      AscentsBound(s[1..]);
      GreaterInBound(s[0], s[1..]);
      var n := |s| - 1;
      assert n * (n - 1) + 2 * n == (n + 1) * n;
    }
  }
}
