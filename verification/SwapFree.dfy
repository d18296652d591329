/** Runs without a swap: what they build is projective. */
module SwapFree {
  import opened Options
  import opened Sequences
  import opened Arborescences
  import opened Inversions
  import opened ShiftReduce
  import opened ProjectiveOrder

  /** All below `u` are smaller than all below `w`. */
  ghost predicate Apart(arcs: seq<Arc>, u: Vertex, w: Vertex) {
    forall x, y :: Below(arcs, u, x) && Below(arcs, w, y) ==> x < y
  }

  ghost predicate LineApart(arcs: seq<Arc>, line: seq<Vertex>) {
    forall a, b :: 0 <= a < b < |line| ==> Apart(arcs, line[a], line[b])
  }

  /** Whatever the arcs put before a vertex is smaller. */
  ghost predicate ArcsAscend(arcs: seq<Arc>) {
    forall x, y :: PutBefore(arcs, x, y) ==> x < y
  }

  /** The vertices in play stand in order, with all that has been attached below each, and the arcs are projective. */
  ghost predicate Straight(s: State) {
    LineApart(s.arcs, Line(s)) && ArcsAscend(s.arcs)
  }

  lemma {:induction false} OnlySelfBelow(arcs: seq<Arc>, h: Vertex, u: Vertex)
    requires !IsChild(arcs, h) && Below(arcs, u, h)
    ensures u == h
  {
    var n: nat :| ReachedIn(ArcSet(arcs), u, h, n);
    if n > 0 {
      WalkEndsInChild(arcs, u, h, n);
    }
  }

  lemma BelowGoesOn(arcs: seq<Arc>, u: Vertex, w: Vertex, x: Vertex)
    requires Below(arcs, u, w) && Arc(w, x) in arcs
    ensures Below(arcs, u, x)
  {
    var n: nat :| ReachedIn(ArcSet(arcs), u, w, n);
    assert Arc(w, x) in ArcSet(arcs);
    assert ReachedIn(ArcSet(arcs), u, x, n + 1);
  }

  /** An arc between two vertices that have no head puts what is below its child below its parent, and nothing else. */
  lemma {:induction false} AttachBelow(arcs: seq<Arc>, h: Vertex, c: Vertex, u: Vertex, x: Vertex, n: nat)
    requires !IsChild(arcs, h) && h != c
    requires ReachedIn(ArcSet([Arc(h, c)] + arcs), u, x, n)
    ensures Below(arcs, u, x) || (u == h && Below(arcs, c, x))
    decreases n
  {
    if n == 0 {
      BelowSelf(arcs, u);
    } else {
      var now := ArcSet([Arc(h, c)] + arcs);
      var w :| Arc(w, x) in now && ReachedIn(now, u, w, n - 1);
      AttachBelow(arcs, h, c, u, w, n - 1);
      if Arc(w, x) in arcs {
        if Below(arcs, u, w) { BelowGoesOn(arcs, u, w, x); } else { BelowGoesOn(arcs, c, w, x); }
      } else {
        HeadReached(arcs, h, c, u);
      }
    }
  }

  lemma HeadReached(arcs: seq<Arc>, h: Vertex, c: Vertex, u: Vertex)
    requires !IsChild(arcs, h) && h != c
    requires Below(arcs, u, h) || (u == h && Below(arcs, c, h))
    ensures u == h && Below(arcs, c, c)
  {
    BelowSelf(arcs, c);
    if Below(arcs, c, h) {
      OnlySelfBelow(arcs, h, c);
    }
    OnlySelfBelow(arcs, h, u);
  }

  lemma BelowNow(arcs: seq<Arc>, h: Vertex, c: Vertex, u: Vertex, x: Vertex)
    requires !IsChild(arcs, h) && h != c && Below([Arc(h, c)] + arcs, u, x)
    ensures Below(arcs, u, x) || (u == h && Below(arcs, c, x))
  {
    var n: nat :| ReachedIn(ArcSet([Arc(h, c)] + arcs), u, x, n);
    AttachBelow(arcs, h, c, u, x, n);
  }

  lemma AttachApart(arcs: seq<Arc>, h: Vertex, c: Vertex, u: Vertex, w: Vertex)
    requires !IsChild(arcs, h) && h != c && u != w && Apart(arcs, u, w)
    requires (u == h ==> Apart(arcs, c, w)) && (w == h ==> Apart(arcs, u, c))
    ensures Apart([Arc(h, c)] + arcs, u, w)
  {
    forall x, y | Below([Arc(h, c)] + arcs, u, x) && Below([Arc(h, c)] + arcs, w, y)
      ensures x < y
    {
      BelowNow(arcs, h, c, u, x);
      BelowNow(arcs, h, c, w, y);
    }
  }

  lemma LineAscends(arcs: seq<Arc>, line: seq<Vertex>)
    requires LineApart(arcs, line)
    ensures Ordered(line, VertexLess)
  {
    forall a, b | 0 <= a < b < |line|
      ensures line[a] < line[b]
    {
      BelowSelf(arcs, line[a]);
      BelowSelf(arcs, line[b]);
    }
  }

  /** `h` and `c` stand side by side, and `c` leaves the line when it is attached. */
  lemma AttachLineApart(arcs: seq<Arc>, p: seq<Vertex>, i: Vertex, j: Vertex, q: seq<Vertex>, h: Vertex, c: Vertex)
    requires LineApart(arcs, p + [i, j] + q)
    requires (h, c) == (i, j) || (h, c) == (j, i)
    requires !IsChild(arcs, h)
    ensures LineApart([Arc(h, c)] + arcs, p + [h] + q)
  {
    var before, after := p + [i, j] + q, p + [h] + q;
    var n := |p|;
    LineAscends(arcs, before);
    assert before[n] == i && before[n + 1] == j;
    forall a, b | 0 <= a < b < |after|
      ensures Apart([Arc(h, c)] + arcs, after[a], after[b])
    {
      var a', b' := if a <= n then a else a + 1, if b < n then b else b + 1;
      assert a != n ==> after[a] == before[a'];
      assert b != n ==> after[b] == before[b'];
      AttachApart(arcs, h, c, after[a], after[b]);
    }
  }

  /** Below a child of `h` is below `h`. */
  lemma BelowHead(arcs: seq<Arc>, h: Vertex, d: Vertex, y: Vertex)
    requires Arc(h, d) in arcs && Below(arcs, d, y)
    ensures Below(arcs, h, y)
  {
    var n: nat :| ReachedIn(ArcSet(arcs), d, y, n);
    ReachedFromParent(ArcSet(arcs), h, d, y, n);
  }

  /** The new child and a child that `h` had before. */
  lemma NewSibling(arcs: seq<Arc>, h: Vertex, c: Vertex, d: Vertex, x: Vertex, y: Vertex)
    requires Apart(arcs, h, c) || Apart(arcs, c, h)
    requires Arc(h, d) in arcs && Below(arcs, c, x) && Below(arcs, d, y)
    ensures (c < d ==> x < y) && (d < c ==> y < x)
  {
    BelowSelf(arcs, c);
    BelowSelf(arcs, d);
    BelowHead(arcs, h, d, y);
    BelowHead(arcs, h, d, d);
  }

  lemma AttachSiblings(arcs: seq<Arc>, h: Vertex, c: Vertex, v: Vertex, c1: Vertex, d1: Vertex, x: Vertex, y: Vertex)
    requires !IsChild(arcs, h) && !IsChild(arcs, c) && h != c && ArcsAscend(arcs)
    requires Apart(arcs, h, c) || Apart(arcs, c, h)
    requires BelowSiblings([Arc(h, c)] + arcs, v, c1, d1, x, y)
    ensures x < y
  {
    var now := [Arc(h, c)] + arcs;
    assert forall u :: Arc(v, u) in now && u != c ==> Arc(v, u) in arcs && IsChild(arcs, u);
    BelowNow(arcs, h, c, c1, x);
    BelowNow(arcs, h, c, d1, y);
    if c1 == c {
      assert Arc(v, c) !in arcs;
      NewSibling(arcs, h, c, d1, x, y);
    } else if d1 == c {
      assert Arc(v, c) !in arcs;
      NewSibling(arcs, h, c, c1, y, x);
    } else {
      assert BelowSiblings(arcs, v, c1, d1, x, y);
      assert PutBefore(arcs, x, y);
    }
  }

  /** A head and what is below one of its children. */
  lemma AttachHead(arcs: seq<Arc>, h: Vertex, c: Vertex, v: Vertex, c1: Vertex, x: Vertex)
    requires !IsChild(arcs, h) && !IsChild(arcs, c) && h != c && ArcsAscend(arcs)
    requires Apart(arcs, h, c) || Apart(arcs, c, h)
    requires BelowChild([Arc(h, c)] + arcs, v, c1, x)
    ensures (c1 < v ==> x < v) && (v < c1 ==> v < x)
  {
    if c1 == c {
      assert Arc(v, c) !in arcs;
      BelowNow(arcs, h, c, c, x);
      BelowSelf(arcs, h);
      BelowSelf(arcs, c);
    } else {
      assert Arc(v, c1) in arcs && IsChild(arcs, c1);
      BelowNow(arcs, h, c, c1, x);
      assert BelowChild(arcs, v, c1, x);
      assert c1 < v ==> PutBefore(arcs, x, v);
      assert v < c1 ==> PutBefore(arcs, v, x);
    }
  }

  lemma AttachAscends(arcs: seq<Arc>, h: Vertex, c: Vertex)
    requires !IsChild(arcs, h) && !IsChild(arcs, c) && h != c && ArcsAscend(arcs)
    requires Apart(arcs, h, c) || Apart(arcs, c, h)
    ensures ArcsAscend([Arc(h, c)] + arcs)
  {
    var now := [Arc(h, c)] + arcs;
    forall x: Vertex, y: Vertex | PutBefore(now, x, y)
      ensures x < y
    {
      if v, c1, d1 :| BelowSiblings(now, v, c1, d1, x, y) {
        AttachSiblings(arcs, h, c, v, c1, d1, x, y);
      } else if c1: Vertex :| BelowChild(now, y, c1, x) && c1 < y {
        AttachHead(arcs, h, c, y, c1, x);
      } else {
        var c1: Vertex :| BelowChild(now, x, c1, y) && x < c1;
        AttachHead(arcs, h, c, x, c1, y);
      }
    }
  }

  lemma InPlayNotAttached(vertices: seq<Vertex>, s: State, v: Vertex)
    requires Sentence(vertices) && Inv(vertices, s) && v in s.stack
    ensures !IsChild(s.arcs, v)
  {
    InOnePlace(vertices, s, v);
    if a :| a in s.arcs && a.child == v {
      var k :| 0 <= k < |s.arcs| && s.arcs[k] == a;
      assert Children(s.arcs)[k] == v;
      assert v in multiset(Children(s.arcs));
    }
  }

  /** Every move but a swap keeps the vertices in order and the arcs projective. */
  lemma StraightStep(vertices: seq<Vertex>, s: State, action: Action)
    requires Sentence(vertices) && Inv(vertices, s) && Straight(s)
    requires action != Swap && Step(s, action).Some?
    ensures Straight(Step(s, action).value)
  {
    if action == Shift {
      ShiftOnLine(s);
    } else {
      var j, i, rest := s.stack[0], s.stack[1], s.stack[2..];
      var h, c := if action == LeftArc then j else i, if action == LeftArc then i else j;
      assert s.stack == [j, i] + rest;
      InPlayNotAttached(vertices, s, i);
      InPlayNotAttached(vertices, s, j);
      ReverseTop(j, i, rest);
      ReverseTop(h, h, rest);
      var p := Reverse(rest);
      assert Apart(s.arcs, (p + [i, j] + s.buffer)[|p|], (p + [i, j] + s.buffer)[|p| + 1]);
      BelowSelf(s.arcs, i);
      BelowSelf(s.arcs, j);
      AttachLineApart(s.arcs, p, i, j, s.buffer, h, c);
      AttachAscends(s.arcs, h, c);
    }
  }

  lemma StraightAtFirst(vertices: seq<Vertex>)
    requires ROOT !in vertices && Ordered(vertices, VertexLess)
    ensures Straight(Initial(vertices))
  {
    var s := Initial(vertices);
    InitialInv(vertices);
    forall u, x | Below([], u, x)
      ensures x == u
    {
      OnlySelfBelow([], x, u);
    }
    assert forall k :: 0 <= k < |vertices| ==> vertices[k] in vertices && vertices[k] > ROOT;
  }

  /** When the arcs of a tree ascend, it is projective. */
  lemma AscendIsProjective(t: Tree, arcs: seq<Arc>)
    requires SourceChildren(t) && ArcsAscend(arcs) && ArcSet(t.arcs) <= ArcSet(arcs)
    ensures ProjectiveTree(t.vs, t.arcs)
  {
    var order := InOrder(t, t.root);
    OrderIsListing(t);
    forall i, j | 0 <= i < j < |order|
      ensures order[i] < order[j]
    {
      ListingPuts(t, order, i, j);
      PutAmongMore(t.arcs, arcs, order[i], order[j]);
    }
    ProjectiveIff(t);
  }

  lemma {:induction false} ReachedAmongMore(some: set<Arc>, more: set<Arc>, u: Vertex, x: Vertex, n: nat)
    requires some <= more && ReachedIn(some, u, x, n)
    ensures ReachedIn(more, u, x, n)
    decreases n
  {
    if n > 0 {
      var w :| Arc(w, x) in some && ReachedIn(some, u, w, n - 1);
      ReachedAmongMore(some, more, u, w, n - 1);
    }
  }

  lemma BelowAmongMore(some: seq<Arc>, more: seq<Arc>, u: Vertex, x: Vertex)
    requires ArcSet(some) <= ArcSet(more) && Below(some, u, x)
    ensures Below(more, u, x)
  {
    var n: nat :| ReachedIn(ArcSet(some), u, x, n);
    ReachedAmongMore(ArcSet(some), ArcSet(more), u, x, n);
  }

  lemma PutAmongMore(some: seq<Arc>, more: seq<Arc>, x: Vertex, y: Vertex)
    requires ArcSet(some) <= ArcSet(more) && PutBefore(some, x, y)
    ensures PutBefore(more, x, y)
  {
    assert forall a :: a in some ==> a in ArcSet(more);
    forall u, z | Below(some, u, z)
      ensures Below(more, u, z)
    {
      BelowAmongMore(some, more, u, z);
    }
    if v, c, d :| BelowSiblings(some, v, c, d, x, y) {
      assert BelowSiblings(more, v, c, d, x, y);
    } else if c: Vertex :| BelowChild(some, y, c, x) && c < y {
      assert BelowChild(more, y, c, x);
    } else {
      var c: Vertex :| BelowChild(some, x, c, y) && x < c;
      assert BelowChild(more, x, c, y);
    }
  }
}
