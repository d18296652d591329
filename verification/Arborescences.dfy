/**
 Rooted trees over integer vertices. The spanning-tree solver and both parsers build
 one, so the notion is defined once, by reachability from the root, and the form the
 proofs use (a rank that grows along every arc) is shown to be equivalent.
 */
module Arborescences {

  /** Vertices are numbered from 0; the parsers add an artificial root, -1. */
  type Vertex = v: int | v >= -1 witness 0

  datatype Arc = Arc(parent: Vertex, child: Vertex)

  ghost function VertexSet(s: seq<Vertex>): set<Vertex> {
    set v | v in s
  }

  ghost predicate Distinct(s: seq<Vertex>) {
    forall i, j :: 0 <= i < j < |s| ==> s[i] != s[j]
  }

  /** `v` is the end of a walk of exactly `n` arcs that starts in `root`. */
  ghost predicate ReachedIn(arcs: set<Arc>, root: Vertex, v: Vertex, n: nat)
    decreases n
  {
    if n == 0 then v == root
    else exists u :: Arc(u, v) in arcs && ReachedIn(arcs, root, u, n - 1)
  }

  ghost predicate Reachable(arcs: set<Arc>, root: Vertex, v: Vertex) {
    exists n: nat :: ReachedIn(arcs, root, v, n)
  }

  ghost function ArcSet(arcs: seq<Arc>): set<Arc> {
    set a | a in arcs
  }

  ghost predicate DistinctChildren(arcs: seq<Arc>) {
    forall i, j :: 0 <= i < j < |arcs| ==> arcs[i].child != arcs[j].child
  }

  ghost predicate IsChild(arcs: seq<Arc>, v: Vertex) {
    exists a :: a in arcs && a.child == v
  }

  /** One head for every vertex but the root, and every vertex reachable from the root. */
  ghost predicate SpanningArborescence(vertices: set<Vertex>, root: Vertex, arcs: seq<Arc>) {
    && root in vertices
    && DistinctChildren(arcs)
    && (forall a :: a in arcs ==> a.parent in vertices && a.child in vertices && a.child != root)
    && (forall v :: v in vertices ==> Reachable(ArcSet(arcs), root, v))
  }

  /** `rank` grows along every arc. */
  ghost predicate Ranks(vertices: set<Vertex>, arcs: seq<Arc>, rank: map<Vertex, nat>) {
    && rank.Keys == vertices
    && forall a :: a in arcs ==>
      a.parent in vertices && a.child in vertices && rank[a.parent] < rank[a.child]
  }

  lemma SameArc(arcs: seq<Arc>, a: Arc, b: Arc)
    requires DistinctChildren(arcs) && a in arcs && b in arcs && a.child == b.child
    ensures a == b
  {
    var i :| 0 <= i < |arcs| && arcs[i] == a;
    var j :| 0 <= j < |arcs| && arcs[j] == b;
    assert i == j;
  }

  lemma WalkEndsInChild(arcs: seq<Arc>, root: Vertex, v: Vertex, n: nat)
    requires n > 0 && ReachedIn(ArcSet(arcs), root, v, n)
    ensures IsChild(arcs, v)
  {
    var u :| Arc(u, v) in ArcSet(arcs) && ReachedIn(ArcSet(arcs), root, u, n - 1);
    assert Arc(u, v) in arcs;
  }

  /** With one head per vertex and none at the root, all walks to a vertex are equally long. */
  lemma {:induction false} WalkLengthUnique(arcs: seq<Arc>, root: Vertex, v: Vertex, m: nat, n: nat)
    requires DistinctChildren(arcs) && !IsChild(arcs, root)
    requires ReachedIn(ArcSet(arcs), root, v, m) && ReachedIn(ArcSet(arcs), root, v, n)
    ensures m == n
    decreases m
  {
    if m > 0 && n > 0 {
      var u :| Arc(u, v) in ArcSet(arcs) && ReachedIn(ArcSet(arcs), root, u, m - 1);
      var w :| Arc(w, v) in ArcSet(arcs) && ReachedIn(ArcSet(arcs), root, w, n - 1);
      SameArc(arcs, Arc(u, v), Arc(w, v));
      WalkLengthUnique(arcs, root, u, m - 1, n - 1);
    } else {
      if m > 0 {
        WalkEndsInChild(arcs, root, v, m);
      } else if n > 0 {
        WalkEndsInChild(arcs, root, v, n);
      }
    }
  }

  lemma DepthExists(vertices: set<Vertex>, root: Vertex, arcs: seq<Arc>) returns (depth: map<Vertex, nat>)
    requires SpanningArborescence(vertices, root, arcs)
    ensures Ranks(vertices, arcs, depth)
    ensures forall v :: v in vertices ==> ReachedIn(ArcSet(arcs), root, v, depth[v])
  {
    var all := ArcSet(arcs);
    depth := map v | v in vertices :: var n: nat :| ReachedIn(all, root, v, n); n;
    forall a | a in arcs
      ensures depth[a.parent] < depth[a.child]
    {
      assert Arc(a.parent, a.child) in all && ReachedIn(all, root, a.parent, depth[a.parent]);
      assert ReachedIn(all, root, a.child, depth[a.parent] + 1);
      WalkLengthUnique(arcs, root, a.child, depth[a.parent] + 1, depth[a.child]);
    }
  }

  lemma {:induction false} RankedReachable(vertices: set<Vertex>, root: Vertex, arcs: seq<Arc>,
                                           rank: map<Vertex, nat>, v: Vertex)
    requires Ranks(vertices, arcs, rank)
    requires forall u :: u in vertices && u != root ==> IsChild(arcs, u)
    requires v in vertices
    ensures Reachable(ArcSet(arcs), root, v)
    decreases rank[v]
  {
    if v == root {
      assert ReachedIn(ArcSet(arcs), root, v, 0);
    } else {
      var a :| a in arcs && a.child == v;
      RankedReachable(vertices, root, arcs, rank, a.parent);
      var n: nat :| ReachedIn(ArcSet(arcs), root, a.parent, n);
      assert Arc(a.parent, v) in ArcSet(arcs);
      assert ReachedIn(ArcSet(arcs), root, v, n + 1);
    }
  }

  /** The form used by the proofs: one head for every vertex but the root, and no cycle. */
  lemma ArborescenceIffRanked(vertices: set<Vertex>, root: Vertex, arcs: seq<Arc>)
    ensures SpanningArborescence(vertices, root, arcs) <==>
            && root in vertices
            && DistinctChildren(arcs)
            && (forall a :: a in arcs ==> a.child != root)
            && (forall v :: v in vertices && v != root ==> IsChild(arcs, v))
            && (exists rank :: Ranks(vertices, arcs, rank))
  {
    if SpanningArborescence(vertices, root, arcs) {
      var depth := DepthExists(vertices, root, arcs);
      forall v | v in vertices && v != root
        ensures IsChild(arcs, v)
      {
        WalkEndsInChild(arcs, root, v, depth[v]);
      }
    }
    if && root in vertices
       && DistinctChildren(arcs)
       && (forall a :: a in arcs ==> a.child != root)
       && (forall v :: v in vertices && v != root ==> IsChild(arcs, v))
       && (exists rank :: Ranks(vertices, arcs, rank)) {
      var rank :| Ranks(vertices, arcs, rank);
      forall v | v in vertices
        ensures Reachable(ArcSet(arcs), root, v)
      {
        RankedReachable(vertices, root, arcs, rank, v);
      }
    }
  }
}
