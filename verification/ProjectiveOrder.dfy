/**
 The in-order listing of a dependency tree ("projective order"): children before their head
 when they are smaller, after it when they are larger, each subtree in one piece.
 */
module ProjectiveOrder {
  import opened Options
  import opened Sequences
  import opened Arborescences
  import opened Inversions

  // ----- Sorted children.

  function Outgoing(arcs: seq<Arc>, v: Vertex): seq<Vertex> {
    if arcs == [] then []
    else (if arcs[0].parent == v then [arcs[0].child] else []) + Outgoing(arcs[1..], v)
  }

  function Insert(x: Vertex, s: seq<Vertex>): seq<Vertex> {
    if s == [] || x <= s[0] then [x] + s else [s[0]] + Insert(x, s[1..])
  }

  function Sorted(s: seq<Vertex>): seq<Vertex> {
    if s == [] then [] else Insert(s[0], Sorted(s[1..]))
  }

  predicate VertexLess(a: Vertex, b: Vertex) {
    a < b
  }

  ghost predicate Ascending(s: seq<Vertex>) {
    forall i, j :: 0 <= i < j < |s| ==> s[i] <= s[j]
  }

  lemma {:induction false} InsertKeeps(x: Vertex, s: seq<Vertex>)
    ensures multiset(Insert(x, s)) == multiset{x} + multiset(s)
    ensures forall y :: y in Insert(x, s) <==> y == x || y in s
  {
    if s != [] && x > s[0] {
      InsertKeeps(x, s[1..]);
      assert s == [s[0]] + s[1..];
    }
  }

  lemma {:induction false} InsertSorts(x: Vertex, s: seq<Vertex>)
    requires Ascending(s)
    ensures Ascending(Insert(x, s))
  {
    if s != [] && x > s[0] {
      InsertSorts(x, s[1..]);
      InsertKeeps(x, s[1..]);
      var r := Insert(x, s[1..]);
      forall k | 0 <= k < |r|
        ensures s[0] <= r[k]
      {
        assert r[k] in r;
      }
    }
  }

  lemma {:induction false} SortedSorts(s: seq<Vertex>)
    ensures Ascending(Sorted(s)) && multiset(Sorted(s)) == multiset(s)
  {
    if s != [] {
      SortedSorts(s[1..]);
      InsertSorts(s[0], Sorted(s[1..]));
      InsertKeeps(s[0], Sorted(s[1..]));
      assert s == [s[0]] + s[1..];
    }
  }

  lemma SameAscending(s: seq<Vertex>, u: seq<Vertex>)
    requires Ordered(s, VertexLess) && Ordered(u, VertexLess)
    requires forall v :: v in s <==> v in u
    ensures s == u
  {
    SameOrder(s, u, VertexLess);
  }

  function ChildrenOf(arcs: seq<Arc>, v: Vertex): seq<Vertex> {
    Sorted(Outgoing(arcs, v))
  }

  lemma {:induction false} OutgoingIs(arcs: seq<Arc>, v: Vertex, c: Vertex)
    ensures c in Outgoing(arcs, v) <==> Arc(v, c) in arcs
  {
    if arcs != [] {
      OutgoingIs(arcs[1..], v, c);
      assert arcs == [arcs[0]] + arcs[1..];
    }
  }

  lemma ChildrenOfIs(arcs: seq<Arc>, v: Vertex, c: Vertex)
    ensures c in ChildrenOf(arcs, v) <==> Arc(v, c) in arcs
  {
    OutgoingIs(arcs, v, c);
    SortedSorts(Outgoing(arcs, v));
    assert c in multiset(Sorted(Outgoing(arcs, v))) <==> c in multiset(Outgoing(arcs, v));
  }

  lemma {:induction false} OutgoingOnce(arcs: seq<Arc>, v: Vertex, c: Vertex)
    requires DistinctChildren(arcs)
    ensures multiset(Outgoing(arcs, v))[c] <= 1
  {
    if arcs != [] {
      OutgoingOnce(arcs[1..], v, c);
      OutgoingIs(arcs[1..], v, c);
      if arcs[0].parent == v && arcs[0].child == c && Arc(v, c) in arcs[1..] {
        assert false;
      }
    }
  }

  lemma OnceIsDistinct(s: seq<Vertex>)
    requires forall v :: multiset(s)[v] <= 1
    ensures Distinct(s)
  {
    forall i, j | 0 <= i < j < |s|
      ensures s[i] != s[j]
    {
      assert s[..j][i] == s[i];
      assert s == s[..j] + [s[j]] + s[j + 1..];
      assert multiset(s) == multiset(s[..j]) + multiset{s[j]} + multiset(s[j + 1..]);
      assert multiset(s)[s[i]] <= 1;
    }
  }

  /** An ascending list in which nothing stands twice ascends strictly. */
  lemma StrictlyAscending(s: seq<Vertex>)
    requires Ascending(s) && forall v :: multiset(s)[v] <= 1
    ensures forall i, j :: 0 <= i < j < |s| ==> s[i] < s[j]
  {
    OnceIsDistinct(s);
  }

  lemma ChildrenOfDistinct(arcs: seq<Arc>, v: Vertex)
    requires DistinctChildren(arcs)
    ensures Ordered(ChildrenOf(arcs, v), VertexLess)
  {
    SortedSorts(Outgoing(arcs, v));
    forall c
      ensures multiset(ChildrenOf(arcs, v))[c] <= 1
    {
      OutgoingOnce(arcs, v, c);
    }
    StrictlyAscending(ChildrenOf(arcs, v));
  }

  // ----- The tree and its in-order listing.

  /** A dependency tree, with each vertex's parent, depth, smaller children and larger children at hand. */
  datatype RawTree = RawTree(vs: set<Vertex>, root: Vertex, arcs: seq<Arc>, parent: map<Vertex, Vertex>,
                             depth: map<Vertex, nat>, bound: nat,
                       small: map<Vertex, seq<Vertex>>, large: map<Vertex, seq<Vertex>>)

  ghost predicate Proper(t: RawTree) {
    && t.root in t.vs
    && DistinctChildren(t.arcs)
    && t.parent.Keys == t.vs - {t.root}
    && t.depth.Keys == t.vs && t.depth[t.root] == 0
    && (forall v :: v in t.vs ==> t.depth[v] <= t.bound)
    && (forall a :: a in t.arcs ==> a.parent in t.vs && a.child in t.parent
                                    && t.parent[a.child] == a.parent && t.depth[a.child] == t.depth[a.parent] + 1)
    && (forall v {:trigger t.parent[v]} :: v in t.parent ==> Arc(t.parent[v], v) in t.arcs)
    && t.small.Keys == t.vs && t.large.Keys == t.vs
    && (forall v {:trigger Distinct(t.small[v])} :: v in t.vs ==> Distinct(t.small[v]))
    && (forall v {:trigger Distinct(t.large[v])} :: v in t.vs ==> Distinct(t.large[v]))
    && (forall v, c: Vertex {:trigger c in t.small[v]} :: v in t.vs ==>
         (c in t.small[v] <==> Arc(v, c) in t.arcs && c < v))
    && (forall v, c: Vertex {:trigger c in t.large[v]} :: v in t.vs ==>
         (c in t.large[v] <==> Arc(v, c) in t.arcs && v < c))
  }

  type Tree = t: RawTree | Proper(t)
    ghost witness RawTree({0}, 0, [], map[], map[0 := 0], 0, map[0 := []], map[0 := []])

  /** The children are those the source computes: sorted, then split at the vertex. */
  ghost predicate SourceChildren(t: RawTree)
    requires Proper(t)
  {
    forall v {:trigger t.small[v]} {:trigger t.large[v]} :: v in t.vs ==>
      t.small[v] == Smaller(ChildrenOf(t.arcs, v), v) && t.large[v] == Larger(ChildrenOf(t.arcs, v), v)
  }

  lemma TreeOf(vs: set<Vertex>, root: Vertex, arcs: seq<Arc>) returns (t: Tree)
    requires SpanningArborescence(vs, root, arcs)
    ensures t.vs == vs && t.root == root && t.arcs == arcs && SourceChildren(t)
  {
    var r := RawTreeOf(vs, root, arcs);
    t := r;
  }

  lemma RawTreeOf(vs: set<Vertex>, root: Vertex, arcs: seq<Arc>) returns (t: RawTree)
    requires SpanningArborescence(vs, root, arcs)
    ensures t.vs == vs && t.root == root && t.arcs == arcs && Proper(t) && SourceChildren(t)
  {
    var depth := DepthExists(vs, root, arcs);
    var bound := DepthBound(vs, depth);
    var parent := ParentMap(vs, root, arcs);
    var small := map v | v in vs :: Smaller(ChildrenOf(arcs, v), v);
    var large := map v | v in vs :: Larger(ChildrenOf(arcs, v), v);
    forall v | v in vs
      ensures Distinct(small[v]) && Distinct(large[v])
    {
      ChildrenOfDistinct(arcs, v);
      SmallerLarger(ChildrenOf(arcs, v), v);
    }
    forall v, c: Vertex | v in vs
      ensures c in small[v] <==> Arc(v, c) in arcs && c < v
      ensures c in large[v] <==> Arc(v, c) in arcs && v < c
    {
      ChildrenOfIs(arcs, v, c);
    }
    assert ReachedIn(ArcSet(arcs), root, root, 0);
    WalkLengthUnique(arcs, root, root, 0, depth[root]);
    forall a | a in arcs
      ensures depth[a.child] == depth[a.parent] + 1
    {
      ExactDepth(arcs, root, a, depth[a.parent], depth[a.child]);
    }
    t := RawTree(vs, root, arcs, parent, depth, bound, small, large);
  }

  lemma ParentMap(vs: set<Vertex>, root: Vertex, arcs: seq<Arc>) returns (parent: map<Vertex, Vertex>)
    requires SpanningArborescence(vs, root, arcs)
    ensures parent.Keys == vs - {root}
    ensures forall a :: a in arcs ==> a.child in parent && parent[a.child] == a.parent
    ensures forall v {:trigger parent[v]} :: v in parent ==> Arc(parent[v], v) in arcs
  {
    forall v | v in vs - {root}
      ensures IsChild(arcs, v)
    {
      var n: nat :| ReachedIn(ArcSet(arcs), root, v, n);
      WalkEndsInChild(arcs, root, v, n);
    }
    parent := map v | v in vs - {root} :: HeadOf(arcs, v);
    forall a | a in arcs
      ensures parent[a.child] == a.parent
    {
      SameArc(arcs, a, Arc(parent[a.child], a.child));
    }
  }

  ghost function HeadOf(arcs: seq<Arc>, v: Vertex): (p: Vertex)
    requires IsChild(arcs, v)
    ensures Arc(p, v) in arcs
  {
    var a :| a in arcs && a.child == v;
    a.parent
  }

  lemma ExactDepth(arcs: seq<Arc>, root: Vertex, a: Arc, m: nat, n: nat)
    requires DistinctChildren(arcs) && !IsChild(arcs, root) && a in arcs
    requires ReachedIn(ArcSet(arcs), root, a.parent, m) && ReachedIn(ArcSet(arcs), root, a.child, n)
    ensures n == m + 1
  {
    assert Arc(a.parent, a.child) in ArcSet(arcs);
    assert ReachedIn(ArcSet(arcs), root, a.child, m + 1);
    WalkLengthUnique(arcs, root, a.child, m + 1, n);
  }

  lemma DepthBound(vs: set<Vertex>, depth: map<Vertex, nat>) returns (bound: nat)
    requires depth.Keys == vs
    ensures forall v :: v in vs ==> depth[v] <= bound
  {
    bound := 0;
    var left := vs;
    while left != {}
      invariant left <= vs
      invariant forall v :: v in vs - left ==> depth[v] <= bound
      decreases left
    {
      var v :| v in left;
      if depth[v] > bound { bound := depth[v]; }
      left := left - {v};
    }
  }

  function Smaller(cs: seq<Vertex>, v: Vertex): (r: seq<Vertex>)
    ensures forall c :: c in r <==> c in cs && c < v
  {
    if cs == [] then [] else (if cs[0] < v then [cs[0]] else []) + Smaller(cs[1..], v)
  }

  function Larger(cs: seq<Vertex>, v: Vertex): (r: seq<Vertex>)
    ensures forall c :: c in r <==> c in cs && v < c
  {
    if cs == [] then [] else (if v < cs[0] then [cs[0]] else []) + Larger(cs[1..], v)
  }

  /** The vertices of `cs` lie at one depth. */
  ghost predicate Level(t: Tree, cs: seq<Vertex>) {
    forall c :: c in cs ==> c in t.depth && cs[0] in t.depth && t.depth[c] == t.depth[cs[0]]
  }

  ghost function Height(t: Tree, cs: seq<Vertex>): nat
    requires Level(t, cs)
  {
    if cs == [] then 0 else assert cs[0] in cs; t.bound + 1 - t.depth[cs[0]]
  }

  /** The in-order listing of the subtree at `v`. */
  ghost function InOrder(t: Tree, v: Vertex): seq<Vertex>
    requires v in t.vs
  {
    ChildrenLevel(t, v);
    InOrderAll(t, t.small[v]) + [v] + InOrderAll(t, t.large[v])
  }

  /** The listings of several subtrees, one after the other. */
  ghost function InOrderAll(t: Tree, cs: seq<Vertex>): seq<Vertex>
    requires Level(t, cs)
    decreases Height(t, cs), |cs|
  {
    if cs == [] then []
    else
      assert cs[0] in cs;
      ChildrenLevel(t, cs[0]);
      InOrderAll(t, t.small[cs[0]]) + [cs[0]] + InOrderAll(t, t.large[cs[0]]) + InOrderAll(t, cs[1..])
  }

  lemma ChildrenLevel(t: Tree, v: Vertex)
    requires v in t.vs
    ensures Level(t, t.small[v]) && Level(t, t.large[v])
    ensures Height(t, t.small[v]) <= t.bound - t.depth[v] && Height(t, t.large[v]) <= t.bound - t.depth[v]
    ensures forall c :: c in t.small[v] || c in t.large[v] ==> c in t.depth && t.depth[c] == t.depth[v] + 1
  {
    forall c | c in t.small[v] || c in t.large[v]
      ensures c in t.depth && t.depth[c] == t.depth[v] + 1
    {
      assert Arc(v, c) in t.arcs;
    }
    assert t.small[v] != [] ==> t.small[v][0] in t.small[v];
    assert t.large[v] != [] ==> t.large[v][0] in t.large[v];
  }

  // ----- Ancestors: a listing holds exactly the descendants, each once.

  ghost function Ancestor(t: Tree, x: Vertex, d: nat): (u: Vertex)
    requires x in t.vs && d <= t.depth[x]
    ensures u in t.vs && t.depth[u] == d
    decreases t.depth[x]
  {
    if t.depth[x] == d then x else Ancestor(t, t.parent[x], d)
  }

  lemma {:induction false} AncestorStep(t: Tree, x: Vertex, d: nat)
    requires x in t.vs && d < t.depth[x]
    ensures Ancestor(t, x, d + 1) != t.root
    ensures t.parent[Ancestor(t, x, d + 1)] == Ancestor(t, x, d)
    decreases t.depth[x]
  {
    if t.depth[x] > d + 1 {
      AncestorStep(t, t.parent[x], d);
    }
  }

  lemma Glue(a: seq<Vertex>, p: seq<Vertex>, b: seq<Vertex>, q: seq<Vertex>, c: seq<Vertex>)
    ensures a + (p + b + q) + c == (a + p) + b + (q + c)
    ensures a + (p + b + q) == (a + p) + b + q
    ensures p + b + q + c == p + b + (q + c)
    ensures [] + b + q == b + q && b + [] == b
  {
  }

  lemma GlueBefore(p: seq<Vertex>, b: seq<Vertex>, q: seq<Vertex>, v: seq<Vertex>, c: seq<Vertex>)
    ensures p + b + q + v + c == p + b + (q + v + c)
  {
  }

  /** Where the listing of one child stands within the listing of several. */
  lemma {:induction false} BlockOfChild(t: Tree, cs: seq<Vertex>, c: Vertex) returns (p: seq<Vertex>, q: seq<Vertex>)
    requires Level(t, cs) && c in cs
    ensures c in t.vs && InOrderAll(t, cs) == p + InOrder(t, c) + q
  {
    var first, rest := InOrder(t, cs[0]), InOrderAll(t, cs[1..]);
    assert InOrderAll(t, cs) == first + rest;
    if c == cs[0] {
      p, q := [], rest;
      Glue([], [], first, rest, []);
    } else {
      assert cs == [cs[0]] + cs[1..];
      p, q := BlockOfChild(t, cs[1..], c);
      Glue(first, p, InOrder(t, c), q, []);
      p := first + p;
    }
  }

  lemma InOrderIs(t: Tree, v: Vertex) returns (small: seq<Vertex>, large: seq<Vertex>)
    requires v in t.vs
    ensures Level(t, t.small[v]) && Level(t, t.large[v])
    ensures small == InOrderAll(t, t.small[v]) && large == InOrderAll(t, t.large[v])
    ensures InOrder(t, v) == small + [v] + large
  {
    ChildrenLevel(t, v);
    small, large := InOrderAll(t, t.small[v]), InOrderAll(t, t.large[v]);
  }

  lemma BlockInParent(t: Tree, c: Vertex) returns (p: seq<Vertex>, q: seq<Vertex>)
    requires c in t.vs && c != t.root
    ensures InOrder(t, t.parent[c]) == p + InOrder(t, c) + q
  {
    var v := t.parent[c];
    assert Arc(v, c) in t.arcs;
    var small, large := InOrderIs(t, v);
    var block := InOrder(t, c);
    if c < v {
      p, q := BlockOfChild(t, t.small[v], c);
      GlueBefore(p, block, q, [v], large);
      q := q + [v] + large;
    } else {
      assert c in t.large[v];
      p, q := BlockOfChild(t, t.large[v], c);
      Glue(small + [v], p, block, q, []);
      p := small + [v] + p;
    }
  }

  /** Every subtree is one contiguous piece of the whole listing. */
  lemma {:induction false} SubtreeIsBlock(t: Tree, v: Vertex) returns (p: seq<Vertex>, q: seq<Vertex>)
    requires v in t.vs
    ensures InOrder(t, t.root) == p + InOrder(t, v) + q
    decreases t.depth[v]
  {
    if v == t.root {
      p, q := [], [];
      Glue([], [], InOrder(t, v), [], []);
    } else {
      var p0, q0 := SubtreeIsBlock(t, t.parent[v]);
      var p1, q1 := BlockInParent(t, v);
      p, q := p0 + p1, q1 + q0;
      Glue(p0, p1, InOrder(t, v), q1, q0);
    }
  }

  lemma {:induction false} InOrderOwner(t: Tree, cs: seq<Vertex>, x: Vertex) returns (c: Vertex)
    requires Level(t, cs) && x in InOrderAll(t, cs)
    ensures c in cs && c in t.vs && x in InOrder(t, c)
  {
    if x in InOrder(t, cs[0]) {
      c := cs[0];
    } else {
      c := InOrderOwner(t, cs[1..], x);
    }
  }

  lemma ListedUnderChild(t: Tree, v: Vertex, x: Vertex) returns (c: Vertex)
    requires v in t.vs && x in InOrder(t, v) && x != v
    ensures Arc(v, c) in t.arcs && x in InOrder(t, c)
  {
    var small, large := InOrderIs(t, v);
    if x in small {
      c := InOrderOwner(t, t.small[v], x);
    } else {
      assert x in large;
      c := InOrderOwner(t, t.large[v], x);
    }
  }

  lemma {:induction false} ListedIsBelow(t: Tree, v: Vertex, x: Vertex)
    requires v in t.vs && x in InOrder(t, v)
    ensures x in t.vs && t.depth[v] <= t.depth[x] && Ancestor(t, x, t.depth[v]) == v
    decreases t.bound + 1 - t.depth[v]
  {
    if x != v {
      var c := ListedUnderChild(t, v, x);
      ListedIsBelow(t, c, x);
      AncestorStep(t, x, t.depth[v]);
    }
  }

  lemma {:induction false} BelowIsListed(t: Tree, v: Vertex, x: Vertex)
    requires v in t.vs && x in t.vs && t.depth[v] <= t.depth[x] && Ancestor(t, x, t.depth[v]) == v
    ensures x in InOrder(t, v)
    decreases t.depth[x] - t.depth[v]
  {
    if t.depth[x] > t.depth[v] {
      AncestorStep(t, x, t.depth[v]);
      var c := Ancestor(t, x, t.depth[v] + 1);
      BelowIsListed(t, c, x);
      var p, q := BlockInParent(t, c);
    }
  }

  ghost predicate Once(s: seq<Vertex>, x: Vertex) {
    multiset(s)[x] <= 1
  }

  lemma CountOnce(small: seq<Vertex>, v: Vertex, large: seq<Vertex>, x: Vertex)
    requires Once(small, x) && Once(large, x)
    requires v !in small && v !in large && !(x in small && x in large)
    ensures Once(small + [v] + large, x)
  {
    assert x in small <==> x in multiset(small);
    assert x in large <==> x in multiset(large);
    assert v !in multiset(small) && v !in multiset(large);
  }

  ghost predicate OnceAll(t: Tree, cs: seq<Vertex>, x: Vertex)
    requires Level(t, cs)
  {
    Once(InOrderAll(t, cs), x)
  }

  lemma {:induction false} ListedOnce(t: Tree, v: Vertex, x: Vertex)
    requires v in t.vs
    ensures Once(InOrder(t, v), x)
    decreases t.bound + 1 - t.depth[v], 0
  {
    ChildrenLevel(t, v);
    ListedOnceAll(t, t.small[v], x);
    ListedOnceAll(t, t.large[v], x);
    OnceOnEachSide(t, v, x);
  }

  lemma OnceOnEachSide(t: Tree, v: Vertex, x: Vertex)
    requires v in t.vs && Level(t, t.small[v]) && Level(t, t.large[v])
    requires OnceAll(t, t.small[v], x) && OnceAll(t, t.large[v], x)
    ensures Once(InOrder(t, v), x)
  {
    SidesApart(t, v, x);
    var small, large := InOrderIs(t, v);
    CountOnce(small, v, large, x);
  }

  lemma SidesApart(t: Tree, v: Vertex, x: Vertex)
    requires v in t.vs
    ensures Level(t, t.small[v]) && Level(t, t.large[v])
    ensures v !in InOrderAll(t, t.small[v]) && v !in InOrderAll(t, t.large[v])
    ensures !(x in InOrderAll(t, t.small[v]) && x in InOrderAll(t, t.large[v]))
  {
    ChildrenLevel(t, v);
    NotAmong(t, t.small[v], v);
    NotAmong(t, t.large[v], v);
    if x in InOrderAll(t, t.small[v]) && x in InOrderAll(t, t.large[v]) {
      var c := InOrderOwner(t, t.small[v], x);
      var c' := InOrderOwner(t, t.large[v], x);
      ListedIsBelow(t, c, x);
      ListedIsBelow(t, c', x);
    }
  }

  /** Vertices listed under children lie deeper than their parent. */
  lemma NotAmong(t: Tree, cs: seq<Vertex>, v: Vertex)
    requires Level(t, cs) && v in t.vs
    requires forall c :: c in cs ==> t.depth[v] < t.depth[c]
    ensures v !in InOrderAll(t, cs)
  {
    if v in InOrderAll(t, cs) {
      var c := InOrderOwner(t, cs, v);
      ListedIsBelow(t, c, v);
    }
  }

  lemma {:induction false} ListedOnceAll(t: Tree, cs: seq<Vertex>, x: Vertex)
    requires Level(t, cs) && Distinct(cs)
    ensures OnceAll(t, cs, x)
    decreases Height(t, cs), 1 + |cs|
  {
    if cs != [] {
      assert cs[0] in cs;
      ListedOnce(t, cs[0], x);
      ListedOnceAll(t, cs[1..], x);
      FirstApart(t, cs, x);
      var first, rest := InOrder(t, cs[0]), InOrderAll(t, cs[1..]);
      assert InOrderAll(t, cs) == first + rest;
      assert x in first <==> x in multiset(first);
      assert x in rest <==> x in multiset(rest);
    }
  }

  lemma FirstApart(t: Tree, cs: seq<Vertex>, x: Vertex)
    requires Level(t, cs) && Distinct(cs) && cs != []
    ensures cs[0] in cs && !(x in InOrder(t, cs[0]) && x in InOrderAll(t, cs[1..]))
  {
    assert cs[0] in cs;
    if x in InOrder(t, cs[0]) && x in InOrderAll(t, cs[1..]) {
      ListedIsBelow(t, cs[0], x);
      var c := InOrderOwner(t, cs[1..], x);
      ListedIsBelow(t, c, x);
    }
  }

  lemma {:induction false} SmallerLarger(cs: seq<Vertex>, v: Vertex)
    requires Ordered(cs, VertexLess)
    ensures Ordered(Smaller(cs, v), VertexLess) && Ordered(Larger(cs, v), VertexLess)
  {
    if cs != [] {
      SmallerLarger(cs[1..], v);
      FirstAscends(cs[0], Smaller(cs[1..], v));
      FirstAscends(cs[0], Larger(cs[1..], v));
    }
  }

  lemma FirstAscends(x: Vertex, s: seq<Vertex>)
    requires Ordered(s, VertexLess) && forall y :: y in s ==> x < y
    ensures Ordered([x] + s, VertexLess)
  {
    assert forall i :: 0 <= i < |s| ==> s[i] in s;
  }

  // ----- Neighbours in a part of the tree.

  /** With a vertex, `r` holds its parent. */
  ghost predicate UpClosed(t: Tree, r: set<Vertex>) {
    forall a :: a in t.arcs && a.child in r ==> a.parent in r
  }

  /** No child of `v` is in `r`. */
  ghost predicate LeafIn(t: Tree, r: set<Vertex>, v: Vertex) {
    forall a :: a in t.arcs && a.parent == v ==> a.child !in r
  }

  /** One is the parent of the other, and the child is a leaf of the part `r`. */
  ghost predicate LeafPair(t: Tree, r: set<Vertex>, a: Vertex, b: Vertex) {
    (Arc(a, b) in t.arcs && LeafIn(t, r, b)) || (Arc(b, a) in t.arcs && LeafIn(t, r, a))
  }

  /** `a` and `b` are in `r`, and in `line` nothing of `r` stands between them. */
  ghost predicate Neighbours(line: seq<Vertex>, r: set<Vertex>, p: seq<Vertex>, a: Vertex, mid: seq<Vertex>,
                             b: Vertex, q: seq<Vertex>) {
    && line == p + [a] + mid + [b] + q
    && a in r && b in r
    && forall x :: x in mid ==> x !in r
  }

  lemma {:induction false} ListedHeadInPart(t: Tree, r: set<Vertex>, v: Vertex, x: Vertex)
    requires UpClosed(t, r) && v in t.vs && x in InOrder(t, v) && x in r
    ensures v in r
    decreases t.bound + 1 - t.depth[v]
  {
    if x != v {
      var c := ListedUnderChild(t, v, x);
      ListedHeadInPart(t, r, c, x);
    }
  }

  lemma {:induction false} LastIn(s: seq<Vertex>, r: set<Vertex>, x: Vertex)
    returns (p: seq<Vertex>, a: Vertex, mid: seq<Vertex>)
    requires x in s && x in r
    ensures s == p + [a] + mid && a in s && a in r
    ensures forall y :: y in mid ==> y !in r
  {
    var n := |s| - 1;
    if s[n] in r {
      p, a, mid := s[..n], s[n], [];
    } else {
      assert s == s[..n] + [s[n]];
      p, a, mid := LastIn(s[..n], r, x);
      mid := mid + [s[n]];
    }
  }

  lemma {:induction false} FirstIn(s: seq<Vertex>, r: set<Vertex>, x: Vertex)
    returns (mid: seq<Vertex>, b: Vertex, q: seq<Vertex>)
    requires x in s && x in r
    ensures s == mid + [b] + q && b in s && b in r
    ensures forall y :: y in mid ==> y !in r
  {
    if s[0] in r {
      mid, b, q := [], s[0], s[1..];
    } else {
      assert s == [s[0]] + s[1..];
      mid, b, q := FirstIn(s[1..], r, x);
      mid := [s[0]] + mid;
    }
  }

  /** The subtree at `c` holds another vertex of the part. */
  ghost predicate Branching(t: Tree, r: set<Vertex>, c: Vertex)
    requires c in t.vs
  {
    exists x :: x in InOrder(t, c) && x in r && x != c
  }

  lemma SelfListed(t: Tree, v: Vertex)
    requires v in t.vs
    ensures v in InOrder(t, v)
  {
    var small, large := InOrderIs(t, v);
  }

  lemma NotBranchingIsLeaf(t: Tree, r: set<Vertex>, c: Vertex)
    requires c in t.vs && !Branching(t, r, c)
    ensures LeafIn(t, r, c)
  {
    forall a | a in t.arcs && a.parent == c
      ensures a.child !in r
    {
      SelfListed(t, a.child);
      var p, q := BlockInParent(t, a.child);
      assert a.child in InOrder(t, c);
    }
  }

  lemma FrameNeighbours(line: seq<Vertex>, block: seq<Vertex>, p0: seq<Vertex>, q0: seq<Vertex>, r: set<Vertex>,
                        p: seq<Vertex>, a: Vertex, mid: seq<Vertex>, b: Vertex, q: seq<Vertex>)
    requires line == p0 + block + q0 && Neighbours(block, r, p, a, mid, b, q)
    ensures Neighbours(line, r, p0 + p, a, mid, b, q + q0)
  {
    assert p0 + (p + [a] + mid + [b] + q) + q0 == (p0 + p) + [a] + mid + [b] + (q + q0);
  }

  /**
   In any ancestor-closed part with more than one vertex, some two neighbours of the listing are a leaf and its parent.
   */
  lemma {:induction false} AdjacentLeaf(t: Tree, r: set<Vertex>, v: Vertex)
    returns (p: seq<Vertex>, a: Vertex, mid: seq<Vertex>, b: Vertex, q: seq<Vertex>)
    requires UpClosed(t, r) && v in t.vs && v in r && Branching(t, r, v)
    ensures Neighbours(InOrder(t, v), r, p, a, mid, b, q) && LeafPair(t, r, a, b)
    decreases t.bound + 1 - t.depth[v]
  {
    if c :| c in t.parent && t.parent[c] == v && c in r && Branching(t, r, c) {
      assert Arc(v, c) in t.arcs;
      p, a, mid, b, q := AdjacentLeaf(t, r, c);
      var p0, q0 := BlockInParent(t, c);
      FrameNeighbours(InOrder(t, v), InOrder(t, c), p0, q0, r, p, a, mid, b, q);
      p, q := p0 + p, q + q0;
    } else {
      p, a, mid, b, q := AdjacentToHead(t, r, v);
    }
  }

  lemma AdjacentToHead(t: Tree, r: set<Vertex>, v: Vertex)
    returns (p: seq<Vertex>, a: Vertex, mid: seq<Vertex>, b: Vertex, q: seq<Vertex>)
    requires UpClosed(t, r) && v in t.vs && v in r && Branching(t, r, v)
    requires forall c :: c in t.parent && t.parent[c] == v && c in r ==> !Branching(t, r, c)
    ensures Neighbours(InOrder(t, v), r, p, a, mid, b, q) && LeafPair(t, r, a, b)
  {
    var x :| x in InOrder(t, v) && x in r && x != v;
    var small, large := InOrderIs(t, v);
    if x in small {
      p, a, mid := LastIn(small, r, x);
      AreChildren(t, v);
      ChildListed(t, r, v, t.small[v], a);
      b, q := v, large;
    } else {
      assert x in large;
      mid, b, q := FirstIn(large, r, x);
      AreChildren(t, v);
      ChildListed(t, r, v, t.large[v], b);
      p, a := small, v;
      GlueAfter(small, [v], mid, [b], q);
    }
  }

  lemma GlueAfter(s: seq<Vertex>, v: seq<Vertex>, mid: seq<Vertex>, b: seq<Vertex>, q: seq<Vertex>)
    ensures s + v + (mid + b + q) == s + v + mid + b + q
  {
  }

  lemma AreChildren(t: Tree, v: Vertex)
    requires v in t.vs
    ensures forall c :: c in t.small[v] || c in t.large[v] ==> Arc(v, c) in t.arcs
  {
  }

  /** When no child of `v` branches, the part's vertices listed under `v` are children of `v` and leaves. */
  lemma ChildListed(t: Tree, r: set<Vertex>, v: Vertex, cs: seq<Vertex>, x: Vertex)
    requires UpClosed(t, r) && v in t.vs && Level(t, cs)
    requires forall c :: c in cs ==> Arc(v, c) in t.arcs
    requires forall c :: c in t.parent && t.parent[c] == v && c in r ==> !Branching(t, r, c)
    requires x in InOrderAll(t, cs) && x in r
    ensures Arc(v, x) in t.arcs && LeafIn(t, r, x)
  {
    var c := InOrderOwner(t, cs, x);
    ListedHeadInPart(t, r, c, x);
    assert t.parent[c] == v;
    NotBranchingIsLeaf(t, r, c);
  }

  // ----- The order of the listing, told by the arcs alone.

  /** `x` is `c` or a descendant of it. */
  ghost predicate Below(arcs: seq<Arc>, c: Vertex, x: Vertex) {
    Reachable(ArcSet(arcs), c, x)
  }

  ghost predicate StandsBefore(line: seq<Vertex>, x: Vertex, y: Vertex) {
    exists i, j :: 0 <= i < j < |line| && line[i] == x && line[j] == y
  }

  /** Of two siblings, the smaller one and all below it stand before the larger one and all below that. */
  ghost predicate SiblingsInOrder(arcs: seq<Arc>, line: seq<Vertex>) {
    forall v, c, d, x, y :: BelowSiblings(arcs, v, c, d, x, y) ==> StandsBefore(line, x, y)
  }

  ghost predicate BelowSiblings(arcs: seq<Arc>, v: Vertex, c: Vertex, d: Vertex, x: Vertex, y: Vertex) {
    Arc(v, c) in arcs && Arc(v, d) in arcs && c < d && Below(arcs, c, x) && Below(arcs, d, y)
  }

  /** A head stands after its smaller children and all below them, and before its larger children and all below them. */
  ghost predicate HeadsInOrder(arcs: seq<Arc>, line: seq<Vertex>) {
    && (forall v, c, x :: BelowChild(arcs, v, c, x) && c < v ==> StandsBefore(line, x, v))
    && (forall v, c, x :: BelowChild(arcs, v, c, x) && v < c ==> StandsBefore(line, v, x))
  }

  ghost predicate BelowChild(arcs: seq<Arc>, v: Vertex, c: Vertex, x: Vertex) {
    Arc(v, c) in arcs && Below(arcs, c, x)
  }

  /** Every vertex once, in the order that its head and the siblings of its ancestors fix. */
  ghost predicate Listing(vs: set<Vertex>, arcs: seq<Arc>, line: seq<Vertex>) {
    && Distinct(line) && VertexSet(line) == vs
    && SiblingsInOrder(arcs, line) && HeadsInOrder(arcs, line)
  }

  lemma {:induction false} ReachedIsListed(t: Tree, c: Vertex, x: Vertex, n: nat)
    requires c in t.vs && ReachedIn(ArcSet(t.arcs), c, x, n)
    ensures x in t.vs && t.depth[c] <= t.depth[x] && Ancestor(t, x, t.depth[c]) == c
    decreases n
  {
    if n > 0 {
      var u :| Arc(u, x) in ArcSet(t.arcs) && ReachedIn(ArcSet(t.arcs), c, u, n - 1);
      ReachedIsListed(t, c, u, n - 1);
      assert Arc(u, x) in t.arcs;
    }
  }

  lemma {:induction false} ReachedFromParent(arcs: set<Arc>, v: Vertex, c: Vertex, x: Vertex, n: nat)
    requires Arc(v, c) in arcs && ReachedIn(arcs, c, x, n)
    ensures ReachedIn(arcs, v, x, n + 1)
    decreases n
  {
    if n == 0 {
      assert ReachedIn(arcs, v, v, 0);
    } else {
      var u :| Arc(u, x) in arcs && ReachedIn(arcs, c, u, n - 1);
      ReachedFromParent(arcs, v, c, u, n - 1);
    }
  }

  lemma {:induction false} ListedIsReached(t: Tree, c: Vertex, x: Vertex)
    requires c in t.vs && x in InOrder(t, c)
    ensures Below(t.arcs, c, x)
    decreases t.bound + 1 - t.depth[c]
  {
    if x == c {
      assert ReachedIn(ArcSet(t.arcs), c, x, 0);
    } else {
      var d := ListedUnderChild(t, c, x);
      ListedIsReached(t, d, x);
      var n: nat :| ReachedIn(ArcSet(t.arcs), d, x, n);
      ReachedFromParent(ArcSet(t.arcs), c, d, x, n);
    }
  }

  /** The listing of a subtree holds exactly the descendants. */
  lemma ListedIffBelow(t: Tree, c: Vertex, x: Vertex)
    requires c in t.vs
    ensures x in InOrder(t, c) <==> Below(t.arcs, c, x)
  {
    if x in InOrder(t, c) {
      ListedIsReached(t, c, x);
    }
    if Below(t.arcs, c, x) {
      var n: nat :| ReachedIn(ArcSet(t.arcs), c, x, n);
      ReachedIsListed(t, c, x, n);
      BelowIsListed(t, c, x);
    }
  }

  lemma BeforeAcross(a: seq<Vertex>, b: seq<Vertex>, x: Vertex, y: Vertex)
    requires x in a && y in b
    ensures StandsBefore(a + b, x, y)
  {
    var i :| 0 <= i < |a| && a[i] == x;
    var j :| 0 <= j < |b| && b[j] == y;
    assert (a + b)[i] == x && (a + b)[|a| + j] == y;
  }

  lemma BeforeWithin(p: seq<Vertex>, s: seq<Vertex>, q: seq<Vertex>, x: Vertex, y: Vertex)
    requires StandsBefore(s, x, y)
    ensures StandsBefore(p + s + q, x, y)
  {
    var i, j :| 0 <= i < j < |s| && s[i] == x && s[j] == y;
    assert (p + s + q)[|p| + i] == x && (p + s + q)[|p| + j] == y;
  }

  lemma {:induction false} BeforeAmong(t: Tree, cs: seq<Vertex>, c: Vertex, d: Vertex, x: Vertex, y: Vertex)
    requires Level(t, cs) && Ordered(cs, VertexLess) && c in cs && d in cs && c < d
    requires c in t.vs && d in t.vs && x in InOrder(t, c) && y in InOrder(t, d)
    ensures StandsBefore(InOrderAll(t, cs), x, y)
  {
    AllFromFirst(t, cs);
    var first, rest := InOrder(t, cs[0]), InOrderAll(t, cs[1..]);
    assert cs == [cs[0]] + cs[1..];
    assert d in cs[1..];
    if c == cs[0] {
      var p, q := BlockOfChild(t, cs[1..], d);
      BeforeAcross(first, rest, x, y);
    } else {
      BeforeAmong(t, cs[1..], c, d, x, y);
      BeforeWithin(first, rest, [], x, y);
      assert first + rest + [] == first + rest;
    }
  }

  lemma ChildrenAscend(t: Tree, v: Vertex)
    requires SourceChildren(t) && v in t.vs
    ensures Ordered(t.small[v], VertexLess) && Ordered(t.large[v], VertexLess)
  {
    ChildrenOfDistinct(t.arcs, v);
    SmallerLarger(ChildrenOf(t.arcs, v), v);
    assert t.small[v] == Smaller(ChildrenOf(t.arcs, v), v) && t.large[v] == Larger(ChildrenOf(t.arcs, v), v);
  }

  lemma SiblingsListed(t: Tree, v: Vertex, c: Vertex, d: Vertex, x: Vertex, y: Vertex)
    requires SourceChildren(t) && BelowSiblings(t.arcs, v, c, d, x, y)
    ensures StandsBefore(InOrder(t, t.root), x, y)
  {
    ListedIffBelow(t, c, x);
    ListedIffBelow(t, d, y);
    ChildrenAscend(t, v);
    var small, large := InOrderIs(t, v);
    if d < v {
      BeforeAmong(t, t.small[v], c, d, x, y);
      BeforeWithin([], small, [v] + large, x, y);
      Regroup(small, v, large);
    } else if v < c {
      BeforeAmong(t, t.large[v], c, d, x, y);
      BeforeWithin(small + [v], large, [], x, y);
      Regroup(small, v, large);
    } else {
      ChildOnSide(t, v, c, x);
      ChildOnSide(t, v, d, y);
      BeforeAcross(small + [v], large, x, y);
    }
    var p, q := SubtreeIsBlock(t, v);
    BeforeWithin(p, InOrder(t, v), q, x, y);
  }

  lemma Regroup(small: seq<Vertex>, v: Vertex, large: seq<Vertex>)
    ensures [] + small + ([v] + large) == small + [v] + large
    ensures small + [v] + large + [] == small + [v] + large
  {
  }

  /** What is listed under a child is listed on the child's side of the head. */
  lemma ChildOnSide(t: Tree, v: Vertex, c: Vertex, x: Vertex)
    requires Arc(v, c) in t.arcs && x in InOrder(t, c)
    ensures Level(t, t.small[v]) && Level(t, t.large[v]) && c != v
    ensures x in if c < v then InOrderAll(t, t.small[v]) else InOrderAll(t, t.large[v])
  {
    ChildrenLevel(t, v);
    if c < v {
      var p, q := BlockOfChild(t, t.small[v], c);
    } else {
      assert t.depth[c] == t.depth[v] + 1;
      var p, q := BlockOfChild(t, t.large[v], c);
    }
  }

  lemma HeadListed(t: Tree, v: Vertex, c: Vertex, x: Vertex)
    requires BelowChild(t.arcs, v, c, x)
    ensures c != v
    ensures if c < v then StandsBefore(InOrder(t, t.root), x, v) else StandsBefore(InOrder(t, t.root), v, x)
  {
    ListedIffBelow(t, c, x);
    ChildOnSide(t, v, c, x);
    var small, large := InOrderIs(t, v);
    var p, q := SubtreeIsBlock(t, v);
    if c < v {
      BeforeAcross(small, [v] + large, x, v);
      Regroup(small, v, large);
      assert small + ([v] + large) == small + [v] + large;
      BeforeWithin(p, InOrder(t, v), q, x, v);
    } else {
      BeforeAcross(small + [v], large, v, x);
      BeforeWithin(p, InOrder(t, v), q, v, x);
    }
  }

  lemma OrderMembers(t: Tree)
    ensures forall v :: v in InOrder(t, t.root) <==> v in t.vs
  {
    forall v
      ensures v in InOrder(t, t.root) <==> v in t.vs
    {
      OrderIsPermutation(t, v);
    }
  }

  lemma OrderDistinct(t: Tree)
    ensures Distinct(InOrder(t, t.root)) && VertexSet(InOrder(t, t.root)) == t.vs
  {
    OrderMembers(t);
    forall v
      ensures multiset(InOrder(t, t.root))[v] <= 1
    {
      ListedOnce(t, t.root, v);
    }
    OnceIsDistinct(InOrder(t, t.root));
  }

  /** The in-order listing has the order that the arcs fix. */
  lemma OrderIsListing(t: Tree)
    requires SourceChildren(t)
    ensures Listing(t.vs, t.arcs, InOrder(t, t.root))
  {
    OrderDistinct(t);
    forall v, c, d, x, y | BelowSiblings(t.arcs, v, c, d, x, y)
      ensures StandsBefore(InOrder(t, t.root), x, y)
    {
      SiblingsListed(t, v, c, d, x, y);
    }
    forall v, c, x | BelowChild(t.arcs, v, c, x)
      ensures if c < v then StandsBefore(InOrder(t, t.root), x, v) else StandsBefore(InOrder(t, t.root), v, x)
    {
      HeadListed(t, v, c, x);
    }
  }

  /** The arcs put `x` before `y`. */
  ghost predicate PutBefore(arcs: seq<Arc>, x: Vertex, y: Vertex) {
    || (exists v, c, d :: BelowSiblings(arcs, v, c, d, x, y))
    || (exists c: Vertex :: BelowChild(arcs, y, c, x) && c < y)
    || (exists c: Vertex :: BelowChild(arcs, x, c, y) && x < c)
  }

  /** The arcs order any two vertices below `v`. */
  lemma {:induction false} PutOneWay(t: Tree, v: Vertex, x: Vertex, y: Vertex)
    requires v in t.vs && x in InOrder(t, v) && y in InOrder(t, v) && x != y
    ensures PutBefore(t.arcs, x, y) || PutBefore(t.arcs, y, x)
    decreases t.bound + 1 - t.depth[v]
  {
    if x == v {
      ChildSide(t, v, y);
    } else if y == v {
      ChildSide(t, v, x);
    } else {
      var c := ListedUnderChild(t, v, x);
      var d := ListedUnderChild(t, v, y);
      if c == d {
        PutOneWay(t, c, x, y);
      } else {
        ListedIffBelow(t, c, x);
        ListedIffBelow(t, d, y);
        assert BelowSiblings(t.arcs, v, c, d, x, y) || BelowSiblings(t.arcs, v, d, c, y, x);
      }
    }
  }

  lemma ChildSide(t: Tree, v: Vertex, x: Vertex)
    requires v in t.vs && x in InOrder(t, v) && x != v
    ensures PutBefore(t.arcs, x, v) || PutBefore(t.arcs, v, x)
  {
    var c := ListedUnderChild(t, v, x);
    ListedIffBelow(t, c, x);
    assert BelowChild(t.arcs, v, c, x);
    assert t.depth[c] == t.depth[v] + 1;
  }

  lemma PutIsBefore(vs: set<Vertex>, arcs: seq<Arc>, line: seq<Vertex>, x: Vertex, y: Vertex)
    requires Listing(vs, arcs, line) && PutBefore(arcs, x, y)
    ensures StandsBefore(line, x, y)
  {
  }

  lemma BeforeOneWay(line: seq<Vertex>, x: Vertex, y: Vertex)
    requires Distinct(line) && StandsBefore(line, x, y)
    ensures !StandsBefore(line, y, x) && x != y
  {
  }

  /** Any two items of a listing stand as the arcs put them. */
  lemma ListingPuts(t: Tree, line: seq<Vertex>, i: nat, j: nat)
    requires Listing(t.vs, t.arcs, line) && i < j < |line|
    ensures PutBefore(t.arcs, line[i], line[j])
  {
    var x, y := line[i], line[j];
    assert x in VertexSet(line) && y in VertexSet(line);
    OrderIsPermutation(t, x);
    OrderIsPermutation(t, y);
    PutOneWay(t, t.root, x, y);
    assert StandsBefore(line, x, y);
    if PutBefore(t.arcs, y, x) {
      PutIsBefore(t.vs, t.arcs, line, y, x);
      BeforeOneWay(line, x, y);
    }
  }

  ghost function Standing(line: seq<Vertex>): (Vertex, Vertex) -> bool {
    (x: Vertex, y: Vertex) => StandsBefore(line, x, y)
  }

  lemma SelfOrdered(line: seq<Vertex>)
    requires Distinct(line)
    ensures Ordered(line, Standing(line)) && Asymmetric(line, Standing(line))
  {
    forall x, y | StandsBefore(line, x, y)
      ensures !StandsBefore(line, y, x)
    {
      BeforeOneWay(line, x, y);
    }
  }

  lemma OrderedAlike(t: Tree, line: seq<Vertex>, other: seq<Vertex>)
    requires Listing(t.vs, t.arcs, line) && Listing(t.vs, t.arcs, other)
    ensures Ordered(line, Standing(other))
  {
    forall i, j | 0 <= i < j < |line|
      ensures StandsBefore(other, line[i], line[j])
    {
      ListingPuts(t, line, i, j);
      PutIsBefore(t.vs, t.arcs, other, line[i], line[j]);
    }
  }

  /** There is one listing with that order, the in-order one. */
  lemma ListingIff(t: Tree, line: seq<Vertex>)
    requires SourceChildren(t)
    ensures Listing(t.vs, t.arcs, line) <==> line == InOrder(t, t.root)
  {
    OrderIsListing(t);
    if Listing(t.vs, t.arcs, line) {
      var order := InOrder(t, t.root);
      OrderedAlike(t, line, order);
      SelfOrdered(order);
      SameMembers(line, order);
      SameOrder(order, line, Standing(order));
    }
  }

  lemma SameMembers(s: seq<Vertex>, u: seq<Vertex>)
    requires VertexSet(s) == VertexSet(u)
    ensures forall x :: x in s <==> x in u
  {
    assert forall x :: x in s <==> x in VertexSet(s);
    assert forall x :: x in u <==> x in VertexSet(u);
  }

  // ----- Projective trees.

  /** The vertices of every subtree are an interval among all vertices. */
  ghost predicate ProjectiveTree(vs: set<Vertex>, arcs: seq<Arc>) {
    forall v, x, y, z :: v in vs && y in vs && Below(arcs, v, x) && Below(arcs, v, z) && x <= y <= z ==>
      Below(arcs, v, y)
  }

  lemma ChildrenApart(t: Tree, v: Vertex, c: Vertex, d: Vertex, x: Vertex)
    requires Arc(v, c) in t.arcs && Arc(v, d) in t.arcs && c != d
    ensures !(Below(t.arcs, c, x) && Below(t.arcs, d, x)) && !Below(t.arcs, c, v)
  {
    ListedIffBelow(t, c, x);
    ListedIffBelow(t, d, x);
    ListedIffBelow(t, c, v);
    if x in InOrder(t, c) && x in InOrder(t, d) {
      ListedIsBelow(t, c, x);
      ListedIsBelow(t, d, x);
    }
    if v in InOrder(t, c) {
      ListedIsBelow(t, c, v);
    }
  }

  lemma BelowSelf(arcs: seq<Arc>, c: Vertex)
    ensures Below(arcs, c, c)
  {
    assert ReachedIn(ArcSet(arcs), c, c, 0);
  }

  /** In a projective tree the arcs put the smaller vertex first. */
  lemma ProjectivePuts(t: Tree, x: Vertex, y: Vertex)
    requires ProjectiveTree(t.vs, t.arcs) && PutBefore(t.arcs, x, y) && x in t.vs && y in t.vs
    ensures x < y
  {
    if v, c, d :| BelowSiblings(t.arcs, v, c, d, x, y) {
      BelowSelf(t.arcs, c);
      BelowSelf(t.arcs, d);
      ChildrenApart(t, v, c, d, c);
      ChildrenApart(t, v, c, d, x);
      ChildrenApart(t, v, c, d, y);
    } else if c: Vertex :| BelowChild(t.arcs, y, c, x) && c < y {
      BelowSelf(t.arcs, c);
      NotBelowChild(t, y, c);
    } else {
      var c: Vertex :| BelowChild(t.arcs, x, c, y) && x < c;
      BelowSelf(t.arcs, c);
      NotBelowChild(t, x, c);
    }
  }

  lemma NotBelowChild(t: Tree, v: Vertex, c: Vertex)
    requires Arc(v, c) in t.arcs
    ensures !Below(t.arcs, c, v)
  {
    ListedIffBelow(t, c, v);
    if v in InOrder(t, c) {
      ListedIsBelow(t, c, v);
    }
  }

  lemma AscendingBlock(p: seq<Vertex>, s: seq<Vertex>, q: seq<Vertex>, x: Vertex, y: Vertex, z: Vertex)
    requires Ordered(p + s + q, VertexLess) && x in s && z in s && y in p + s + q && x <= y <= z
    ensures y in s
  {
    var line := p + s + q;
    var i :| 0 <= i < |s| && s[i] == x;
    var k :| 0 <= k < |s| && s[k] == z;
    var j :| 0 <= j < |line| && line[j] == y;
    assert line[|p| + i] == x && line[|p| + k] == z;
    assert |p| <= j < |p| + |s|;
    assert line[j] == s[j - |p|];
  }

  /** A tree is projective exactly when the listing is the ascending one. */
  lemma ProjectiveIff(t: Tree)
    requires SourceChildren(t)
    ensures ProjectiveTree(t.vs, t.arcs) <==> Ordered(InOrder(t, t.root), VertexLess)
  {
    var order := InOrder(t, t.root);
    OrderIsListing(t);
    assert forall x :: x in order <==> x in VertexSet(order);
    if ProjectiveTree(t.vs, t.arcs) {
      forall i, j | 0 <= i < j < |order|
        ensures order[i] < order[j]
      {
        ListingPuts(t, order, i, j);
        ProjectivePuts(t, order[i], order[j]);
      }
    }
    if Ordered(order, VertexLess) {
      forall v, x, y, z | v in t.vs && y in t.vs && Below(t.arcs, v, x) && Below(t.arcs, v, z) && x <= y <= z
        ensures Below(t.arcs, v, y)
      {
        AscendingIsInterval(t, v, x, y, z);
      }
    }
  }

  lemma AscendingIsInterval(t: Tree, v: Vertex, x: Vertex, y: Vertex, z: Vertex)
    requires Ordered(InOrder(t, t.root), VertexLess) && v in t.vs && y in t.vs && x <= y <= z
    requires Below(t.arcs, v, x) && Below(t.arcs, v, z)
    ensures Below(t.arcs, v, y)
  {
    ListedIffBelow(t, v, x);
    ListedIffBelow(t, v, y);
    ListedIffBelow(t, v, z);
    OrderIsPermutation(t, y);
    var p, q := SubtreeIsBlock(t, v);
    AscendingBlock(p, InOrder(t, v), q, x, y, z);
  }

  // ----- The traversal, as the source runs it.

  lemma {:induction false} ReverseConcat(s: seq<Vertex>, u: seq<Vertex>)
    ensures Reverse(s + u) == Reverse(u) + Reverse(s)
  {
    if s == [] {
      assert s + u == u;
    } else {
      assert (s + u)[1..] == s[1..] + u;
      ReverseConcat(s[1..], u);
    }
  }

  lemma {:induction false} ReverseReverse(s: seq<Vertex>)
    ensures Reverse(Reverse(s)) == s
  {
    if s != [] {
      ReverseConcat(Reverse(s[1..]), [s[0]]);
      ReverseReverse(s[1..]);
      assert Reverse([s[0]]) == [s[0]];
    }
  }

  /** Visits the subtree at `vertex`; the callback pushes each vertex onto the captured list. */
  method VisitInOrder(arcs: seq<Arc>, vertex: Vertex, pushed: seq<Vertex>, ghost t: Tree) returns (pushed': seq<Vertex>)
    requires SourceChildren(t) && t.arcs == arcs && vertex in t.vs
    ensures pushed' == Reverse(InOrder(t, vertex)) + pushed
    decreases t.bound + 1 - t.depth[vertex], 0
  {
    var children := ChildrenOf(arcs, vertex);
    ghost var small, large := InOrderIs(t, vertex);
    ChildrenLevel(t, vertex);
    var before := VisitEach(arcs, Smaller(children, vertex), pushed, t);
    var after := VisitEach(arcs, Larger(children, vertex), [vertex] + before, t);
    PushedInOrder(small, vertex, large, pushed);
    return after;
  }

  lemma PushedAfter(first: seq<Vertex>, rest: seq<Vertex>, pushed: seq<Vertex>)
    ensures Reverse(rest) + (Reverse(first) + pushed) == Reverse(first + rest) + pushed
  {
    ReverseConcat(first, rest);
    Associate(Reverse(rest), Reverse(first), pushed);
  }

  lemma PushedInOrder(small: seq<Vertex>, v: Vertex, large: seq<Vertex>, pushed: seq<Vertex>)
    ensures Reverse(large) + ([v] + (Reverse(small) + pushed)) == Reverse(small + [v] + large) + pushed
  {
    assert Reverse([v]) == [v];
    PushedAfter(small, [v], pushed);
    PushedAfter(small + [v], large, pushed);
  }

  lemma AllFromFirst(t: Tree, cs: seq<Vertex>)
    requires Level(t, cs) && cs != []
    ensures cs[0] in cs && InOrderAll(t, cs) == InOrder(t, cs[0]) + InOrderAll(t, cs[1..])
  {
    assert cs[0] in cs;
  }

  method VisitEach(arcs: seq<Arc>, cs: seq<Vertex>, pushed: seq<Vertex>, ghost t: Tree) returns (pushed': seq<Vertex>)
    requires SourceChildren(t) && t.arcs == arcs && Level(t, cs)
    ensures pushed' == Reverse(InOrderAll(t, cs)) + pushed
    decreases Height(t, cs), 1 + |cs|
  {
    if cs == [] {
      return pushed;
    }
    assert cs[0] in cs;
    var first := VisitInOrder(arcs, cs[0], pushed, t);
    pushed' := VisitEach(arcs, cs[1..], first, t);
    PushedAfter(InOrder(t, cs[0]), InOrderAll(t, cs[1..]), pushed);
    AllFromFirst(t, cs);
  }

  /** The first parent that is nobody's child. */
  function FindRoot(arcs: seq<Arc>): Option<Vertex> {
    FirstNonChild(arcs, arcs)
  }

  function FirstNonChild(left: seq<Arc>, arcs: seq<Arc>): Option<Vertex> {
    if left == [] then None
    else if exists a :: a in arcs && a.child == left[0].parent then FirstNonChild(left[1..], arcs)
    else Some(left[0].parent)
  }

  /** `v` is the parent in the `k`-th arc and nobody's child; the parents before it are children. */
  ghost predicate NonChildAt(left: seq<Arc>, arcs: seq<Arc>, v: Vertex, k: nat) {
    && k < |left| && left[k].parent == v && !IsChild(arcs, v)
    && forall m :: 0 <= m < k ==> IsChild(arcs, left[m].parent)
  }

  lemma {:induction false} FirstNonChildIs(left: seq<Arc>, arcs: seq<Arc>, v: Vertex)
    ensures FirstNonChild(left, arcs) == Some(v) <==> exists k: nat :: NonChildAt(left, arcs, v, k)
  {
    if left != [] {
      FirstNonChildIs(left[1..], arcs, v);
      if IsChild(arcs, left[0].parent) {
        if k: nat :| NonChildAt(left[1..], arcs, v, k) {
          assert NonChildAt(left, arcs, v, k + 1);
        }
        if k: nat :| NonChildAt(left, arcs, v, k) {
          assert NonChildAt(left[1..], arcs, v, k - 1);
        }
      } else {
        assert NonChildAt(left, arcs, left[0].parent, 0);
      }
    }
  }

  /** On any arc list the search finds the first parent that is no child, if there is one. */
  lemma FindRootIff(arcs: seq<Arc>, v: Vertex)
    ensures FindRoot(arcs) == Some(v) <==> exists k: nat :: NonChildAt(arcs, arcs, v, k)
  {
    FirstNonChildIs(arcs, arcs, v);
  }

  lemma {:induction false} FirstNonChildIsRoot(left: seq<Arc>, vs: set<Vertex>, root: Vertex, arcs: seq<Arc>)
    requires SpanningArborescence(vs, root, arcs)
    requires forall a :: a in left ==> a in arcs
    ensures FirstNonChild(left, arcs) == if exists a :: a in left && a.parent == root then Some(root) else None
  {
    if left != [] {
      FirstNonChildIsRoot(left[1..], vs, root, arcs);
      assert left == [left[0]] + left[1..];
      assert left[0] in arcs;
      if left[0].parent != root {
        var n: nat :| ReachedIn(ArcSet(arcs), root, left[0].parent, n);
        WalkEndsInChild(arcs, root, left[0].parent, n);
      }
    }
  }

  lemma {:induction false} RootHasChild(vs: set<Vertex>, root: Vertex, arcs: seq<Arc>, v: Vertex, n: nat)
    requires v != root && ReachedIn(ArcSet(arcs), root, v, n)
    ensures exists a :: a in arcs && a.parent == root
    decreases n
  {
    var u :| Arc(u, v) in ArcSet(arcs) && ReachedIn(ArcSet(arcs), root, u, n - 1);
    if u == root {
      assert Arc(u, v) in arcs;
    } else {
      RootHasChild(vs, root, arcs, u, n - 1);
    }
  }

  /** For a tree with at least one arc the search finds its root. */
  lemma FindRootFinds(vs: set<Vertex>, root: Vertex, arcs: seq<Arc>)
    requires SpanningArborescence(vs, root, arcs) && arcs != []
    ensures FindRoot(arcs) == Some(root)
    ensures exists a :: a in arcs && a.parent == root
  {
    var v := arcs[0].child;
    assert arcs[0] in arcs;
    var n: nat :| ReachedIn(ArcSet(arcs), root, v, n);
    RootHasChild(vs, root, arcs, v, n);
    FirstNonChildIsRoot(arcs, vs, root, arcs);
  }

  method ListOrderedVertices(arcs: seq<Arc>, ghost vs: set<Vertex>, ghost root: Vertex)
    returns (order: seq<Vertex>, ghost t: Tree)
    requires SpanningArborescence(vs, root, arcs) && arcs != []
    ensures t.vs == vs && t.root == root && t.arcs == arcs && SourceChildren(t)
    ensures order == InOrder(t, root) && Listing(vs, arcs, order)
    ensures forall v :: multiset(order)[v] == if v in vs then 1 else 0
  {
    FindRootFinds(vs, root, arcs);
    t := TreeOf(vs, root, arcs);
    forall v
      ensures multiset(InOrder(t, root))[v] == if v in vs then 1 else 0
    {
      OrderIsPermutation(t, v);
    }
    var reversed := VisitInOrder(arcs, FindRoot(arcs).value, [], t);
    assert reversed == Reverse(InOrder(t, root));
    ReverseReverse(InOrder(t, root));
    OrderIsListing(t);
    return Reverse(reversed), t;
  }

  /** The projective order lists every vertex of the tree exactly once, and each subtree without gaps. */
  lemma OrderIsPermutation(t: Tree, v: Vertex)
    ensures v in InOrder(t, t.root) <==> v in t.vs
    ensures multiset(InOrder(t, t.root))[v] == if v in t.vs then 1 else 0
    ensures v in t.vs ==> exists p, q :: InOrder(t, t.root) == p + InOrder(t, v) + q
    ensures v in t.vs ==> forall x :: x in InOrder(t, v) <==>
      x in t.vs && t.depth[v] <= t.depth[x] && Ancestor(t, x, t.depth[v]) == v
  {
    if v in t.vs {
      RootIsAncestor(t, v);
      BelowIsListed(t, t.root, v);
      var p, q := SubtreeIsBlock(t, v);
      forall x
        ensures x in InOrder(t, v) <==> x in t.vs && t.depth[v] <= t.depth[x] && Ancestor(t, x, t.depth[v]) == v
      {
        if x in InOrder(t, v) { ListedIsBelow(t, v, x); }
        if x in t.vs && t.depth[v] <= t.depth[x] && Ancestor(t, x, t.depth[v]) == v { BelowIsListed(t, v, x); }
      }
    }
    if v in InOrder(t, t.root) {
      ListedIsBelow(t, t.root, v);
    }
    ListedOnce(t, t.root, v);
    assert v in InOrder(t, t.root) <==> v in multiset(InOrder(t, t.root));
  }

  lemma {:induction false} RootIsAncestor(t: Tree, x: Vertex)
    requires x in t.vs
    ensures Ancestor(t, x, 0) == t.root
    decreases t.depth[x]
  {
    if t.depth[x] > 0 {
      RootIsAncestor(t, t.parent[x]);
    }
    OnlyRootAtZero(t, x);
  }

  lemma OnlyRootAtZero(t: Tree, x: Vertex)
    requires x in t.vs
    ensures x == t.root || t.depth[x] > 0
  {
    if x in t.parent {
      assert Arc(t.parent[x], x) in t.arcs;
    }
  }
}
