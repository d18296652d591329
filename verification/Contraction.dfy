/** Sums of real costs over finite sets of vertices. */
module Sums {
  import opened Arborescences

  ghost function Total(cost: map<Vertex, real>, s: set<Vertex>): real
    requires s <= cost.Keys
  {
    if s == {} then 0.0
    else
      var x :| x in s;
      cost[x] + Total(cost, s - {x})
  }

  lemma {:induction false} TotalTake(cost: map<Vertex, real>, s: set<Vertex>, x: Vertex)
    requires s <= cost.Keys && x in s
    ensures Total(cost, s) == cost[x] + Total(cost, s - {x})
  {
    var y :| y in s && Total(cost, s) == cost[y] + Total(cost, s - {y});
    if y != x {
      TotalTake(cost, s - {y}, x);
      TotalTake(cost, s - {x}, y);
      assert s - {y} - {x} == s - {x} - {y};
    }
  }

  lemma {:induction false} TotalMonotone(c: map<Vertex, real>, d: map<Vertex, real>, s: set<Vertex>)
    requires s <= c.Keys && s <= d.Keys
    requires forall x :: x in s ==> c[x] <= d[x]
    ensures Total(c, s) <= Total(d, s)
  {
    if s != {} {
      var x :| x in s;
      TotalTake(c, s, x);
      TotalTake(d, s, x);
      TotalMonotone(c, d, s - {x});
    }
  }

  lemma TotalSame(c: map<Vertex, real>, d: map<Vertex, real>, s: set<Vertex>)
    requires s <= c.Keys && s <= d.Keys
    requires forall x :: x in s ==> c[x] == d[x]
    ensures Total(c, s) == Total(d, s)
  {
    TotalMonotone(c, d, s);
    TotalMonotone(d, c, s);
  }

  lemma {:induction false} TotalUnion(cost: map<Vertex, real>, s: set<Vertex>, t: set<Vertex>)
    requires s + t <= cost.Keys && s !! t
    ensures Total(cost, s + t) == Total(cost, s) + Total(cost, t)
  {
    if s == {} {
      assert s + t == t;
    } else {
      var x :| x in s;
      TotalTake(cost, s, x);
      TotalTake(cost, s + t, x);
      assert s + t - {x} == (s - {x}) + t;
      TotalUnion(cost, s - {x}, t);
    }
  }

  /** Replacing the summands over `c` by one summand that is no smaller. */
  lemma TotalMerge(before: map<Vertex, real>, after: map<Vertex, real>, outer: set<Vertex>, c: set<Vertex>, rep: Vertex)
    requires before.Keys == outer + c && after.Keys == outer + {rep}
    requires outer !! c && rep !in outer
    requires forall v :: v in outer ==> before[v] <= after[v]
    requires Total(before, c) <= after[rep]
    ensures Total(before, before.Keys) <= Total(after, after.Keys)
  {
    TotalUnion(before, outer, c);
    TotalTake(after, outer + {rep}, rep);
    assert outer + {rep} - {rep} == outer;
    TotalMonotone(before, after, outer);
  }

  /** Spreading one summand over `c` without changing its amount. */
  lemma TotalSpread(before: map<Vertex, real>, after: map<Vertex, real>, outer: set<Vertex>, c: set<Vertex>,
                    rep: Vertex)
    requires before.Keys == outer + c && after.Keys == outer + {rep}
    requires outer !! c && rep !in outer
    requires forall v :: v in outer ==> before[v] == after[v]
    requires Total(before, c) == after[rep]
    ensures Total(before, before.Keys) == Total(after, after.Keys)
  {
    TotalUnion(before, outer, c);
    TotalTake(after, outer + {rep}, rep);
    assert outer + {rep} - {rep} == outer;
    TotalSame(before, after, outer);
  }
}

/**
 The mathematics behind one level of the Chu-Liu-Edmonds recursion: what contracting a
 cycle of best incoming arcs does to the spanning arborescences rooted at vertex 0.
 A tree is held as its parent map, with a rank as evidence that it has no cycle.
 */
module Contraction {
  import opened Arborescences
  import opened Sums

  type Graph = map<Arc, real>

  ghost predicate UsesArcsOf(g: Graph, p: map<Vertex, Vertex>) {
    forall v {:trigger Arc(p[v], v)} :: v in p ==> Arc(p[v], v) in g
  }

  /** `p` gives every vertex but 0 a parent, and `rank` shows that it has no cycle. */
  ghost predicate Ranked(vs: set<Vertex>, p: map<Vertex, Vertex>, rank: map<Vertex, nat>) {
    && 0 in vs
    && p.Keys == vs - {0}
    && rank.Keys == vs
    && forall v {:trigger p[v]} :: v in p ==> p[v] in vs && rank[p[v]] < rank[v]
  }

  ghost predicate Tree(vs: set<Vertex>, g: Graph, p: map<Vertex, Vertex>, rank: map<Vertex, nat>) {
    Ranked(vs, p, rank) && UsesArcsOf(g, p)
  }

  ghost function Costs(g: Graph, p: map<Vertex, Vertex>): (cost: map<Vertex, real>)
    requires UsesArcsOf(g, p)
    ensures cost.Keys == p.Keys
  {
    map v | v in p :: g[Arc(p[v], v)]
  }

  ghost function Cost(g: Graph, p: map<Vertex, Vertex>): real
    requires UsesArcsOf(g, p)
  {
    Total(Costs(g, p), p.Keys)
  }

  ghost predicate Optimal(vs: set<Vertex>, g: Graph, p: map<Vertex, Vertex>) {
    && (exists rank :: Tree(vs, g, p, rank))
    && forall q, rank :: Tree(vs, g, q, rank) ==> Cost(g, q) <= Cost(g, p)
  }

  /** Following `front` from each element of `cyc` leads to the next one, and from the last to the first. */
  ghost predicate Cycle(front: map<Vertex, Vertex>, cyc: seq<Vertex>) {
    && |cyc| >= 2
    && (forall i, j :: 0 <= i < j < |cyc| ==> cyc[i] != cyc[j])
    && (forall i :: 0 <= i < |cyc| ==> cyc[i] in front)
    && (forall i :: 0 <= i < |cyc| - 1 ==> front[cyc[i]] == cyc[i + 1])
    && front[cyc[|cyc| - 1]] == cyc[0]
  }

  /** `front` stays inside `c`, along arcs of the graph. */
  ghost predicate HasCycleArcs(g: Graph, front: map<Vertex, Vertex>, c: set<Vertex>) {
    && (forall v :: v in c ==> v in front)
    && forall v {:trigger Arc(front[v], v)} :: v in c ==> front[v] in c && Arc(front[v], v) in g
  }

  /** Moreover, those arcs are the best ones into the vertices of `c`. */
  ghost predicate BestInside(g: Graph, front: map<Vertex, Vertex>, c: set<Vertex>) {
    && HasCycleArcs(g, front, c)
    && forall u, v :: v in c && Arc(u, v) in g ==> g[Arc(u, v)] <= g[Arc(front[v], v)]
  }

  ghost function BestCosts(g: Graph, front: map<Vertex, Vertex>, c: set<Vertex>): (cost: map<Vertex, real>)
    requires HasCycleArcs(g, front, c)
    ensures cost.Keys == c
  {
    map v | v in c :: g[Arc(front[v], v)]
  }

  ghost function CycleWeight(g: Graph, front: map<Vertex, Vertex>, c: set<Vertex>): real
    requires HasCycleArcs(g, front, c)
  {
    Total(BestCosts(g, front, c), c)
  }

  ghost function Merged(c: set<Vertex>, rep: Vertex, v: Vertex): Vertex {
    if v in c then rep else v
  }

  ghost function MergedArc(c: set<Vertex>, rep: Vertex, a: Arc): Arc {
    Arc(Merged(c, rep, a.parent), Merged(c, rep, a.child))
  }

  /** What a contracted arc must weigh to stand for `a`: entering the cycle also pays for the rest of it. */
  ghost function Value(g: Graph, front: map<Vertex, Vertex>, c: set<Vertex>, a: Arc): real
    requires HasCycleArcs(g, front, c) && a in g
  {
    if a.child in c then CycleWeight(g, front, c) + g[a] - g[Arc(front[a.child], a.child)] else g[a]
  }

  /** The contracted graph and, behind each of its arcs, the best real arc it stands for. */
  datatype Shrunk = Shrunk(rep: Vertex, graph: Graph, behind: map<Arc, Arc>)

  /** `s` is the graph `g` with the vertices of `c` merged into one of them. */
  ghost predicate IsContraction(g: Graph, front: map<Vertex, Vertex>, c: set<Vertex>, s: Shrunk) {
    && s.rep in c && 0 !in c
    && BestInside(g, front, c)
    && (forall a :: a in g && !(a.parent in c && a.child in c) ==>
          && MergedArc(c, s.rep, a) in s.graph
          && Value(g, front, c, a) <= s.graph[MergedArc(c, s.rep, a)])
    && (forall b :: b in s.graph ==>
          && b in s.behind && s.behind[b] in g
          && MergedArc(c, s.rep, s.behind[b]) == b
          && Value(g, front, c, s.behind[b]) == s.graph[b])
  }

  ghost function Rest(vs: set<Vertex>, c: set<Vertex>, rep: Vertex): set<Vertex> {
    vs - c + {rep}
  }

  lemma Rests(vs: set<Vertex>, c: set<Vertex>, rep: Vertex)
    requires rep in c && 0 !in c && c <= vs
    ensures vs - {0} - c + {rep} == Rest(vs, c, rep) - {0}
    ensures Rest(vs, c, rep) - {0} + c == vs - {0}
    ensures vs - {0} == (vs - c - {0}) + c
    ensures Rest(vs, c, rep) - {0} == (vs - c - {0}) + {rep}
  {
  }

  // ----- From a tree of the whole graph to one of the contracted graph.

  ghost function ShrinkMap(c: set<Vertex>, rep: Vertex, p: map<Vertex, Vertex>, entry: Vertex): (q: map<Vertex, Vertex>)
    requires entry in p
    ensures q.Keys == p.Keys - c + {rep}
  {
    map v | v in p.Keys - c + {rep} :: Merged(c, rep, if v == rep then p[entry] else p[v])
  }

  lemma FirstInside(c: set<Vertex>, rank: map<Vertex, nat>) returns (entry: Vertex)
    requires c != {} && c <= rank.Keys
    ensures entry in c && forall v :: v in c ==> rank[entry] <= rank[v]
  {
    entry :| entry in c;
    var left := c - {entry};
    while left != {}
      invariant left <= c && entry in c
      invariant forall v :: v in c - left ==> rank[entry] <= rank[v]
      decreases left
    {
      var v :| v in left;
      if rank[v] < rank[entry] { entry := v; }
      left := left - {v};
    }
  }

  /** The cycle vertex nearest to the root is entered from outside; contracting there leaves no cycle. */
  lemma ShrinkRanked(vs: set<Vertex>, c: set<Vertex>, rep: Vertex, p: map<Vertex, Vertex>, rank: map<Vertex, nat>,
                     entry: Vertex)
    returns (rank': map<Vertex, nat>)
    requires Ranked(vs, p, rank) && c <= vs - {0} && rep in c
    requires entry in c && forall v :: v in c ==> rank[entry] <= rank[v]
    ensures p[entry] !in c
    ensures Ranked(Rest(vs, c, rep), ShrinkMap(c, rep, p, entry), rank')
  {
    var rest := Rest(vs, c, rep);
    Rests(vs, c, rep);
    rank' := map v | v in rest :: if v == rep then rank[entry] else rank[v];
  }

  lemma ShrinkIsTree(vs: set<Vertex>, g: Graph, front: map<Vertex, Vertex>, c: set<Vertex>, s: Shrunk,
                     p: map<Vertex, Vertex>, entry: Vertex)
    requires IsContraction(g, front, c, s) && c <= vs
    requires p.Keys == vs - {0} && UsesArcsOf(g, p)
    requires entry in c && p[entry] !in c
    ensures UsesArcsOf(s.graph, ShrinkMap(c, s.rep, p, entry))
  {
    var q := ShrinkMap(c, s.rep, p, entry);
    Rests(vs, c, s.rep);
    forall v | v in q
      ensures Arc(q[v], v) in s.graph
    {
      var w := if v == s.rep then entry else v;
      ShrinkCostAt(g, front, c, s, p[w], w);
    }
  }

  /** Over the cycle, the tree's own arcs weigh at most the cycle with one best arc exchanged for the entry. */
  lemma CycleExchange(g: Graph, front: map<Vertex, Vertex>, c: set<Vertex>, p: map<Vertex, Vertex>, entry: Vertex)
    requires BestInside(g, front, c)
    requires UsesArcsOf(g, p) && c <= p.Keys && entry in c
    ensures Total(Costs(g, p), c) <= Value(g, front, c, Arc(p[entry], entry))
  {
    var best := BestCosts(g, front, c);
    TotalTake(Costs(g, p), c, entry);
    TotalTake(best, c, entry);
    TotalMonotone(Costs(g, p), best, c - {entry});
  }

  lemma ShrinkCostAt(g: Graph, front: map<Vertex, Vertex>, c: set<Vertex>, s: Shrunk, u: Vertex, v: Vertex)
    requires IsContraction(g, front, c, s)
    requires Arc(u, v) in g && !(u in c && v in c)
    ensures Arc(Merged(c, s.rep, u), Merged(c, s.rep, v)) in s.graph
    ensures Value(g, front, c, Arc(u, v)) <= s.graph[Arc(Merged(c, s.rep, u), Merged(c, s.rep, v))]
  {
    assert MergedArc(c, s.rep, Arc(u, v)) == Arc(Merged(c, s.rep, u), Merged(c, s.rep, v));
  }

  lemma ShrinkIsNoLighter(vs: set<Vertex>, g: Graph, front: map<Vertex, Vertex>, c: set<Vertex>, s: Shrunk,
                          p: map<Vertex, Vertex>, entry: Vertex)
    requires IsContraction(g, front, c, s) && c <= vs
    requires UsesArcsOf(g, p) && p.Keys == vs - {0}
    requires entry in c && p[entry] !in c
    requires UsesArcsOf(s.graph, ShrinkMap(c, s.rep, p, entry))
    ensures Cost(g, p) <= Cost(s.graph, ShrinkMap(c, s.rep, p, entry))
  {
    var q := ShrinkMap(c, s.rep, p, entry);
    Rests(vs, c, s.rep);
    var outer := vs - c - {0};
    forall v | v in outer
      ensures Costs(g, p)[v] <= Costs(s.graph, q)[v]
    {
      ShrinkCostAt(g, front, c, s, p[v], v);
    }
    ShrinkCostAt(g, front, c, s, p[entry], entry);
    CycleExchange(g, front, c, p, entry);
    TotalMerge(Costs(g, p), Costs(s.graph, q), outer, c, s.rep);
  }

  // ----- From a tree of the contracted graph back to one of the whole graph.

  ghost predicate Expandable(c: set<Vertex>, front: map<Vertex, Vertex>, s: Shrunk, q: map<Vertex, Vertex>) {
    && c <= front.Keys
    && s.rep in c && s.rep in q
    && forall v :: v in q ==> Arc(q[v], v) in s.behind
  }

  ghost function ExpandMap(c: set<Vertex>, front: map<Vertex, Vertex>, s: Shrunk,
                           q: map<Vertex, Vertex>): (p: map<Vertex, Vertex>)
    requires Expandable(c, front, s, q)
    ensures p.Keys == q.Keys + c
  {
    var entry := s.behind[Arc(q[s.rep], s.rep)];
    map v | v in q.Keys + c ::
      if v !in c then s.behind[Arc(q[v], v)].parent
      else if v == entry.child then entry.parent
      else front[v]
  }

  /** How many `front` steps lead from the cycle vertex at index `i` to the one at index `m`. */
  ghost function StepsTo(i: nat, m: nat, k: nat): nat
    requires i < k && m < k
  {
    if i <= m then m - i else m - i + k
  }

  ghost function IndexIn(cyc: seq<Vertex>, v: Vertex): (i: nat)
    requires v in cyc
    ensures i < |cyc| && cyc[i] == v
  {
    var i :| 0 <= i < |cyc| && cyc[i] == v;
    i
  }

  lemma FrontStep(front: map<Vertex, Vertex>, cyc: seq<Vertex>, v: Vertex, m: nat)
    requires Cycle(front, cyc) && v in cyc && m < |cyc| && v != cyc[m]
    ensures front[v] in cyc
    ensures StepsTo(IndexIn(cyc, front[v]), m, |cyc|) < StepsTo(IndexIn(cyc, v), m, |cyc|)
  {
    var i := IndexIn(cyc, v);
    var next := if i == |cyc| - 1 then 0 else i + 1;
    assert front[v] == cyc[next];
    assert IndexIn(cyc, front[v]) == next;
  }

  /** Ranks of the contracted tree spread out, so that a whole cycle fits below the representing vertex's next rank. */
  ghost function ExpandRank(vs: set<Vertex>, cyc: seq<Vertex>, rep: Vertex, m: nat,
                            rank: map<Vertex, nat>): map<Vertex, nat>
    requires m < |cyc|
    requires rank.Keys == Rest(vs, (set v | v in cyc), rep)
  {
    map v | v in vs ::
      if v in cyc then rank[rep] * |cyc| + StepsTo(IndexIn(cyc, v), m, |cyc|) else rank[v] * |cyc|
  }

  lemma ScaleGap(a: nat, b: nat, k: nat)
    requires a < b
    ensures a * k + k <= b * k
  {
    assert (a + 1) * k <= b * k;
  }

  lemma ExpandDefined(vs: set<Vertex>, g: Graph, front: map<Vertex, Vertex>, c: set<Vertex>, s: Shrunk,
                      q: map<Vertex, Vertex>)
    requires IsContraction(g, front, c, s) && c <= vs
    requires q.Keys == Rest(vs, c, s.rep) - {0} && UsesArcsOf(s.graph, q)
    ensures Expandable(c, front, s, q)
  {
    forall v | v in q
      ensures Arc(q[v], v) in s.behind
    {
      assert Arc(q[v], v) in s.graph;
    }
  }

  /** Each expanded arc is either a cycle arc other than the one at the entry, or stands behind a contracted arc. */
  lemma ExpandAt(vs: set<Vertex>, g: Graph, front: map<Vertex, Vertex>, c: set<Vertex>, s: Shrunk,
                 q: map<Vertex, Vertex>, v: Vertex)
    requires IsContraction(g, front, c, s) && c <= vs
    requires q.Keys == Rest(vs, c, s.rep) - {0} && UsesArcsOf(s.graph, q)
    requires Expandable(c, front, s, q)
    requires v in vs - {0}
    ensures v in ExpandMap(c, front, s, q)
    ensures var p := ExpandMap(c, front, s, q)[v];
            var w := Merged(c, s.rep, v);
            var entry := s.behind[Arc(q[s.rep], s.rep)];
            && entry.child in c
            && Arc(p, v) in g
            && if v in c && v != entry.child then p == front[v] && p in c
               else Merged(c, s.rep, p) == q[w] && Value(g, front, c, Arc(p, v)) == s.graph[Arc(q[w], w)]
  {
    var w := Merged(c, s.rep, v);
    assert Arc(q[w], w) in s.graph && Arc(q[s.rep], s.rep) in s.graph;
    assert v in c ==> Arc(front[v], v) in g;
  }

  /** Breaking the cycle where the contracted tree enters it leaves no cycle. */
  lemma ExpandRanked(vs: set<Vertex>, front: map<Vertex, Vertex>, cyc: seq<Vertex>, c: set<Vertex>, rep: Vertex,
                     q: map<Vertex, Vertex>, rank: map<Vertex, nat>, entry: Vertex, p: map<Vertex, Vertex>)
    returns (rank': map<Vertex, nat>)
    requires Cycle(front, cyc) && c == (set v | v in cyc) && c <= vs - {0} && rep in c && entry in c
    requires Ranked(Rest(vs, c, rep), q, rank)
    requires p.Keys == vs - {0}
    requires forall v :: v in p ==> p[v] in vs
    requires forall v :: v in p ==>
      if v in c && v != entry then p[v] == front[v] else Merged(c, rep, p[v]) == q[Merged(c, rep, v)]
    ensures Ranked(vs, p, rank')
  {
    rank' := ExpandRank(vs, cyc, rep, IndexIn(cyc, entry), rank);
    forall v | v in p
      ensures rank'[p[v]] < rank'[v]
    {
      if v in c && v != entry {
        FrontStep(front, cyc, v, IndexIn(cyc, entry));
      } else {
        var w := Merged(c, rep, v);
        ScaleGap(rank[q[w]], rank[w], |cyc|);
      }
    }
  }

  lemma ExpandIsTree(vs: set<Vertex>, g: Graph, front: map<Vertex, Vertex>, cyc: seq<Vertex>, c: set<Vertex>, s: Shrunk,
                     q: map<Vertex, Vertex>, rank: map<Vertex, nat>)
    returns (rank': map<Vertex, nat>)
    requires Cycle(front, cyc) && c == set v | v in cyc
    requires IsContraction(g, front, c, s) && c <= vs
    requires Tree(Rest(vs, c, s.rep), s.graph, q, rank)
    ensures Expandable(c, front, s, q)
    ensures Tree(vs, g, ExpandMap(c, front, s, q), rank')
  {
    ExpandDefined(vs, g, front, c, s, q);
    Rests(vs, c, s.rep);
    var p := ExpandMap(c, front, s, q);
    var entry := s.behind[Arc(q[s.rep], s.rep)].child;
    forall v | v in vs - {0}
      ensures Arc(p[v], v) in g && p[v] in vs && entry in c
      ensures if v in c && v != entry then p[v] == front[v] else Merged(c, s.rep, p[v]) == q[Merged(c, s.rep, v)]
    {
      ExpandAt(vs, g, front, c, s, q, v);
    }
    rank' := ExpandRanked(vs, front, cyc, c, s.rep, q, rank, entry, p);
  }

  lemma CycleBroken(g: Graph, front: map<Vertex, Vertex>, c: set<Vertex>, p: map<Vertex, Vertex>, entry: Vertex)
    requires BestInside(g, front, c)
    requires UsesArcsOf(g, p) && c <= p.Keys && entry in c
    requires forall v :: v in c && v != entry ==> p[v] == front[v]
    ensures Total(Costs(g, p), c) == Value(g, front, c, Arc(p[entry], entry))
  {
    var whole, best := Costs(g, p), BestCosts(g, front, c);
    TotalTake(whole, c, entry);
    TotalTake(best, c, entry);
    TotalSame(whole, best, c - {entry});
  }

  /** Expansion keeps the weight exactly: the cycle weight is counted once, less the arc broken. */
  lemma ExpandKeepsCost(vs: set<Vertex>, g: Graph, front: map<Vertex, Vertex>, c: set<Vertex>, s: Shrunk,
                        q: map<Vertex, Vertex>)
    requires IsContraction(g, front, c, s) && c <= vs
    requires q.Keys == Rest(vs, c, s.rep) - {0} && UsesArcsOf(s.graph, q)
    requires Expandable(c, front, s, q)
    requires UsesArcsOf(g, ExpandMap(c, front, s, q))
    ensures Cost(g, ExpandMap(c, front, s, q)) == Cost(s.graph, q)
  {
    Rests(vs, c, s.rep);
    var p := ExpandMap(c, front, s, q);
    var entry := s.behind[Arc(q[s.rep], s.rep)].child;
    var outer := vs - c - {0};
    var whole, small, best := Costs(g, p), Costs(s.graph, q), BestCosts(g, front, c);
    forall v | v in outer
      ensures whole[v] == small[v]
    {
      ExpandAt(vs, g, front, c, s, q, v);
    }
    ExpandAt(vs, g, front, c, s, q, entry);
    CycleBroken(g, front, c, p, entry);
    TotalSpread(whole, small, outer, c, s.rep);
  }

  /** Every tree of the whole graph has a contracted one that is no lighter. */
  lemma ShrinkTree(vs: set<Vertex>, g: Graph, front: map<Vertex, Vertex>, c: set<Vertex>, s: Shrunk,
                   p: map<Vertex, Vertex>, rank: map<Vertex, nat>)
    returns (q: map<Vertex, Vertex>, rank': map<Vertex, nat>)
    requires IsContraction(g, front, c, s) && c <= vs
    requires Tree(vs, g, p, rank)
    ensures Tree(Rest(vs, c, s.rep), s.graph, q, rank')
    ensures Cost(g, p) <= Cost(s.graph, q)
  {
    var entry := FirstInside(c, rank);
    q := ShrinkMap(c, s.rep, p, entry);
    rank' := ShrinkRanked(vs, c, s.rep, p, rank, entry);
    ShrinkIsTree(vs, g, front, c, s, p, entry);
    ShrinkIsNoLighter(vs, g, front, c, s, p, entry);
  }

  /** The best arborescence of the contracted graph expands to a best one of the whole graph, of equal weight. */
  lemma ExpandIsOptimal(vs: set<Vertex>, g: Graph, front: map<Vertex, Vertex>, cyc: seq<Vertex>, c: set<Vertex>,
                        s: Shrunk,
                        q: map<Vertex, Vertex>)
    requires Cycle(front, cyc) && c == set v | v in cyc
    requires IsContraction(g, front, c, s) && c <= vs
    requires Optimal(Rest(vs, c, s.rep), s.graph, q)
    ensures Expandable(c, front, s, q)
    ensures Optimal(vs, g, ExpandMap(c, front, s, q))
    ensures Cost(g, ExpandMap(c, front, s, q)) == Cost(s.graph, q)
  {
    var rank :| Tree(Rest(vs, c, s.rep), s.graph, q, rank);
    var rank' := ExpandIsTree(vs, g, front, cyc, c, s, q, rank);
    ExpandKeepsCost(vs, g, front, c, s, q);
    var p := ExpandMap(c, front, s, q);
    forall t, r | Tree(vs, g, t, r)
      ensures Cost(g, t) <= Cost(g, p)
    {
      var t', r' := ShrinkTree(vs, g, front, c, s, t, r);
    }
  }

  /** When following `front` meets no cycle, the best incoming arcs themselves are a best tree. */
  lemma AcyclicGreedyIsOptimal(vs: set<Vertex>, g: Graph, front: map<Vertex, Vertex>, rank: map<Vertex, nat>)
    requires Tree(vs, g, front, rank)
    requires forall u, v :: v in front && Arc(u, v) in g ==> g[Arc(u, v)] <= g[Arc(front[v], v)]
    ensures Optimal(vs, g, front)
  {
    forall q, r | Tree(vs, g, q, r)
      ensures Cost(g, q) <= Cost(g, front)
    {
      TotalMonotone(Costs(g, q), Costs(g, front), q.Keys);
    }
  }

  // ----- Reachability.

  /** A walk of the whole graph, with the cycle's vertices merged, is a walk of the contracted graph. */
  lemma {:induction false} ContractionReaches(g: Graph, front: map<Vertex, Vertex>, c: set<Vertex>, s: Shrunk,
                                              v: Vertex, n: nat)
    requires IsContraction(g, front, c, s)
    requires ReachedIn(g.Keys, 0, v, n)
    ensures Reachable(s.graph.Keys, 0, Merged(c, s.rep, v))
    decreases n
  {
    var v' := Merged(c, s.rep, v);
    if n == 0 {
      assert ReachedIn(s.graph.Keys, 0, v', 0);
    } else {
      var u :| Arc(u, v) in g && ReachedIn(g.Keys, 0, u, n - 1);
      var u' := Merged(c, s.rep, u);
      ContractionReaches(g, front, c, s, u, n - 1);
      if !(u in c && v in c) {
        assert MergedArc(c, s.rep, Arc(u, v)) == Arc(u', v');
        var m: nat :| ReachedIn(s.graph.Keys, 0, u', m);
        assert ReachedIn(s.graph.Keys, 0, v', m + 1);
      }
    }
  }
}
