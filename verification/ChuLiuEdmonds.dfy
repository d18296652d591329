/** What a list of arcs means as a parent map, and what it weighs. */
module ArcLists {
  import opened Arborescences
  import opened Sums
  import opened Contraction

  ghost function Heads(arcs: seq<Arc>): map<Vertex, Vertex> {
    if arcs == [] then map[] else Heads(arcs[1..])[arcs[0].child := arcs[0].parent]
  }

  lemma {:induction false} HeadsFromArcs(arcs: seq<Arc>, v: Vertex)
    ensures v in Heads(arcs) <==> IsChild(arcs, v)
    ensures v in Heads(arcs) ==> Arc(Heads(arcs)[v], v) in arcs
  {
    if arcs != [] {
      HeadsFromArcs(arcs[1..], v);
      assert arcs == [arcs[0]] + arcs[1..];
      if v == arcs[0].child {
        assert arcs[0] in arcs;
      }
    }
  }

  ghost function Weight(scores: map<Arc, real>, arcs: seq<Arc>): real
    requires ArcSet(arcs) <= scores.Keys
  {
    if arcs == [] then 0.0
    else
      assert arcs[0] in ArcSet(arcs);
      assert ArcSet(arcs[1..]) <= ArcSet(arcs);
      scores[arcs[0]] + Weight(scores, arcs[1..])
  }

  lemma HeadsAt(arcs: seq<Arc>, a: Arc)
    requires DistinctChildren(arcs) && a in arcs
    ensures a.child in Heads(arcs) && Heads(arcs)[a.child] == a.parent
  {
    HeadsFromArcs(arcs, a.child);
    SameArc(arcs, a, Arc(Heads(arcs)[a.child], a.child));
  }

  lemma HeadsUseArcs(g: Graph, arcs: seq<Arc>)
    requires ArcSet(arcs) <= g.Keys
    ensures UsesArcsOf(g, Heads(arcs))
  {
    forall v | v in Heads(arcs)
      ensures Arc(Heads(arcs)[v], v) in g
    {
      HeadsFromArcs(arcs, v);
      assert Arc(Heads(arcs)[v], v) in ArcSet(arcs);
    }
  }

  lemma {:induction false} WeightIsCost(g: Graph, arcs: seq<Arc>)
    requires DistinctChildren(arcs) && ArcSet(arcs) <= g.Keys
    ensures UsesArcsOf(g, Heads(arcs))
    ensures Weight(g, arcs) == Cost(g, Heads(arcs))
  {
    HeadsUseArcs(g, arcs);
    if arcs != [] {
      var rest := arcs[1..];
      assert ArcSet(rest) <= ArcSet(arcs);
      WeightIsCost(g, rest);
      var p, q, v := Heads(arcs), Heads(rest), arcs[0].child;
      HeadsFromArcs(rest, v);
      assert q.Keys == p.Keys - {v};
      TotalTake(Costs(g, p), p.Keys, v);
      TotalSame(Costs(g, p), Costs(g, q), q.Keys);
    }
  }

  lemma WeightSame(s: map<Arc, real>, t: map<Arc, real>, arcs: seq<Arc>)
    requires ArcSet(arcs) <= s.Keys && ArcSet(arcs) <= t.Keys
    requires forall a :: a in arcs ==> s[a] == t[a]
    ensures Weight(s, arcs) == Weight(t, arcs)
  {
  }
}

/** The maximum spanning arborescence solver, with a predecessor array and a score table updated in place. */
module ChuLiuEdmonds {
  import opened Options
  import opened Arborescences
  import opened Sums
  import opened Contraction
  import opened ArcLists

  class ScoreTable {
    var entries: map<Arc, real>

    constructor ()
      ensures entries == map[]
    {
      entries := map[];
    }

    function GetScore(i: Vertex, j: Vertex): (score: Option<real>)
      reads this
      ensures score.Some? <==> Arc(i, j) in entries
      ensures score.Some? ==> score.value == entries[Arc(i, j)]
    {
      if Arc(i, j) in entries then Some(entries[Arc(i, j)]) else None
    }

    method SetScore(i: Vertex, j: Vertex, score: real)
      modifies this
      ensures entries == old(entries)[Arc(i, j) := score]
      ensures forall a: Vertex, b: Vertex ::
        GetScore(a, b) == if a == i && b == j then Some(score) else old(GetScore(a, b))
    {
      entries := entries[Arc(i, j) := score];
    }
  }

  /** The arcs that count: between different vertices of `vs`, and not into the root 0. */
  ghost function GraphOf(vs: set<Vertex>, entries: map<Arc, real>): Graph {
    map a | a in entries && a.parent in vs && a.child in vs && a.parent != a.child && a.child != 0 :: entries[a]
  }

  ghost predicate NonNegative(g: Graph) {
    forall a :: a in g ==> g[a] >= 0.0
  }

  ghost predicate AllReachable(vs: set<Vertex>, g: Graph) {
    forall v :: v in vs ==> Reachable(g.Keys, 0, v)
  }

  /** A list of vertices the solver accepts: no repetition, within the array bound, and with the root. */
  ghost predicate Vertices(numVertices: nat, current: seq<Vertex>) {
    && Distinct(current)
    && 0 in current
    && forall v :: v in current ==> 0 <= v < numVertices
  }

  // ----- The greedy choice.

  ghost predicate BestInto(g: Graph, u: Vertex, v: Vertex) {
    if u == -1 then forall a :: a in g ==> a.child != v
    else Arc(u, v) in g && forall a :: a in g && a.child == v ==> g[a] <= g[Arc(u, v)]
  }

  ghost predicate Greedy(front: seq<Vertex>, g: Graph, vs: set<Vertex>) {
    forall v :: v in vs ==> 0 <= v < |front| && BestInto(g, front[v], v)
  }

  /** The predecessor array as a parent map; -1 means no predecessor. */
  ghost function FrontMap(front: seq<Vertex>, vs: set<Vertex>): map<Vertex, Vertex> {
    map v | v in vs && 0 <= v < |front| && front[v] != -1 :: front[v]
  }

  /** The arcs into the same vertex from the first `n` vertices have lower scores than `a`. */
  ghost predicate LighterBefore(g: Graph, current: seq<Vertex>, n: nat, a: Arc)
    requires n <= |current| && a in g
  {
    forall m {:trigger current[m]} :: 0 <= m < n && Arc(current[m], a.child) in g ==> g[Arc(current[m], a.child)] < g[a]
  }

  /** Of equally good parents the one that comes first is taken. */
  ghost predicate FirstInto(g: Graph, current: seq<Vertex>, best: Vertex, i: Vertex) {
    && Arc(best, i) in g
    && exists n {:trigger current[n]} ::
      0 <= n < |current| && current[n] == best && LighterBefore(g, current, n, Arc(best, i))
  }

  method PickBestInto(scores: ScoreTable, current: seq<Vertex>, i: Vertex) returns (best: Vertex)
    requires i in current && i != 0
    requires -1 !in current
    requires NonNegative(GraphOf(VertexSet(current), scores.entries))
    ensures BestInto(GraphOf(VertexSet(current), scores.entries), best, i)
    ensures best != -1 ==> FirstInto(GraphOf(VertexSet(current), scores.entries), current, best, i)
  {
    ghost var g := GraphOf(VertexSet(current), scores.entries);
    best := -1;
    var maxScore := -1.0;
    for n := 0 to |current|
      invariant best == -1 ==> maxScore == -1.0
      invariant best != -1 ==> Arc(best, i) in g && maxScore == g[Arc(best, i)]
      invariant forall a :: a in g && a.child == i && a.parent in current[..n] ==> g[a] <= maxScore
      invariant best != -1 ==> FirstInto(g, current, best, i)
    {
      var j := current[n];
      if j != i {
        var score := scores.GetScore(j, i);
        if score.Some? && maxScore < score.value {
          maxScore := score.value;
          best := j;
          assert LighterBefore(g, current, n, Arc(j, i));
        }
      }
    }
    assert current[..|current|] == current;
  }

  method PickBestIncoming(front: array<Vertex>, scores: ScoreTable, current: seq<Vertex>)
    requires Vertices(front.Length, current)
    requires forall v :: 0 <= v < front.Length ==> front[v] == -1
    requires NonNegative(GraphOf(VertexSet(current), scores.entries))
    modifies front
    ensures Greedy(front[..], GraphOf(VertexSet(current), scores.entries), VertexSet(current))
  {
    ghost var g := GraphOf(VertexSet(current), scores.entries);
    assert forall m :: 0 <= m < |current| ==> current[m] in current;
    for n := 0 to |current|
      invariant forall m :: 0 <= m < n ==> BestInto(g, front[current[m]], current[m])
      invariant forall m :: n <= m < |current| ==> front[current[m]] == -1
    {
      var i := current[n];
      if i != 0 {
        front[i] := PickBestInto(scores, current, i);
      }
    }
  }

  ghost predicate StaysIn(f: map<Vertex, Vertex>, vs: set<Vertex>) {
    forall v {:trigger f[v]} :: v in f ==> f[v] in vs && f[v] != v
  }

  lemma GreedyFront(front: seq<Vertex>, g: Graph, vs: set<Vertex>)
    requires Greedy(front, g, vs)
    requires forall a :: a in g ==> a.parent in vs && a.child in vs - {0} && a.parent != a.child
    requires -1 !in vs
    ensures var f := FrontMap(front, vs);
            && 0 !in f
            && StaysIn(f, vs)
            && UsesArcsOf(g, f)
            && (forall a :: a in g ==> a.child in f && g[a] <= g[Arc(f[a.child], a.child)])
  {
    var f := FrontMap(front, vs);
    forall v | v in f
      ensures f[v] in vs && f[v] != v && Arc(f[v], v) in g && v != 0
    {
      assert BestInto(g, front[v], v);
    }
    forall a | a in g
      ensures a.child in f && g[a] <= g[Arc(f[a.child], a.child)]
    {
      assert BestInto(g, front[a.child], a.child);
    }
  }

  // ----- The cycle search.

  /** The array, read on `vs`, is the parent map `f`. */
  ghost predicate FrontIs(front: seq<Vertex>, vs: set<Vertex>, f: map<Vertex, Vertex>) {
    && (forall v :: v in f ==> v in vs)
    && (forall v :: v in vs ==> 0 <= v < |front|)
    && forall v {:trigger front[v]} {:trigger f[v]} :: v in vs ==>
      (front[v] == -1 <==> v !in f) && (v in f ==> front[v] == f[v])
  }

  /** `rank` settles its keys: following `f` from any of them ends. */
  ghost predicate Settled(f: map<Vertex, Vertex>, rank: map<Vertex, nat>) {
    forall v {:trigger f[v]} :: v in rank && v in f ==> f[v] in rank && rank[f[v]] < rank[v]
  }

  /** The vertices pushed on a walk, the latest first: each is the `f` image of the one pushed before it. */
  ghost predicate WalkTo(f: map<Vertex, Vertex>, walk: seq<Vertex>, l: Vertex) {
    && Distinct(walk)
    && (forall v :: v in walk ==> v in f)
    && (walk != [] ==> f[walk[0]] == l)
    && forall i :: 0 <= i < |walk| - 1 ==> f[walk[i + 1]] == walk[i]
  }

  ghost function SettleWalk(rank: map<Vertex, nat>, walk: seq<Vertex>, base: nat): map<Vertex, nat> {
    map v | v in rank.Keys + VertexSet(walk) ::
      if v in rank then rank[v] else (base + 1 + IndexIn(walk, v)) as nat
  }

  lemma WalkSettles(f: map<Vertex, Vertex>, rank: map<Vertex, nat>, walk: seq<Vertex>, l: Vertex)
    requires Settled(f, rank) && WalkTo(f, walk, l) && l in rank
    requires forall v :: v in walk ==> v !in rank
    ensures Settled(f, SettleWalk(rank, walk, rank[l]))
    ensures SettleWalk(rank, walk, rank[l]).Keys == rank.Keys + VertexSet(walk)
  {
    var rank' := SettleWalk(rank, walk, rank[l]);
    forall v | v in walk
      ensures f[v] in rank' && rank'[f[v]] < rank'[v]
    {
      var i := IndexIn(walk, v);
      if i > 0 {
        assert f[v] == walk[i - 1];
        assert IndexIn(walk, walk[i - 1]) == i - 1;
      }
    }
  }

  lemma {:induction false} SettledHasNoCycle(f: map<Vertex, Vertex>, rank: map<Vertex, nat>, cyc: seq<Vertex>, i: nat)
    requires Settled(f, rank) && i < |cyc| && cyc[i] in rank
    ensures !Cycle(f, cyc)
    decreases rank[cyc[i]]
  {
    if Cycle(f, cyc) {
      SettledHasNoCycle(f, rank, cyc, if i == |cyc| - 1 then 0 else i + 1);
    }
  }

  ghost predicate HasCycle(f: map<Vertex, Vertex>) {
    exists cyc :: Cycle(f, cyc)
  }

  lemma AllSettledHasNoCycle(f: map<Vertex, Vertex>, rank: map<Vertex, nat>)
    requires Settled(f, rank) && f.Keys <= rank.Keys
    ensures !HasCycle(f)
  {
    forall cyc | Cycle(f, cyc)
      ensures false
    {
      assert cyc[0] in f;
      SettledHasNoCycle(f, rank, cyc, 0);
    }
  }

  /** A repeated vertex closes a cycle: the part of the walk from it on, read backwards. */
  ghost function ClosedPart(walk: seq<Vertex>, k: nat): seq<Vertex>
    requires k < |walk|
  {
    seq(k + 1, i requires 0 <= i <= k => walk[k - i])
  }

  lemma ClosedPartIsCycle(f: map<Vertex, Vertex>, walk: seq<Vertex>, k: nat)
    requires k < |walk| && WalkTo(f, walk, walk[k])
    requires f[walk[k]] != walk[k]
    ensures Cycle(f, ClosedPart(walk, k))
  {
    var cyc := ClosedPart(walk, k);
    assert cyc[k] == walk[0] && cyc[0] == walk[k];
    forall i | 0 <= i < |cyc| - 1
      ensures f[cyc[i]] == cyc[i + 1]
    {
      assert f[walk[(k - i - 1) + 1]] == walk[k - i - 1];
    }
  }

  /** What the cycle table holds: each vertex of the cycle, mapped to the one it precedes. */
  ghost predicate CycleTable(f: map<Vertex, Vertex>, cyc: seq<Vertex>, cycle: map<Vertex, Vertex>) {
    && cycle.Keys == VertexSet(cyc)
    && forall u {:trigger cycle[u]} :: u in cycle ==> cycle[u] in cyc && cycle[u] in f && f[cycle[u]] == u
  }

  ghost function At(cyc: seq<Vertex>, t: nat): Vertex
    requires t < 2 * |cyc|
  {
    if t < |cyc| then cyc[t] else cyc[t - |cyc|]
  }

  method TabulateCycle(front: array<Vertex>, l: Vertex, ghost f: map<Vertex, Vertex>, ghost cyc: seq<Vertex>)
    returns (cycle: map<Vertex, Vertex>)
    requires Cycle(f, cyc) && l == cyc[0]
    requires forall v :: v in f ==> 0 <= v < front.Length && front[v] == f[v]
    ensures CycleTable(f, cyc, cycle)
  {
    cycle := map[];
    var l1 := front[l];
    ghost var n, t := |cyc|, 1;
    assert l1 == At(cyc, 1);
    while true
      invariant 1 <= t <= n && l1 == At(cyc, t)
      invariant forall u :: u in cycle ==> u in cyc && cycle[u] in cyc && f[cycle[u]] == u
      invariant forall x :: 2 <= x <= t ==> At(cyc, x) in cycle
      decreases n - t
    {
      cycle := cycle[front[l1] := l1];
      assert front[l1] == At(cyc, t + 1);
      if l1 == l { break; }
      l1 := front[l1];
      t := t + 1;
    }
    assert t == n;
    forall i | 0 <= i < n
      ensures cyc[i] in cycle
    {
      assert At(cyc, if i < 2 then i + n else i) == cyc[i];
    }
    assert cycle.Keys == VertexSet(cyc);
  }

  /** Every vertex given a rank has been looked at, or has no predecessor. */
  ghost predicate RankedAreChecked(f: map<Vertex, Vertex>, rank: map<Vertex, nat>, checked: seq<Vertex>) {
    forall v {:trigger v in checked} :: v in rank ==> v in checked || v !in f
  }

  /**
   Walks back from `i` until it meets its own trail, a vertex checked before, or a vertex without predecessor.
   */
  method WalkBack(front: array<Vertex>, i: Vertex, checked: seq<Vertex>,
                  ghost f: map<Vertex, Vertex>, ghost vs: set<Vertex>, ghost rank: map<Vertex, nat>)
    returns (cycle: Option<map<Vertex, Vertex>>, checked': seq<Vertex>,
             ghost cyc: seq<Vertex>, ghost rank': map<Vertex, nat>)
    requires FrontIs(front[..], vs, f) && StaysIn(f, vs)
    requires i in vs && i !in checked
    requires Settled(f, rank) && RankedAreChecked(f, rank, checked)
    requires forall v :: v in checked ==> v in vs && v in rank
    ensures cycle.Some? ==> Cycle(f, cyc) && CycleTable(f, cyc, cycle.value)
    ensures cycle.None? ==> i in rank' && forall v :: v in rank ==> v in rank'
    ensures cycle.None? ==> Settled(f, rank') && RankedAreChecked(f, rank', checked')
    ensures cycle.None? ==> forall v :: v in checked' ==> v in vs && v in rank'
  {
    cycle, checked', cyc, rank' := None, checked, [], rank;
    var walk: seq<Vertex> := [];
    var l := i;
    while true
      invariant l in vs && cycle == None && rank' == rank
      invariant WalkTo(f, walk, l)
      invariant if walk == [] then l == i else walk[|walk| - 1] == i
      invariant forall v :: v in walk ==> v in checked' && v !in rank
      invariant forall v :: v in checked' ==> v in vs && (v in walk || v in checked)
      invariant forall v :: v in checked ==> v in checked'
      decreases vs - VertexSet(checked')
    {
      if l in walk {
        cyc := ClosedPart(walk, IndexIn(walk, l));
        ClosedPartIsCycle(f, walk, IndexIn(walk, l));
        var table := TabulateCycle(front, l, f, cyc);
        cycle := Some(table);
        return;
      } else if front[l] == -1 || l in checked' {
        rank' := if l in rank then rank else rank[l := 0];
        WalkSettles(f, rank', walk, l);
        rank' := SettleWalk(rank', walk, rank'[l]);
        return;
      } else {
        assert l in f && l in vs - VertexSet(checked');
        checked' := [l] + checked';
        assert l in VertexSet(checked');
        walk := [l] + walk;
        l := front[l];
      }
    }
  }

  /** The search so far: no cycle, and every vertex checked leads to a dead end. */
  ghost predicate NoCycleYet(f: map<Vertex, Vertex>, vs: set<Vertex>, checked: seq<Vertex>, rank: map<Vertex, nat>) {
    && Settled(f, rank)
    && RankedAreChecked(f, rank, checked)
    && forall v :: v in checked ==> v in vs && v in rank
  }

  /** Looks at one more vertex, unless it has been met on an earlier walk. */
  method Visit(front: array<Vertex>, i: Vertex, checked: seq<Vertex>,
               ghost f: map<Vertex, Vertex>, ghost vs: set<Vertex>, ghost rank: map<Vertex, nat>)
    returns (cycle: Option<map<Vertex, Vertex>>, checked': seq<Vertex>,
             ghost cyc: seq<Vertex>, ghost rank': map<Vertex, nat>)
    requires FrontIs(front[..], vs, f) && StaysIn(f, vs)
    requires i in vs && NoCycleYet(f, vs, checked, rank)
    ensures cycle.Some? ==> Cycle(f, cyc) && CycleTable(f, cyc, cycle.value)
    ensures cycle.None? ==> NoCycleYet(f, vs, checked', rank')
    ensures cycle.None? ==> i in rank' && forall v :: v in rank ==> v in rank'
  {
    if i in checked {
      cycle, checked', cyc, rank' := None, checked, [], rank;
    } else {
      cycle, checked', cyc, rank' := WalkBack(front, i, checked, f, vs, rank);
    }
  }

  method SearchFrom(front: array<Vertex>, current: seq<Vertex>, ghost f: map<Vertex, Vertex>, ghost vs: set<Vertex>)
    returns (cycle: Option<map<Vertex, Vertex>>, ghost cyc: seq<Vertex>, ghost rank: map<Vertex, nat>)
    requires forall m :: 0 <= m < |current| ==> current[m] in vs
    requires FrontIs(front[..], vs, f) && StaysIn(f, vs)
    ensures cycle.Some? ==> Cycle(f, cyc) && CycleTable(f, cyc, cycle.value)
    ensures cycle.None? ==> Settled(f, rank) && forall m :: 0 <= m < |current| ==> current[m] in rank
  {
    cycle, cyc, rank := None, [], map[];
    var checked: seq<Vertex> := [];
    var n := 0;
    while n < |current| && cycle.None?
      invariant 0 <= n <= |current|
      invariant cycle.Some? ==> Cycle(f, cyc) && CycleTable(f, cyc, cycle.value)
      invariant cycle.None? ==> NoCycleYet(f, vs, checked, rank)
      invariant cycle.None? ==> forall m :: 0 <= m < n ==> current[m] in rank
    {
      cycle, checked, cyc, rank := Visit(front, current[n], checked, f, vs, rank);
      n := n + 1;
    }
  }

  /** A cycle is found exactly when following the array has one; otherwise every vertex is settled. */
  method FindCycle(front: array<Vertex>, current: seq<Vertex>, ghost f: map<Vertex, Vertex>)
    returns (cycle: Option<map<Vertex, Vertex>>, ghost cyc: seq<Vertex>, ghost rank: map<Vertex, nat>)
    requires FrontIs(front[..], VertexSet(current), f) && StaysIn(f, VertexSet(current))
    ensures cycle.Some? <==> HasCycle(f)
    ensures cycle.Some? ==> Cycle(f, cyc) && CycleTable(f, cyc, cycle.value)
    ensures cycle.None? ==> Settled(f, rank) && VertexSet(current) <= rank.Keys
  {
    cycle, cyc, rank := SearchFrom(front, current, f, VertexSet(current));
    if cycle.None? {
      AllSettledHasNoCycle(f, rank);
    } else {
      assert Cycle(f, cyc);
    }
  }

  // ----- Contraction in place.

  ghost predicate SameAt(e0: map<Arc, real>, e1: map<Arc, real>, a: Arc) {
    (a in e1 <==> a in e0) && (a in e0 ==> e1[a] == e0[a])
  }

  /** The table differs from `e0` at most on the arcs between `rep` and the vertices of `done`. */
  ghost predicate SameExcept(e0: map<Arc, real>, e1: map<Arc, real>, rep: Vertex, done: set<Vertex>) {
    forall a: Arc ::
      !(a.parent == rep && a.child in done) && !(a.child == rep && a.parent in done) ==> SameAt(e0, e1, a)
  }

  /** The best score of an arc to `i` from a vertex of `c`, namely from `v`; at the sentinel there is none. */
  ghost predicate BestDeparture(g: Graph, c: set<Vertex>, i: Vertex, score: real, v: Vertex) {
    && score >= -1.0
    && (forall j :: j in c && Arc(j, i) in g ==> g[Arc(j, i)] <= score)
    && (score > -1.0 ==> v in c && Arc(v, i) in g && score == g[Arc(v, i)])
  }

  /** The same for the arcs from `i` into the part `s` of the cycle `c`, weighed as entries into the cycle. */
  ghost predicate BestArrival(g: Graph, f: map<Vertex, Vertex>, c: set<Vertex>, s: set<Vertex>, i: Vertex,
                              score: real, v: Vertex)
    requires HasCycleArcs(g, f, c) && s <= c
  {
    && score >= -1.0
    && (forall j :: j in s && Arc(i, j) in g ==> Value(g, f, c, Arc(i, j)) <= score)
    && (score > -1.0 ==> v in s && Arc(i, v) in g && score == Value(g, f, c, Arc(i, v)))
  }

  /** The entries consulted for the cycle vertex `j`, whose predecessor is `u`, and the outside vertex `i`. */
  ghost predicate ReadsAs(e1: map<Arc, real>, g: Graph, u: Vertex, j: Vertex, i: Vertex) {
    && SameAt(g, e1, Arc(u, j))
    && SameAt(g, e1, Arc(i, j))
    && (i != 0 ==> SameAt(g, e1, Arc(j, i)))
  }

  lemma PrefixGrows(s: seq<Vertex>, n: nat)
    requires Distinct(s) && n < |s|
    ensures VertexSet(s[..n + 1]) == VertexSet(s[..n]) + {s[n]}
    ensures VertexSet(s[..n + 1]) - {s[n]} == VertexSet(s[..n])
    ensures VertexSet(s[..n + 1]) <= VertexSet(s)
  {
    assert s[..n + 1] == s[..n] + [s[n]];
  }

  method ConsiderDeparture(scores: ScoreTable, i: Vertex, j: Vertex, max: real, best: Vertex, ghost g: Graph,
                           ghost s: set<Vertex>)
    returns (max': real, best': Vertex)
    requires max >= -1.0
    requires i != 0 ==> BestDeparture(g, s, i, max, best) && SameAt(g, scores.entries, Arc(j, i))
    ensures max' >= -1.0
    ensures i != 0 ==> BestDeparture(g, s + {j}, i, max', best')
  {
    max', best' := max, best;
    var departureScore := scores.GetScore(j, i);
    if departureScore.Some? && max < departureScore.value {
      max', best' := departureScore.value, j;
    }
  }

  method ConsiderArrival(scores: ScoreTable, i: Vertex, j: Vertex, u: Vertex, cycleWeight: real, max: real,
                         best: Vertex,
                         ghost g: Graph, ghost f: map<Vertex, Vertex>, ghost c: set<Vertex>, ghost s: set<Vertex>)
    returns (max': real, best': Vertex)
    requires HasCycleArcs(g, f, c) && s <= c && j in c && u == f[j]
    requires cycleWeight == CycleWeight(g, f, c)
    requires BestArrival(g, f, c, s, i, max, best)
    requires SameAt(g, scores.entries, Arc(i, j)) && SameAt(g, scores.entries, Arc(u, j))
    ensures BestArrival(g, f, c, s + {j}, i, max', best')
  {
    max', best' := max, best;
    assert Arc(f[j], j) in g;
    var inScore := scores.GetScore(i, j);
    if inScore.Some? {
      var arrivalScore := cycleWeight + inScore.value - scores.GetScore(u, j).value;
      assert arrivalScore == Value(g, f, c, Arc(i, j));
      if max < arrivalScore {
        max', best' := arrivalScore, j;
      }
    }
  }

  ghost predicate CycleReadsAs(e1: map<Arc, real>, g: Graph, f: map<Vertex, Vertex>, cycleVertices: seq<Vertex>,
                               i: Vertex) {
    && (forall j :: j in cycleVertices ==> j in f)
    && forall j {:trigger ReadsAs(e1, g, f[j], j, i)} :: j in cycleVertices ==> ReadsAs(e1, g, f[j], j, i)
  }

  /** On the cycle the array agrees with the parent map `f`. */
  ghost predicate Follows(front: seq<Vertex>, f: map<Vertex, Vertex>, cycleVertices: seq<Vertex>) {
    && (forall j :: j in cycleVertices ==> j in f && 0 <= j < |front|)
    && forall j {:trigger f[j]} {:trigger front[j]} :: j in cycleVertices ==> front[j] == f[j]
  }

  /** The best departure and the best arrival among the cycle vertices in `s`. */
  ghost predicate Scanned(g: Graph, f: map<Vertex, Vertex>, c: set<Vertex>, s: set<Vertex>, i: Vertex,
                          maxDeparture: real, departure: Vertex, maxArrival: real, arrival: Vertex)
    requires HasCycleArcs(g, f, c)
  {
    && s <= c
    && maxDeparture >= -1.0 && (i != 0 ==> BestDeparture(g, s, i, maxDeparture, departure))
    && BestArrival(g, f, c, s, i, maxArrival, arrival)
  }

  /** Looks at the arcs between `i` and the cycle vertex number `n`, after those before it. */
  method ScanVertex(scores: ScoreTable, front: array<Vertex>, i: Vertex, cycleVertices: seq<Vertex>, n: nat,
                    cycleWeight: real,
                    maxDeparture: real, departure: Vertex, maxArrival: real, arrival: Vertex,
                    ghost g: Graph, ghost f: map<Vertex, Vertex>, ghost c: set<Vertex>)
    returns (maxDeparture': real, departure': Vertex, maxArrival': real, arrival': Vertex)
    requires Distinct(cycleVertices) && n < |cycleVertices| && c == VertexSet(cycleVertices)
    requires HasCycleArcs(g, f, c) && cycleWeight == CycleWeight(g, f, c)
    requires Follows(front[..], f, cycleVertices) && CycleReadsAs(scores.entries, g, f, cycleVertices, i)
    requires Scanned(g, f, c, VertexSet(cycleVertices[..n]), i, maxDeparture, departure, maxArrival, arrival)
    ensures Scanned(g, f, c, VertexSet(cycleVertices[..n + 1]), i, maxDeparture', departure', maxArrival', arrival')
  {
    var j := cycleVertices[n];
    ghost var s := VertexSet(cycleVertices[..n]);
    CycleVertexReads(scores.entries, g, f, front[..], cycleVertices, i, n);
    PrefixGrows(cycleVertices, n);
    maxDeparture', departure' := ConsiderDeparture(scores, i, j, maxDeparture, departure, g, s);
    maxArrival', arrival' := ConsiderArrival(scores, i, j, front[j], cycleWeight, maxArrival, arrival, g, f, c, s);
  }

  lemma NothingScanned(g: Graph, f: map<Vertex, Vertex>, c: set<Vertex>, i: Vertex)
    requires HasCycleArcs(g, f, c)
    ensures Scanned(g, f, c, VertexSet([]), i, -1.0, -1, -1.0, -1)
  {
  }

  /** The best arc from the cycle to `i` and the best arc from `i` into it, each with its cycle vertex. */
  method ScanCycle(scores: ScoreTable, front: array<Vertex>, i: Vertex, cycleVertices: seq<Vertex>, cycleWeight: real,
                   ghost g: Graph, ghost f: map<Vertex, Vertex>)
    returns (maxDeparture: real, departure: Vertex, maxArrival: real, arrival: Vertex)
    requires Distinct(cycleVertices)
    requires HasCycleArcs(g, f, VertexSet(cycleVertices))
    requires cycleWeight == CycleWeight(g, f, VertexSet(cycleVertices))
    requires Follows(front[..], f, cycleVertices)
    requires CycleReadsAs(scores.entries, g, f, cycleVertices, i)
    ensures maxDeparture >= -1.0
    ensures i != 0 ==> BestDeparture(g, VertexSet(cycleVertices), i, maxDeparture, departure)
    ensures BestArrival(g, f, VertexSet(cycleVertices), VertexSet(cycleVertices), i, maxArrival, arrival)
  {
    maxDeparture, maxArrival := -1.0, -1.0;
    departure, arrival := -1, -1;
    ghost var c := VertexSet(cycleVertices);
    NothingScanned(g, f, c, i);
    for n := 0 to |cycleVertices|
      invariant Scanned(g, f, c, VertexSet(cycleVertices[..n]), i, maxDeparture, departure, maxArrival, arrival)
    {
      maxDeparture, departure, maxArrival, arrival := ScanVertex(scores, front, i, cycleVertices, n, cycleWeight,
        maxDeparture, departure, maxArrival, arrival, g, f, c);
    }
    assert cycleVertices[..|cycleVertices|] == cycleVertices;
  }

  lemma CycleVertexReads(e: map<Arc, real>, g: Graph, f: map<Vertex, Vertex>, front: seq<Vertex>,
                         cycleVertices: seq<Vertex>,
                         i: Vertex, n: nat)
    requires n < |cycleVertices| && Follows(front, f, cycleVertices) && CycleReadsAs(e, g, f, cycleVertices, i)
    ensures var j := cycleVertices[n];
            && j in VertexSet(cycleVertices) && j in f && 0 <= j < |front| && front[j] == f[j]
               && ReadsAs(e, g, f[j], j, i)
  {
    assert cycleVertices[n] in cycleVertices;
  }

  method WeighCycle(scores: ScoreTable, front: array<Vertex>, cycleVertices: seq<Vertex>, ghost cost: map<Vertex, real>)
    returns (weight: real)
    requires Distinct(cycleVertices) && cost.Keys == VertexSet(cycleVertices)
    requires forall v :: v in cycleVertices ==> 0 <= v < front.Length
    requires forall v :: v in cycleVertices ==> scores.GetScore(front[v], v) == Some(cost[v])
    ensures weight == Total(cost, VertexSet(cycleVertices))
  {
    weight := 0.0;
    for n := 0 to |cycleVertices|
      invariant VertexSet(cycleVertices[..n]) <= cost.Keys
      invariant weight == Total(cost, VertexSet(cycleVertices[..n]))
    {
      var i := cycleVertices[n];
      assert i in cycleVertices;
      weight := weight + scores.GetScore(front[i], i).value;
      PrefixGrows(cycleVertices, n);
      TotalTake(cost, VertexSet(cycleVertices[..n + 1]), i);
    }
    assert cycleVertices[..|cycleVertices|] == cycleVertices;
  }

  /** After the update, the arcs between `rep` and `i` are the best ones between the cycle and `i`. */
  ghost predicate Redirected(g: Graph, f: map<Vertex, Vertex>, c: set<Vertex>, rep: Vertex,
                             e1: map<Arc, real>, departures: map<Vertex, Vertex>, arrivals: map<Vertex, Vertex>,
                             i: Vertex)
    requires HasCycleArcs(g, f, c)
  {
    && (i != 0 ==>
          if Arc(rep, i) in e1
          then i in departures && BestDeparture(g, c, i, e1[Arc(rep, i)], departures[i]) && e1[Arc(rep, i)] >= 0.0
          else forall j :: j in c ==> Arc(j, i) !in g)
    && if Arc(i, rep) in e1
       then i in arrivals && BestArrival(g, f, c, c, i, e1[Arc(i, rep)], arrivals[i]) && e1[Arc(i, rep)] >= 0.0
       else forall j :: j in c ==> Arc(i, j) !in g
  }

  /** What a score greater than the sentinel leaves in the table and in the record of real vertices. */
  ghost function Stored(e: map<Arc, real>, a: Arc, score: real): map<Arc, real> {
    if -1.0 < score then e[a := score] else e
  }

  ghost function Noted(m: map<Vertex, Vertex>, i: Vertex, score: real, v: Vertex): map<Vertex, Vertex> {
    if -1.0 < score then m[i := v] else m
  }

  lemma ArrivingNonNegative(g: Graph, f: map<Vertex, Vertex>, c: set<Vertex>, i: Vertex, j: Vertex)
    requires NonNegative(g) && HasCycleArcs(g, f, c) && j in c && Arc(i, j) in g
    ensures Value(g, f, c, Arc(i, j)) >= 0.0
  {
    var zero: map<Vertex, real> := map v | v in c :: 0.0;
    TotalTake(BestCosts(g, f, c), c, j);
    forall v | v in c
      ensures BestCosts(g, f, c)[v] >= 0.0
    {
      assert Arc(f[v], v) in g;
    }
    TotalMonotone(zero, BestCosts(g, f, c), c - {j});
    TotalZero(zero, c - {j});
  }

  lemma {:induction false} TotalZero(zero: map<Vertex, real>, s: set<Vertex>)
    requires s <= zero.Keys && forall v :: v in s ==> zero[v] == 0.0
    ensures Total(zero, s) == 0.0
  {
    if s != {} {
      var x :| x in s;
      TotalTake(zero, s, x);
      TotalZero(zero, s - {x});
    }
  }

  lemma RedirectsOne(g: Graph, f: map<Vertex, Vertex>, c: set<Vertex>, rep: Vertex, e1: map<Arc, real>,
                     departures: map<Vertex, Vertex>, arrivals: map<Vertex, Vertex>, i: Vertex,
                     departureScore: real, departure: Vertex, arrivalScore: real, arrival: Vertex)
    requires NonNegative(g) && HasCycleArcs(g, f, c) && rep in c && i !in c
    requires ReadsAs(e1, g, f[rep], rep, i)
    requires departureScore >= -1.0 && arrivalScore >= -1.0
    requires i != 0 ==> BestDeparture(g, c, i, departureScore, departure)
    requires BestArrival(g, f, c, c, i, arrivalScore, arrival)
    ensures Redirected(g, f, c, rep, Stored(Stored(e1, Arc(rep, i), departureScore), Arc(i, rep), arrivalScore),
                       Noted(departures, i, departureScore, departure), Noted(arrivals, i, arrivalScore, arrival), i)
  {
    forall j | j in c && Arc(i, j) in g
      ensures Value(g, f, c, Arc(i, j)) >= 0.0
    {
      ArrivingNonNegative(g, f, c, i, j);
    }
  }

  lemma RedirectsKeep(g: Graph, f: map<Vertex, Vertex>, c: set<Vertex>, rep: Vertex, e1: map<Arc, real>,
                      departures: map<Vertex, Vertex>, arrivals: map<Vertex, Vertex>, i: Vertex,
                      departureScore: real, departure: Vertex, arrivalScore: real, arrival: Vertex, k: Vertex)
    requires HasCycleArcs(g, f, c) && rep in c && i !in c && k !in c && k != i
    requires Redirected(g, f, c, rep, e1, departures, arrivals, k)
    ensures Redirected(g, f, c, rep, Stored(Stored(e1, Arc(rep, i), departureScore), Arc(i, rep), arrivalScore),
                       Noted(departures, i, departureScore, departure), Noted(arrivals, i, arrivalScore, arrival), k)
  {
  }

  /** The real arc behind an arc of the contracted graph. */
  function RealArc(b: Arc, rep: Vertex, departures: map<Vertex, Vertex>, arrivals: map<Vertex, Vertex>): Arc {
    var start := if b.parent == rep && b.child in departures then departures[b.child] else b.parent;
    Arc(start, if b.child == rep && start in arrivals then arrivals[start] else b.child)
  }

  ghost function Contracted(vs: set<Vertex>, c: set<Vertex>, rep: Vertex, e1: map<Arc, real>,
                            departures: map<Vertex, Vertex>, arrivals: map<Vertex, Vertex>): Shrunk {
    var g := GraphOf(Rest(vs, c, rep), e1);
    Shrunk(rep, g, map b | b in g :: RealArc(b, rep, departures, arrivals))
  }

  /** The tables kept during contraction give the real arc behind each arc of the contracted graph. */
  ghost predicate Recorded(s: Shrunk, departures: map<Vertex, Vertex>, arrivals: map<Vertex, Vertex>) {
    forall b :: b in s.graph ==>
      && b.parent != b.child
      && (b.parent == s.rep ==> b.child in departures)
      && (b.child == s.rep ==> b.parent in arrivals)
      && b in s.behind && s.behind[b] == RealArc(b, s.rep, departures, arrivals)
  }

  lemma ArcKept(g: Graph, f: map<Vertex, Vertex>, c: set<Vertex>, rep: Vertex,
                e1: map<Arc, real>, departures: map<Vertex, Vertex>, arrivals: map<Vertex, Vertex>, a: Arc)
    requires HasCycleArcs(g, f, c) && rep in c
    requires a in g && !(a.parent in c && a.child in c) && a.child != 0
    requires a.parent in c ==> Redirected(g, f, c, rep, e1, departures, arrivals, a.child)
    requires a.child in c ==> Redirected(g, f, c, rep, e1, departures, arrivals, a.parent)
    requires a.parent !in c && a.child !in c ==> SameAt(g, e1, a)
    ensures MergedArc(c, rep, a) in e1
    ensures Value(g, f, c, a) <= e1[MergedArc(c, rep, a)]
  {
    assert a == Arc(a.parent, a.child);
  }

  lemma ArcBacked(g: Graph, f: map<Vertex, Vertex>, c: set<Vertex>, rep: Vertex,
                  e1: map<Arc, real>, departures: map<Vertex, Vertex>, arrivals: map<Vertex, Vertex>, b: Arc)
    requires NonNegative(g) && HasCycleArcs(g, f, c) && rep in c
    requires b in e1 && b.child != 0 && b.parent != b.child
    requires b.parent in c ==> b.parent == rep
    requires b.child in c ==> b.child == rep
    requires b.parent == rep ==> Redirected(g, f, c, rep, e1, departures, arrivals, b.child)
    requires b.child == rep ==> Redirected(g, f, c, rep, e1, departures, arrivals, b.parent)
    requires b.parent != rep && b.child != rep ==> SameAt(g, e1, b)
    ensures var a := RealArc(b, rep, departures, arrivals);
            && (b.parent == rep ==> b.child in departures)
            && (b.child == rep ==> b.parent in arrivals)
            && a in g && MergedArc(c, rep, a) == b
            && Value(g, f, c, a) == e1[b] && e1[b] >= 0.0
  {
    assert b == Arc(b.parent, b.child);
  }

  /** The table as it stands once every outside vertex has been redirected. */
  ghost predicate AllRedirected(vs: set<Vertex>, g: Graph, f: map<Vertex, Vertex>, c: set<Vertex>, rep: Vertex,
                                e1: map<Arc, real>, departures: map<Vertex, Vertex>, arrivals: map<Vertex, Vertex>)
    requires HasCycleArcs(g, f, c)
  {
    && (forall i {:trigger Redirected(g, f, c, rep, e1, departures, arrivals, i)} ::
          i in vs && i !in c ==> Redirected(g, f, c, rep, e1, departures, arrivals, i))
    && (forall a: Arc {:trigger SameAt(g, e1, a)} ::
          a.parent in vs - c && a.child in vs - c && a.child != 0 && a.parent != a.child ==> SameAt(g, e1, a))
  }

  /** The table now holds the contracted graph: no score turned negative, and each arc has a real one behind it. */
  lemma TableIsContracted(vs: set<Vertex>, g: Graph, f: map<Vertex, Vertex>, c: set<Vertex>, rep: Vertex,
                          e1: map<Arc, real>, departures: map<Vertex, Vertex>, arrivals: map<Vertex, Vertex>)
    requires rep in c && c <= vs - {0}
    requires forall a :: a in g ==> a.parent in vs && a.child in vs && a.child != 0 && a.parent != a.child
    requires NonNegative(g) && BestInside(g, f, c)
    requires AllRedirected(vs, g, f, c, rep, e1, departures, arrivals)
    ensures IsContraction(g, f, c, Contracted(vs, c, rep, e1, departures, arrivals))
    ensures NonNegative(GraphOf(Rest(vs, c, rep), e1))
    ensures Recorded(Contracted(vs, c, rep, e1, departures, arrivals), departures, arrivals)
  {
    var s := Contracted(vs, c, rep, e1, departures, arrivals);
    forall a | a in g && !(a.parent in c && a.child in c)
      ensures MergedArc(c, rep, a) in s.graph
      ensures Value(g, f, c, a) <= s.graph[MergedArc(c, rep, a)]
    {
      if a.parent in c {
        assert Redirected(g, f, c, rep, e1, departures, arrivals, a.child);
      } else if a.child in c {
        assert Redirected(g, f, c, rep, e1, departures, arrivals, a.parent);
      } else {
        assert SameAt(g, e1, a);
      }
      ArcKept(g, f, c, rep, e1, departures, arrivals, a);
    }
    forall b | b in s.graph
      ensures b in s.behind && s.behind[b] in g && MergedArc(c, rep, s.behind[b]) == b
      ensures Value(g, f, c, s.behind[b]) == s.graph[b] && s.graph[b] >= 0.0
      ensures (b.parent == rep ==> b.child in departures) && (b.child == rep ==> b.parent in arrivals)
    {
      if b.parent == rep {
        assert Redirected(g, f, c, rep, e1, departures, arrivals, b.child);
      } else if b.child == rep {
        assert Redirected(g, f, c, rep, e1, departures, arrivals, b.parent);
      } else {
        assert SameAt(g, e1, b);
      }
      ArcBacked(g, f, c, rep, e1, departures, arrivals, b);
    }
  }

  lemma SameExceptGrows(e0: map<Arc, real>, e1: map<Arc, real>, rep: Vertex, done: set<Vertex>, i: Vertex, x: real,
                        y: real)
    requires SameExcept(e0, e1, rep, done)
    ensures SameExcept(e0, Stored(Stored(e1, Arc(rep, i), x), Arc(i, rep), y), rep, done + {i})
  {
    var e2 := Stored(Stored(e1, Arc(rep, i), x), Arc(i, rep), y);
    forall a: Arc | !(a.parent == rep && a.child in done + {i}) && !(a.child == rep && a.parent in done + {i})
      ensures SameAt(e0, e2, a)
    {
      assert SameAt(e0, e1, a);
    }
  }

  /** As long as `i` is not done, the arcs between it and the cycle still read as in the graph. */
  lemma NotDoneReads(vs: set<Vertex>, e0: map<Arc, real>, e1: map<Arc, real>, rep: Vertex, done: set<Vertex>,
                     u: Vertex, j: Vertex, i: Vertex)
    requires SameExcept(e0, e1, rep, done)
    requires u in vs - {0} && j in vs - {0} && u != j && i in vs && i != j
    requires j !in done && u !in done && i !in done
    ensures ReadsAs(e1, GraphOf(vs, e0), u, j, i)
  {
    assert SameAt(e0, e1, Arc(u, j)) && SameAt(e0, e1, Arc(i, j)) && SameAt(e0, e1, Arc(j, i));
  }

  lemma OutsideReads(vs: set<Vertex>, e0: map<Arc, real>, e1: map<Arc, real>, rep: Vertex, c: set<Vertex>)
    requires SameExcept(e0, e1, rep, vs - c) && rep in c
    ensures forall a: Arc {:trigger SameAt(GraphOf(vs, e0), e1, a)} ::
      a.parent in vs - c && a.child in vs - c && a.child != 0 && a.parent != a.child ==> SameAt(GraphOf(vs, e0), e1, a)
  {
    forall a: Arc | a.parent in vs - c && a.child in vs - c && a.child != 0 && a.parent != a.child
      ensures SameAt(GraphOf(vs, e0), e1, a)
    {
      assert SameAt(e0, e1, a);
    }
  }

  ghost predicate RedirectedOn(done: set<Vertex>, g: Graph, f: map<Vertex, Vertex>, c: set<Vertex>, rep: Vertex,
                               e1: map<Arc, real>, departures: map<Vertex, Vertex>, arrivals: map<Vertex, Vertex>)
    requires HasCycleArcs(g, f, c)
  {
    forall i {:trigger Redirected(g, f, c, rep, e1, departures, arrivals, i)} ::
      i in done ==> Redirected(g, f, c, rep, e1, departures, arrivals, i)
  }

  lemma RedirectStep(g: Graph, f: map<Vertex, Vertex>, c: set<Vertex>, rep: Vertex, e1: map<Arc, real>,
                     departures: map<Vertex, Vertex>, arrivals: map<Vertex, Vertex>, done: set<Vertex>, i: Vertex,
                     departureScore: real, departure: Vertex, arrivalScore: real, arrival: Vertex)
    requires NonNegative(g) && HasCycleArcs(g, f, c) && rep in c && i !in c && i !in done && done !! c
    requires RedirectedOn(done, g, f, c, rep, e1, departures, arrivals)
    requires ReadsAs(e1, g, f[rep], rep, i)
    requires departureScore >= -1.0
    requires i != 0 ==> BestDeparture(g, c, i, departureScore, departure)
    requires BestArrival(g, f, c, c, i, arrivalScore, arrival)
    ensures RedirectedOn(done + {i}, g, f, c, rep,
                         Stored(Stored(e1, Arc(rep, i), departureScore), Arc(i, rep), arrivalScore),
                         Noted(departures, i, departureScore, departure), Noted(arrivals, i, arrivalScore, arrival))
  {
    RedirectsOne(g, f, c, rep, e1, departures, arrivals, i, departureScore, departure, arrivalScore, arrival);
    forall k | k in done
      ensures Redirected(g, f, c, rep, Stored(Stored(e1, Arc(rep, i), departureScore), Arc(i, rep), arrivalScore),
                         Noted(departures, i, departureScore, departure), Noted(arrivals, i, arrivalScore, arrival), k)
    {
      RedirectsKeep(g, f, c, rep, e1, departures, arrivals, i, departureScore, departure, arrivalScore, arrival, k);
    }
  }

  method StoreScores(scores: ScoreTable, rep: Vertex, i: Vertex, maxDeparture: real, departure: Vertex,
                     maxArrival: real, arrival: Vertex,
                     departures: map<Vertex, Vertex>, arrivals: map<Vertex, Vertex>)
    returns (departures': map<Vertex, Vertex>, arrivals': map<Vertex, Vertex>)
    modifies scores
    ensures scores.entries == Stored(Stored(old(scores.entries), Arc(rep, i), maxDeparture), Arc(i, rep), maxArrival)
    ensures departures' == Noted(departures, i, maxDeparture, departure)
    ensures arrivals' == Noted(arrivals, i, maxArrival, arrival)
  {
    departures', arrivals' := departures, arrivals;
    if -1.0 < maxDeparture {
      scores.SetScore(rep, i, maxDeparture);
      departures' := departures'[i := departure];
    }
    if -1.0 < maxArrival {
      scores.SetScore(i, rep, maxArrival);
      arrivals' := arrivals'[i := arrival];
    }
  }

  lemma CycleReads(vs: set<Vertex>, e0: map<Arc, real>, e1: map<Arc, real>, f: map<Vertex, Vertex>,
                   cycleVertices: seq<Vertex>,
                   done: set<Vertex>, i: Vertex)
    requires |cycleVertices| > 0 && VertexSet(cycleVertices) <= vs - {0}
    requires HasCycleArcs(GraphOf(vs, e0), f, VertexSet(cycleVertices))
    requires SameExcept(e0, e1, cycleVertices[0], done) && done !! VertexSet(cycleVertices)
    requires i in vs - VertexSet(cycleVertices) && i !in done
    ensures CycleReadsAs(e1, GraphOf(vs, e0), f, cycleVertices, i)
    ensures ReadsAs(e1, GraphOf(vs, e0), f[cycleVertices[0]], cycleVertices[0], i)
  {
    forall j | j in cycleVertices
      ensures ReadsAs(e1, GraphOf(vs, e0), f[j], j, i)
    {
      assert j in VertexSet(cycleVertices) && Arc(f[j], j) in GraphOf(vs, e0);
      NotDoneReads(vs, e0, e1, cycleVertices[0], done, f[j], j, i);
    }
  }

  lemma PrefixOutside(s: seq<Vertex>, n: nat, c: set<Vertex>)
    requires Distinct(s) && n < |s|
    ensures VertexSet(s[..n + 1]) - c == if s[n] in c then VertexSet(s[..n]) - c else (VertexSet(s[..n]) - c) + {s[n]}
    ensures s[n] !in VertexSet(s[..n]) && s[n] in VertexSet(s)
  {
    PrefixGrows(s, n);
  }

  /** Overwrites the arcs between the representing vertex and one vertex outside the cycle. */
  method Redirect(scores: ScoreTable, front: array<Vertex>, i: Vertex, cycleVertices: seq<Vertex>, weight: real,
                  departures: map<Vertex, Vertex>, arrivals: map<Vertex, Vertex>,
                  ghost vs: set<Vertex>, ghost e0: map<Arc, real>, ghost f: map<Vertex, Vertex>,
                  ghost done: set<Vertex>)
    returns (departures': map<Vertex, Vertex>, arrivals': map<Vertex, Vertex>)
    requires Distinct(cycleVertices) && |cycleVertices| > 0 && VertexSet(cycleVertices) <= vs - {0}
    requires NonNegative(GraphOf(vs, e0)) && HasCycleArcs(GraphOf(vs, e0), f, VertexSet(cycleVertices))
    requires weight == CycleWeight(GraphOf(vs, e0), f, VertexSet(cycleVertices))
    requires Follows(front[..], f, cycleVertices)
    requires i in vs - VertexSet(cycleVertices) && i !in done && done !! VertexSet(cycleVertices)
    requires SameExcept(e0, scores.entries, cycleVertices[0], done)
    requires RedirectedOn(done, GraphOf(vs, e0), f, VertexSet(cycleVertices), cycleVertices[0], scores.entries,
               departures, arrivals)
    modifies scores
    ensures SameExcept(e0, scores.entries, cycleVertices[0], done + {i})
    ensures RedirectedOn(done + {i}, GraphOf(vs, e0), f, VertexSet(cycleVertices), cycleVertices[0],
                         scores.entries, departures', arrivals')
  {
    ghost var c, g, e1 := VertexSet(cycleVertices), GraphOf(vs, e0), scores.entries;
    var rep := cycleVertices[0];
    CycleReads(vs, e0, e1, f, cycleVertices, done, i);
    var maxDeparture, departure, maxArrival, arrival := ScanCycle(scores, front, i, cycleVertices, weight, g, f);
    RedirectStep(g, f, c, rep, e1, departures, arrivals, done, i, maxDeparture, departure, maxArrival, arrival);
    SameExceptGrows(e0, e1, rep, done, i, maxDeparture, maxArrival);
    departures', arrivals' :=
      StoreScores(scores, rep, i, maxDeparture, departure, maxArrival, arrival, departures, arrivals);
  }

  method RedirectAll(scores: ScoreTable, front: array<Vertex>, current: seq<Vertex>, cycleVertices: seq<Vertex>,
                     weight: real,
                     ghost vs: set<Vertex>, ghost e0: map<Arc, real>, ghost f: map<Vertex, Vertex>)
    returns (departures: map<Vertex, Vertex>, arrivals: map<Vertex, Vertex>)
    requires Distinct(current) && vs == VertexSet(current) && e0 == scores.entries
    requires Distinct(cycleVertices) && |cycleVertices| > 0 && VertexSet(cycleVertices) <= vs - {0}
    requires NonNegative(GraphOf(vs, e0)) && HasCycleArcs(GraphOf(vs, e0), f, VertexSet(cycleVertices))
    requires weight == CycleWeight(GraphOf(vs, e0), f, VertexSet(cycleVertices))
    requires Follows(front[..], f, cycleVertices)
    modifies scores
    ensures SameExcept(e0, scores.entries, cycleVertices[0], vs - VertexSet(cycleVertices))
    ensures RedirectedOn(vs - VertexSet(cycleVertices), GraphOf(vs, e0), f, VertexSet(cycleVertices), cycleVertices[0],
                         scores.entries, departures, arrivals)
  {
    ghost var c, g := VertexSet(cycleVertices), GraphOf(vs, e0);
    departures, arrivals := map[], map[];
    for n := 0 to |current|
      invariant SameExcept(e0, scores.entries, cycleVertices[0], VertexSet(current[..n]) - c)
      invariant RedirectedOn(VertexSet(current[..n]) - c, g, f, c, cycleVertices[0], scores.entries, departures,
                  arrivals)
    {
      var i := current[n];
      ghost var done := VertexSet(current[..n]) - c;
      PrefixOutside(current, n, c);
      if i !in cycleVertices {
        departures, arrivals := Redirect(scores, front, i, cycleVertices, weight, departures, arrivals, vs, e0, f,
                                         done);
      }
    }
    assert current[..|current|] == current;
  }

  lemma CycleCosts(entries: map<Arc, real>, vs: set<Vertex>, front: seq<Vertex>, f: map<Vertex, Vertex>,
                   cycleVertices: seq<Vertex>)
    requires HasCycleArcs(GraphOf(vs, entries), f, VertexSet(cycleVertices))
    requires Follows(front, f, cycleVertices)
    ensures forall v :: v in cycleVertices ==>
      && 0 <= v < |front| && Arc(front[v], v) in entries
      && entries[Arc(front[v], v)] == BestCosts(GraphOf(vs, entries), f, VertexSet(cycleVertices))[v]
  {
    forall v | v in cycleVertices
      ensures 0 <= v < |front| && Arc(front[v], v) in entries
      ensures entries[Arc(front[v], v)] == BestCosts(GraphOf(vs, entries), f, VertexSet(cycleVertices))[v]
    {
      assert v in VertexSet(cycleVertices) && Arc(f[v], v) in GraphOf(vs, entries);
    }
  }

  /**
   Overwrites the arcs between the representing vertex (the first of the cycle) and every vertex outside the cycle.
   */
  method Contract(scores: ScoreTable, front: array<Vertex>, current: seq<Vertex>, cycleVertices: seq<Vertex>,
                  ghost f: map<Vertex, Vertex>)
    returns (departures: map<Vertex, Vertex>, arrivals: map<Vertex, Vertex>)
    requires Distinct(current) && Distinct(cycleVertices) && |cycleVertices| > 0
    requires VertexSet(cycleVertices) <= VertexSet(current) - {0}
    requires NonNegative(GraphOf(VertexSet(current), scores.entries))
    requires HasCycleArcs(GraphOf(VertexSet(current), scores.entries), f, VertexSet(cycleVertices))
    requires Follows(front[..], f, cycleVertices)
    modifies scores
    ensures SameExcept(old(scores.entries), scores.entries, cycleVertices[0],
              VertexSet(current) - VertexSet(cycleVertices))
    ensures AllRedirected(VertexSet(current), GraphOf(VertexSet(current), old(scores.entries)), f,
              VertexSet(cycleVertices),
                          cycleVertices[0], scores.entries, departures, arrivals)
  {
    ghost var vs, c, e0 := VertexSet(current), VertexSet(cycleVertices), scores.entries;
    CycleCosts(e0, vs, front[..], f, cycleVertices);
    var weight := WeighCycle(scores, front, cycleVertices, BestCosts(GraphOf(vs, e0), f, c));
    departures, arrivals := RedirectAll(scores, front, current, cycleVertices, weight, vs, e0, f);
    OutsideReads(vs, e0, scores.entries, cycleVertices[0], c);
  }

  // ----- Expansion.

  /** `final` holds the real arcs behind `edges`, and a cycle arc for each cycle vertex those do not enter. */
  ghost predicate Expanded(final: seq<Arc>, edges: seq<Arc>, behind: map<Arc, Arc>, f: map<Vertex, Vertex>,
                           c: set<Vertex>)
    requires forall e :: e in edges ==> e in behind
    requires forall v :: v in c ==> v in f
  {
    && DistinctChildren(final)
    && (forall e :: e in edges ==> behind[e] in final)
    && (forall v :: v in c ==> IsChild(final, v))
    && forall a :: a in final ==> (exists e :: e in edges && behind[e] == a) || (a.child in c && a.parent == f[a.child])
  }

  method ExpandEdges(edges: seq<Arc>, rep: Vertex, departures: map<Vertex, Vertex>, arrivals: map<Vertex, Vertex>)
    returns (final: seq<Arc>)
    requires forall e :: e in edges ==> e.parent != e.child
    requires forall e :: e in edges ==>
      (e.parent == rep ==> e.child in departures) && (e.child == rep ==> e.parent in arrivals)
    ensures |final| == |edges|
    ensures forall k :: 0 <= k < |edges| ==> final[|edges| - 1 - k] == RealArc(edges[k], rep, departures, arrivals)
  {
    final := [];
    for n := 0 to |edges|
      invariant |final| == n
      invariant forall k :: 0 <= k < n ==> final[n - 1 - k] == RealArc(edges[k], rep, departures, arrivals)
    {
      var start, end := edges[n].parent, edges[n].child;
      assert edges[n] in edges;
      if start == rep {
        start := departures[end];
      }
      if end == rep {
        end := arrivals[start];
      }
      final := [Arc(start, end)] + final;
    }
  }

  /** Adds the arc from its predecessor for each cycle vertex that has no incoming arc yet. */
  method AddCycleArcs(edges: seq<Arc>, front: array<Vertex>, cycleVertices: seq<Vertex>, ghost f: map<Vertex, Vertex>)
    returns (final: seq<Arc>)
    requires DistinctChildren(edges)
    requires Follows(front[..], f, cycleVertices)
    ensures DistinctChildren(final)
    ensures forall a :: a in edges ==> a in final
    ensures forall v :: v in cycleVertices ==> IsChild(final, v)
    ensures forall a :: a in final ==> a in edges || (a.child in cycleVertices && a.parent == f[a.child])
  {
    final := edges;
    for n := 0 to |cycleVertices|
      invariant DistinctChildren(final)
      invariant forall a :: a in edges ==> a in final
      invariant forall m :: 0 <= m < n ==> IsChild(final, cycleVertices[m])
      invariant forall a :: a in final ==> a in edges || (a.child in cycleVertices && a.parent == f[a.child])
    {
      var i := cycleVertices[n];
      assert i in cycleVertices;
      if !(exists a :: a in final && a.child == i) {
        ghost var before := final;
        final := [Arc(front[i], i)] + final;
        forall m | 0 <= m < n
          ensures IsChild(final, cycleVertices[m])
        {
          var a :| a in before && a.child == cycleVertices[m];
          assert a in final;
        }
        assert final[0] in final;
      }
    }
  }

  lemma ExpandedChildren(edges: seq<Arc>, images: seq<Arc>, behind: map<Arc, Arc>, c: set<Vertex>, rep: Vertex)
    requires DistinctChildren(edges) && |images| == |edges|
    requires forall e :: e in edges ==> e in behind && MergedArc(c, rep, behind[e]) == e
    requires forall k :: 0 <= k < |edges| ==> edges[k] in edges && images[|edges| - 1 - k] == behind[edges[k]]
    ensures DistinctChildren(images)
    ensures forall a :: a in images <==> exists e :: e in edges && behind[e] == a
  {
    forall i, j | 0 <= i < j < |images|
      ensures images[i].child != images[j].child
    {
      var k, l := |images| - 1 - i, |images| - 1 - j;
      assert images[i] == images[|edges| - 1 - k] && images[j] == images[|edges| - 1 - l];
      assert MergedArc(c, rep, behind[edges[k]]) == edges[k] && MergedArc(c, rep, behind[edges[l]]) == edges[l];
    }
    forall a | a in images
      ensures exists e :: e in edges && behind[e] == a
    {
      var i :| 0 <= i < |images| && images[i] == a;
      assert images[|edges| - 1 - (|images| - 1 - i)] == a;
      assert edges[|images| - 1 - i] in edges && behind[edges[|images| - 1 - i]] == a;
    }
    forall e | e in edges
      ensures behind[e] in images
    {
      var k :| 0 <= k < |edges| && edges[k] == e;
      assert images[|edges| - 1 - k] == behind[e];
    }
  }

  /** Read as parent maps, the expanded arcs are the expansion of the contracted ones. */
  lemma HeadsExpanded(vs: set<Vertex>, g: Graph, f: map<Vertex, Vertex>, c: set<Vertex>, s: Shrunk,
                      edges: seq<Arc>, final: seq<Arc>)
    requires IsContraction(g, f, c, s) && c <= vs
    requires DistinctChildren(edges) && ArcSet(edges) <= s.graph.Keys
    requires forall e :: e in edges ==> e in s.behind && MergedArc(c, s.rep, s.behind[e]) == e
    requires Heads(edges).Keys == Rest(vs, c, s.rep) - {0}
    requires Expandable(c, f, s, Heads(edges))
    requires Expanded(final, edges, s.behind, f, c)
    ensures Heads(final) == ExpandMap(c, f, s, Heads(edges))
  {
    var p := ExpandMap(c, f, s, Heads(edges));
    forall v
      ensures v in p ==> v in Heads(final) && Heads(final)[v] == p[v]
      ensures v in Heads(final) ==> v in p
    {
      if v in p {
        HeadExpanded(f, c, s, edges, final, v);
      }
      if v in Heads(final) {
        OnlyExpanded(f, c, s, edges, final, v);
      }
    }
    SameMap(Heads(final), p);
  }

  lemma SameMap(m: map<Vertex, Vertex>, p: map<Vertex, Vertex>)
    requires forall v :: v in p ==> v in m && m[v] == p[v]
    requires forall v :: v in m ==> v in p
    ensures m == p
  {
  }

  /** Only vertices of the cycle and those with a head in the contracted answer have a head in the expansion. */
  lemma OnlyExpanded(f: map<Vertex, Vertex>, c: set<Vertex>, s: Shrunk, edges: seq<Arc>, final: seq<Arc>, v: Vertex)
    requires DistinctChildren(edges) && v in Heads(final)
    requires forall e :: e in edges ==> e in s.behind && MergedArc(c, s.rep, s.behind[e]) == e
    requires forall u :: u in c ==> u in f
    requires Expanded(final, edges, s.behind, f, c)
    ensures v in Heads(edges).Keys + c
  {
    HeadsFromArcs(final, v);
    if v !in c {
      var e :| e in edges && s.behind[e] == Arc(Heads(final)[v], v);
      HeadsAt(edges, e);
    }
  }

  lemma HeadExpanded(f: map<Vertex, Vertex>, c: set<Vertex>, s: Shrunk, edges: seq<Arc>, final: seq<Arc>, v: Vertex)
    requires DistinctChildren(edges)
    requires forall e :: e in edges ==> e in s.behind && MergedArc(c, s.rep, s.behind[e]) == e
    requires Expandable(c, f, s, Heads(edges))
    requires Expanded(final, edges, s.behind, f, c)
    requires v in Heads(edges) || v in c
    ensures v in Heads(final) && Heads(final)[v] == ExpandMap(c, f, s, Heads(edges))[v]
  {
    var q := Heads(edges);
    HeadsFromArcs(edges, s.rep);
    var entry := s.behind[Arc(q[s.rep], s.rep)];
    if v !in c {
      HeadsFromArcs(edges, v);
      HeadsAt(final, s.behind[Arc(q[v], v)]);
    } else if v == entry.child {
      HeadsAt(final, entry);
    } else {
      var a :| a in final && a.child == v;
      HeadsAt(final, a);
      if e :| e in edges && s.behind[e] == a {
        SameArc(edges, e, Arc(q[s.rep], s.rep));
      }
    }
  }

  // ----- The solver.

  /** The keys of a hash table, in whatever order they come. */
  method KeysOf(m: map<Vertex, Vertex>) returns (keys: seq<Vertex>)
    ensures Distinct(keys) && VertexSet(keys) == m.Keys
  {
    keys := [];
    var left := m.Keys;
    while left != {}
      invariant left <= m.Keys && Distinct(keys)
      invariant forall v :: v in keys <==> v in m.Keys - left
      decreases left
    {
      var v :| v in left;
      assert forall i :: 0 <= i < |keys| ==> keys[i] in keys;
      keys := keys + [v];
      left := left - {v};
    }
  }

  function Without(s: seq<Vertex>, v: Vertex): (r: seq<Vertex>)
    ensures forall u :: u in r <==> u in s && u != v
    ensures Distinct(s) ==> Distinct(r)
  {
    if s == [] then []
    else if s[0] == v then Without(s[1..], v)
    else
      var r := Without(s[1..], v);
      assert forall i :: 0 <= i < |r| ==> r[i] in r;
      [s[0]] + r
  }

  method RemoveMerged(current: seq<Vertex>, cycleVertices: seq<Vertex>) returns (rest: seq<Vertex>)
    requires Distinct(current) && |cycleVertices| > 0 && Distinct(cycleVertices)
    ensures Distinct(rest)
    ensures forall v :: v in rest <==> v in current && (v !in cycleVertices || v == cycleVertices[0])
  {
    rest := current;
    for n := 0 to |cycleVertices|
      invariant Distinct(rest)
      invariant forall v :: v in rest <==> v in current && (v !in cycleVertices[..n] || v == cycleVertices[0])
    {
      if cycleVertices[n] != cycleVertices[0] {
        rest := Without(rest, cycleVertices[n]);
      }
    }
    assert cycleVertices[..|cycleVertices|] == cycleVertices;
  }

  /** The edges of the no-cycle case: one from the predecessor of each vertex that has one. */
  method CollectEdges(front: array<Vertex>, current: seq<Vertex>) returns (edges: seq<Arc>)
    requires Vertices(front.Length, current)
    ensures DistinctChildren(edges)
    ensures Heads(edges) == FrontMap(front[..], VertexSet(current))
  {
    edges := [];
    assert forall m :: 0 <= m < |current| ==> current[m] in current;
    for n := 0 to |current|
      invariant DistinctChildren(edges)
      invariant forall m :: 0 <= m < n && front[current[m]] != -1 ==> Arc(front[current[m]], current[m]) in edges
      invariant forall a :: a in edges ==>
        a.child in current && a.child in current[..n] && a.parent == front[a.child] != -1
    {
      var i := current[n];
      if front[i] != -1 {
        assert forall k :: 0 <= k < |edges| ==> edges[k] in edges;
        edges := edges + [Arc(front[i], i)];
      }
    }
    ghost var f := FrontMap(front[..], VertexSet(current));
    forall v | v in f
      ensures v in Heads(edges) && Heads(edges)[v] == f[v]
    {
      HeadsAt(edges, Arc(f[v], v));
    }
    forall v | v in Heads(edges)
      ensures v in f
    {
      HeadsFromArcs(edges, v);
      assert v in current;
    }
  }

  lemma {:induction false} ReachedInMore(small: set<Arc>, large: set<Arc>, v: Vertex, n: nat)
    requires small <= large && ReachedIn(small, 0, v, n)
    ensures ReachedIn(large, 0, v, n)
    decreases n
  {
    if n > 0 {
      var u :| Arc(u, v) in small && ReachedIn(small, 0, u, n - 1);
      ReachedInMore(small, large, u, n - 1);
    }
  }

  lemma ArborescenceMeansReachable(vs: set<Vertex>, g: Graph, edges: seq<Arc>)
    requires SpanningArborescence(vs, 0, edges) && ArcSet(edges) <= g.Keys
    ensures AllReachable(vs, g)
  {
    forall v | v in vs
      ensures Reachable(g.Keys, 0, v)
    {
      var n: nat :| ReachedIn(ArcSet(edges), 0, v, n);
      ReachedInMore(ArcSet(edges), g.Keys, v, n);
    }
  }

  /** An arborescence made of table entries uses only arcs that count, so it is a tree in the sense of the proofs. */
  lemma ArborescenceIsTree(vs: set<Vertex>, entries: map<Arc, real>, edges: seq<Arc>) returns (rank: map<Vertex, nat>)
    requires SpanningArborescence(vs, 0, edges) && ArcSet(edges) <= entries.Keys
    ensures ArcSet(edges) <= GraphOf(vs, entries).Keys
    ensures Tree(vs, GraphOf(vs, entries), Heads(edges), rank)
  {
    rank := DepthExists(vs, 0, edges);
    forall a | a in edges
      ensures a in GraphOf(vs, entries)
    {
      assert a in ArcSet(edges);
    }
    HeadsUseArcs(GraphOf(vs, entries), edges);
    forall v | v in vs - {0}
      ensures v in Heads(edges)
    {
      WalkEndsInChild(edges, 0, v, rank[v]);
      HeadsFromArcs(edges, v);
    }
    forall v | v in Heads(edges)
      ensures v in vs - {0} && Heads(edges)[v] in vs && rank[Heads(edges)[v]] < rank[v]
    {
      HeadsFromArcs(edges, v);
    }
  }

  lemma TreeIsArborescence(vs: set<Vertex>, g: Graph, edges: seq<Arc>, rank: map<Vertex, nat>)
    requires DistinctChildren(edges) && Tree(vs, g, Heads(edges), rank)
    ensures SpanningArborescence(vs, 0, edges)
  {
    forall a | a in edges
      ensures a.parent in vs && a.child in vs - {0} && rank[a.parent] < rank[a.child]
    {
      HeadsAt(edges, a);
    }
    forall v | v in vs && v != 0
      ensures IsChild(edges, v)
    {
      HeadsFromArcs(edges, v);
    }
    assert Ranks(vs, edges, rank);
    ArborescenceIffRanked(vs, 0, edges);
  }

  /** No spanning arborescence rooted at 0 and made of table entries weighs more. */
  ghost predicate Maximum(vs: set<Vertex>, entries: map<Arc, real>, edges: seq<Arc>) {
    && SpanningArborescence(vs, 0, edges)
    && ArcSet(edges) <= entries.Keys
    && forall other :: SpanningArborescence(vs, 0, other) && ArcSet(other) <= entries.Keys ==>
      Weight(entries, other) <= Weight(entries, edges)
  }

  lemma OptimalIsMaximum(vs: set<Vertex>, entries: map<Arc, real>, edges: seq<Arc>)
    requires DistinctChildren(edges) && ArcSet(edges) <= GraphOf(vs, entries).Keys
    requires Optimal(vs, GraphOf(vs, entries), Heads(edges))
    ensures Maximum(vs, entries, edges)
  {
    var g := GraphOf(vs, entries);
    var rank :| Tree(vs, g, Heads(edges), rank);
    TreeIsArborescence(vs, g, edges, rank);
    GraphWeight(vs, entries, edges);
    forall other | SpanningArborescence(vs, 0, other) && ArcSet(other) <= entries.Keys
      ensures Weight(entries, other) <= Weight(entries, edges)
    {
      var r := ArborescenceIsTree(vs, entries, other);
      GraphWeight(vs, entries, other);
    }
  }

  lemma GraphWeight(vs: set<Vertex>, entries: map<Arc, real>, edges: seq<Arc>)
    requires DistinctChildren(edges) && ArcSet(edges) <= GraphOf(vs, entries).Keys
    ensures UsesArcsOf(GraphOf(vs, entries), Heads(edges))
    ensures ArcSet(edges) <= entries.Keys
    ensures Weight(entries, edges) == Cost(GraphOf(vs, entries), Heads(edges))
  {
    forall a | a in edges
      ensures a in GraphOf(vs, entries)
    {
      assert a in ArcSet(edges);
    }
    WeightIsCost(GraphOf(vs, entries), edges);
    WeightSame(entries, GraphOf(vs, entries), edges);
  }

  /** `f` holds a best incoming arc of every vertex that has any. */
  ghost predicate GreedyMap(vs: set<Vertex>, g: Graph, f: map<Vertex, Vertex>) {
    && 0 !in f && f.Keys <= vs
    && StaysIn(f, vs)
    && UsesArcsOf(g, f)
    && forall a :: a in g ==> a.child in f && g[a] <= g[Arc(f[a.child], a.child)]
  }

  lemma AcyclicCase(vs: set<Vertex>, g: Graph, f: map<Vertex, Vertex>, rank: map<Vertex, nat>)
    requires 0 in vs && GreedyMap(vs, g, f)
    requires Settled(f, rank) && vs <= rank.Keys
    requires AllReachable(vs, g)
    ensures Optimal(vs, g, f)
  {
    forall v | v in vs - {0}
      ensures v in f
    {
      var n: nat :| ReachedIn(g.Keys, 0, v, n);
      var u :| Arc(u, v) in g.Keys;
    }
    var rank' := map v | v in vs :: rank[v];
    forall v | v in f
      ensures rank'[f[v]] < rank'[v]
    {
    }
    AcyclicGreedyIsOptimal(vs, g, f, rank');
  }

  lemma CycleIsBest(vs: set<Vertex>, g: Graph, f: map<Vertex, Vertex>, cyc: seq<Vertex>)
    requires GreedyMap(vs, g, f) && Cycle(f, cyc)
    ensures BestInside(g, f, VertexSet(cyc)) && VertexSet(cyc) <= vs - {0}
  {
    forall v | v in cyc
      ensures v in f && f[v] in cyc && Arc(f[v], v) in g
    {
      var i := IndexIn(cyc, v);
      assert f[v] == cyc[if i == |cyc| - 1 then 0 else i + 1];
    }
  }

  lemma ContractionAllReachable(vs: set<Vertex>, g: Graph, f: map<Vertex, Vertex>, c: set<Vertex>, s: Shrunk)
    requires IsContraction(g, f, c, s) && c <= vs && AllReachable(vs, g)
    ensures AllReachable(Rest(vs, c, s.rep), s.graph)
  {
    forall v | v in Rest(vs, c, s.rep)
      ensures Reachable(s.graph.Keys, 0, v)
    {
      var n: nat :| ReachedIn(g.Keys, 0, v, n);
      ContractionReaches(g, f, c, s, v, n);
    }
  }

  /** A start of a lightest arc of the cycle. */
  method LightestStart(scores: ScoreTable, cycle: map<Vertex, Vertex>, starts: seq<Vertex>) returns (minStart: Vertex)
    requires starts != [] && -1 !in cycle && forall u :: u in starts ==> u in cycle
    requires forall u :: u in cycle ==> Arc(u, cycle[u]) in scores.entries
    ensures minStart in starts
    ensures forall u :: u in starts ==>
              scores.entries[Arc(minStart, cycle[minStart])] <= scores.entries[Arc(u, cycle[u])]
  {
    var minScore := 0.0;
    minStart := -1;
    for n := 0 to |starts|
      invariant minStart == -1 ==> n == 0
      invariant minStart != -1 ==> minStart in starts && minScore == scores.entries[Arc(minStart, cycle[minStart])]
      invariant forall m :: 0 <= m < n ==> minScore <= scores.entries[Arc(starts[m], cycle[starts[m]])]
    {
      var score := scores.GetScore(starts[n], cycle[starts[n]]).value;
      if minStart == -1 || score < minScore {
        minScore, minStart := score, starts[n];
      }
    }
    assert starts[0] in starts;
  }

  /** The arcs of the cycle but the one that starts at `cut`. */
  method ArcsWithout(cycle: map<Vertex, Vertex>, starts: seq<Vertex>, cut: Vertex) returns (final: seq<Arc>)
    requires Distinct(starts) && forall u :: u in starts ==> u in cycle
    requires forall u, v :: u in cycle && v in cycle && cycle[u] == cycle[v] ==> u == v
    ensures DistinctChildren(final)
    ensures forall a :: a in final <==> a.parent in starts && a.parent != cut && a.child == cycle[a.parent]
  {
    final := [];
    for n := 0 to |starts|
      invariant DistinctChildren(final)
      invariant forall a :: a in final <==> a.parent in starts[..n] && a.parent != cut && a.child == cycle[a.parent]
    {
      if starts[n] != cut {
        NewChild(final, starts[..n], cycle, cut, starts[n]);
        final := [Arc(starts[n], cycle[starts[n]])] + final;
      }
      assert starts[..n + 1] == starts[..n] + [starts[n]];
    }
    assert starts[..|starts|] == starts;
  }

  lemma NewChild(final: seq<Arc>, done: seq<Vertex>, cycle: map<Vertex, Vertex>, cut: Vertex, u: Vertex)
    requires DistinctChildren(final) && u in cycle && u !in done
    requires forall v :: v in done ==> v in cycle
    requires forall u, v :: u in cycle && v in cycle && cycle[u] == cycle[v] ==> u == v
    requires forall a :: a in final <==> a.parent in done && a.parent != cut && a.child == cycle[a.parent]
    ensures DistinctChildren([Arc(u, cycle[u])] + final)
  {
    assert forall k :: 0 <= k < |final| ==> final[k] in final;
  }

  lemma OtherThan(some: set<Vertex>, v: Vertex)
    ensures |some| >= 2 ==> exists u :: u in some && u != v
  {
    if u :| u in some && u != v {
    } else {
      assert some <= {v};
      if v in some {
        assert some == {v};
      } else {
        assert some == {};
      }
    }
  }

  lemma OneIsLeft(cycle: map<Vertex, Vertex>, cut: Vertex, final: seq<Arc>)
    requires forall a :: a in final <==> a.parent in cycle && a.parent != cut && a.child == cycle[a.parent]
    ensures |cycle.Keys| >= 2 ==> final != []
  {
    OtherThan(cycle.Keys, cut);
    if u :| u in cycle.Keys && u != cut {
      assert Arc(u, cycle[u]) in final;
    }
  }

  lemma TwoOnCycle(f: map<Vertex, Vertex>, cyc: seq<Vertex>, cycle: map<Vertex, Vertex>)
    requires Cycle(f, cyc) && CycleTable(f, cyc, cycle)
    ensures |cycle.Keys| >= 2
  {
    assert cyc[0] in cycle.Keys && cyc[1] in cycle.Keys;
    var two := {cyc[0], cyc[1]};
    assert |cycle.Keys| == |two| + |cycle.Keys - two|;
  }

  /** The fallback for a contracted graph without any arc: the cycle, cut at a lightest arc. */
  method CutLightestArc(scores: ScoreTable, cycle: map<Vertex, Vertex>) returns (final: seq<Arc>)
    requires -1 !in cycle && cycle.Keys != {}
    requires forall u :: u in cycle ==> Arc(u, cycle[u]) in scores.entries
    requires forall u, v :: u in cycle && v in cycle && cycle[u] == cycle[v] ==> u == v
    ensures DistinctChildren(final)
    ensures exists cut :: cut in cycle
                          && (forall u :: u in cycle ==>
                                            scores.entries[Arc(cut, cycle[cut])] <= scores.entries[Arc(u, cycle[u])])
                          && (forall a :: a in final <==>
                                            a.parent in cycle && a.parent != cut && a.child == cycle[a.parent])
    ensures |cycle.Keys| >= 2 ==> final != []
  {
    var starts := KeysOf(cycle);
    forall u
      ensures u in starts <==> u in cycle
    {
      assert u in starts <==> u in VertexSet(starts);
    }
    ghost var some :| some in cycle.Keys;
    assert some in starts;
    var cut := LightestStart(scores, cycle, starts);
    final := ArcsWithout(cycle, starts, cut);
    OneIsLeft(cycle, cut, final);
  }

  method ExpandCycle(edges: seq<Arc>, departures: map<Vertex, Vertex>, arrivals: map<Vertex, Vertex>,
                     front: array<Vertex>, cycleVertices: seq<Vertex>, ghost f: map<Vertex, Vertex>,
                     ghost behind: map<Arc, Arc>)
    returns (final: seq<Arc>)
    requires |cycleVertices| > 0 && Follows(front[..], f, cycleVertices)
    requires DistinctChildren(edges)
    requires forall e :: e in edges ==> e.parent != e.child
    requires forall e :: e in edges ==>
      (e.parent == cycleVertices[0] ==> e.child in departures) && (e.child == cycleVertices[0] ==> e.parent in arrivals)
    requires forall e :: e in edges ==> e in behind && behind[e] == RealArc(e, cycleVertices[0], departures, arrivals)
    requires forall e :: e in edges ==> MergedArc(VertexSet(cycleVertices), cycleVertices[0], behind[e]) == e
    ensures Expanded(final, edges, behind, f, VertexSet(cycleVertices))
  {
    var rep := cycleVertices[0];
    var images := ExpandEdges(edges, rep, departures, arrivals);
    assert forall k :: 0 <= k < |edges| ==> edges[k] in edges;
    ExpandedChildren(edges, images, behind, VertexSet(cycleVertices), rep);
    final := AddCycleArcs(images, front, cycleVertices, f);
  }

  /** Outside `vs` the table is as it was. */
  ghost predicate SameBeyond(vs: set<Vertex>, e0: map<Arc, real>, e1: map<Arc, real>) {
    forall a: Arc {:trigger SameAt(e0, e1, a)} :: !(a.parent in vs && a.child in vs) ==> SameAt(e0, e1, a)
  }

  lemma BeyondBoth(vs: set<Vertex>, c: set<Vertex>, rep: Vertex, e0: map<Arc, real>, e1: map<Arc, real>,
                   e2: map<Arc, real>)
    requires rep in c && c <= vs && SameExcept(e0, e1, rep, vs - c) && SameBeyond(Rest(vs, c, rep), e1, e2)
    ensures SameBeyond(vs, e0, e2)
    ensures 0 !in c ==> forall a: Arc {:trigger SameAt(GraphOf(vs, e0), e2, a)} ::
      a.parent in c && a.child in c && a.parent != a.child ==> SameAt(GraphOf(vs, e0), e2, a)
  {
    forall a: Arc | !(a.parent in vs && a.child in vs) || (a.parent in c && a.child in c && a.parent != a.child)
      ensures SameAt(e0, e2, a)
    {
      assert SameAt(e0, e1, a) && SameAt(e1, e2, a);
    }
    forall a: Arc | 0 !in c && a.parent in c && a.child in c && a.parent != a.child
      ensures SameAt(GraphOf(vs, e0), e2, a)
    {
      assert SameAt(e0, e2, a);
    }
  }

  /** What the solver promises of its result, for the graph `g` it was given: it is empty for an empty graph only. */
  ghost predicate Solved(vs: set<Vertex>, g: Graph, edges: seq<Arc>) {
    && DistinctChildren(edges)
    && ArcSet(edges) <= g.Keys
    && (g.Keys != {} ==> edges != [])
    && (AllReachable(vs, g) ==> Optimal(vs, g, Heads(edges)))
  }

  lemma NotEmpty(cyc: seq<Vertex>, final: seq<Arc>)
    requires cyc != [] && forall v :: v in VertexSet(cyc) ==> IsChild(final, v)
    ensures final != []
  {
    assert cyc[0] in VertexSet(cyc);
  }

  lemma ExpansionSolves(vs: set<Vertex>, g: Graph, f: map<Vertex, Vertex>, cyc: seq<Vertex>, c: set<Vertex>, s: Shrunk,
                        edges: seq<Arc>, final: seq<Arc>)
    requires Cycle(f, cyc) && c == VertexSet(cyc) && c <= vs
    requires IsContraction(g, f, c, s)
    requires Solved(Rest(vs, c, s.rep), s.graph, edges)
    requires forall e :: e in edges ==> e in s.behind && s.behind[e] in g && MergedArc(c, s.rep, s.behind[e]) == e
    requires Expanded(final, edges, s.behind, f, c)
    ensures Solved(vs, g, final)
  {
    NotEmpty(cyc, final);
    forall a | a in final
      ensures a in g
    {
      if a.child in c && a.parent == f[a.child] {
        assert Arc(f[a.child], a.child) in g;
      }
    }
    if AllReachable(vs, g) {
      ContractionAllReachable(vs, g, f, c, s);
      ExpandIsOptimal(vs, g, f, cyc, c, s, Heads(edges));
      var rank :| Tree(Rest(vs, c, s.rep), s.graph, Heads(edges), rank);
      HeadsExpanded(vs, g, f, c, s, edges, final);
    }
  }

  lemma HasHead(vs: set<Vertex>, g: Graph, edges: seq<Arc>, rank: map<Vertex, nat>, v: Vertex)
    requires Tree(vs, g, Heads(edges), rank) && v in vs && v != 0
    ensures edges != []
  {
    HeadsFromArcs(edges, v);
  }

  /** When every vertex is reachable, the contracted problem has an answer and the fallback is not taken. */
  lemma ContractedHasEdges(vs: set<Vertex>, g: Graph, f: map<Vertex, Vertex>, c: set<Vertex>, s: Shrunk,
                           edges: seq<Arc>)
    requires IsContraction(g, f, c, s) && c <= vs && AllReachable(vs, g)
    requires Solved(Rest(vs, c, s.rep), s.graph, edges)
    ensures edges != []
  {
    ContractionAllReachable(vs, g, f, c, s);
    var rank :| Tree(Rest(vs, c, s.rep), s.graph, Heads(edges), rank);
    HasHead(Rest(vs, c, s.rep), s.graph, edges, rank, s.rep);
  }

  lemma FrontFollows(front: seq<Vertex>, vs: set<Vertex>, cycleVertices: seq<Vertex>)
    requires forall v :: v in cycleVertices ==> v in FrontMap(front, vs)
    ensures Follows(front, FrontMap(front, vs), cycleVertices)
  {
  }

  lemma AcyclicIsSolved(vs: set<Vertex>, g: Graph, f: map<Vertex, Vertex>, rank: map<Vertex, nat>, edges: seq<Arc>)
    requires 0 in vs && GreedyMap(vs, g, f)
    requires Settled(f, rank) && vs <= rank.Keys
    requires DistinctChildren(edges) && Heads(edges) == f
    ensures Solved(vs, g, edges)
  {
    if a :| a in g.Keys {
      HeadsFromArcs(edges, a.child);
    }
    forall a | a in edges
      ensures a in g
    {
      HeadsAt(edges, a);
      assert Arc(f[a.child], a.child) in g;
    }
    if AllReachable(vs, g) {
      AcyclicCase(vs, g, f, rank);
    }
  }

  /** The cycle's own entries have not been touched, so the fallback finds the scores it asks for. */
  lemma CutReady(g: Graph, e: map<Arc, real>, f: map<Vertex, Vertex>, cyc: seq<Vertex>, cycle: map<Vertex, Vertex>)
    requires HasCycleArcs(g, f, VertexSet(cyc)) && CycleTable(f, cyc, cycle)
    requires forall a: Arc {:trigger SameAt(g, e, a)} ::
      a.parent in VertexSet(cyc) && a.child in VertexSet(cyc) && a.parent != a.child ==> SameAt(g, e, a)
    requires forall v {:trigger f[v]} :: v in cyc && v in f ==> f[v] != v
    ensures forall u :: u in cycle ==> Arc(u, cycle[u]) in e
    ensures forall u, v :: u in cycle && v in cycle && cycle[u] == cycle[v] ==> u == v
  {
    forall u | u in cycle
      ensures Arc(u, cycle[u]) in e
    {
      assert Arc(f[cycle[u]], cycle[u]) in g && SameAt(g, e, Arc(u, cycle[u]));
    }
  }

  lemma ExpandReady(g: Graph, f: map<Vertex, Vertex>, c: set<Vertex>, s: Shrunk,
                    departures: map<Vertex, Vertex>, arrivals: map<Vertex, Vertex>, edges: seq<Arc>)
    requires IsContraction(g, f, c, s) && ArcSet(edges) <= s.graph.Keys && Recorded(s, departures, arrivals)
    ensures forall e :: e in edges ==> e.parent != e.child
    ensures forall e :: e in edges ==>
      (e.parent == s.rep ==> e.child in departures) && (e.child == s.rep ==> e.parent in arrivals)
    ensures forall e :: e in edges ==> e in s.behind && s.behind[e] in g && MergedArc(c, s.rep, s.behind[e]) == e
    ensures forall e :: e in edges ==> s.behind[e] == RealArc(e, s.rep, departures, arrivals)
  {
    forall e | e in edges
      ensures e in s.graph
    {
      assert e in ArcSet(edges);
    }
  }

  lemma CutIsSolved(vs: set<Vertex>, g: Graph, f: map<Vertex, Vertex>, cyc: seq<Vertex>, cycle: map<Vertex, Vertex>,
                    final: seq<Arc>)
    requires HasCycleArcs(g, f, VertexSet(cyc)) && CycleTable(f, cyc, cycle)
    requires DistinctChildren(final) && !AllReachable(vs, g)
    requires final != [] && forall a :: a in final ==> a.parent in cycle && a.child == cycle[a.parent]
    ensures Solved(vs, g, final)
  {
    forall a | a in final
      ensures a in g
    {
      assert Arc(f[a.child], a.child) in g;
    }
  }

  /** Turns the answer for the contracted graph into one for the whole graph. */
  method Unfold(scores: ScoreTable, cycle: map<Vertex, Vertex>, edges: seq<Arc>, front: array<Vertex>,
                cycleVertices: seq<Vertex>,
                departures: map<Vertex, Vertex>, arrivals: map<Vertex, Vertex>,
                ghost vs: set<Vertex>, ghost g: Graph, ghost f: map<Vertex, Vertex>, ghost cyc: seq<Vertex>,
                ghost s: Shrunk)
    returns (finalEdges: seq<Arc>)
    requires Cycle(f, cyc) && CycleTable(f, cyc, cycle) && -1 !in cycle
    requires |cycleVertices| > 0 && VertexSet(cycleVertices) == VertexSet(cyc) && cycleVertices[0] == s.rep
    requires Follows(front[..], f, cycleVertices)
    requires IsContraction(g, f, VertexSet(cyc), s) && VertexSet(cyc) <= vs
    requires Recorded(s, departures, arrivals)
    requires Solved(Rest(vs, VertexSet(cyc), s.rep), s.graph, edges)
    requires forall u :: u in cycle ==> Arc(u, cycle[u]) in scores.entries
    requires forall u, v :: u in cycle && v in cycle && cycle[u] == cycle[v] ==> u == v
    ensures Solved(vs, g, finalEdges)
  {
    if edges == [] {
      if AllReachable(vs, g) {
        ContractedHasEdges(vs, g, f, VertexSet(cyc), s, edges);
      }
      assert s.rep in VertexSet(cyc);
      TwoOnCycle(f, cyc, cycle);
      finalEdges := CutLightestArc(scores, cycle);
      CutIsSolved(vs, g, f, cyc, cycle, finalEdges);
    } else {
      ExpandReady(g, f, VertexSet(cyc), s, departures, arrivals, edges);
      finalEdges := ExpandCycle(edges, departures, arrivals, front, cycleVertices, f, s.behind);
      ExpansionSolves(vs, g, f, cyc, VertexSet(cyc), s, edges, finalEdges);
    }
  }

  method SolveCycle(numVertices: nat, scores: ScoreTable, currentVertices: seq<Vertex>, front: array<Vertex>,
                    cycle: map<Vertex, Vertex>, ghost cyc: seq<Vertex>, ghost f: map<Vertex, Vertex>)
    returns (finalEdges: seq<Arc>)
    requires Vertices(numVertices, currentVertices)
    requires NonNegative(GraphOf(VertexSet(currentVertices), scores.entries))
    requires front.Length == numVertices && f == FrontMap(front[..], VertexSet(currentVertices))
    requires GreedyMap(VertexSet(currentVertices), GraphOf(VertexSet(currentVertices), scores.entries), f)
    requires Cycle(f, cyc) && CycleTable(f, cyc, cycle)
    modifies scores
    ensures Solved(VertexSet(currentVertices), GraphOf(VertexSet(currentVertices), old(scores.entries)), finalEdges)
    ensures SameBeyond(VertexSet(currentVertices), old(scores.entries), scores.entries)
    decreases VertexSet(currentVertices), 0
  {
    ghost var vs, c, e0 := VertexSet(currentVertices), VertexSet(cyc), scores.entries;
    ghost var g := GraphOf(vs, e0);
    CycleIsBest(vs, g, f, cyc);
    var cycleVertices := KeysOf(cycle);
    assert cyc[0] in c && cyc[1] in c;
    var rep := cycleVertices[0];
    assert rep in VertexSet(cycleVertices);
    ghost var was := front[..];
    FrontFollows(was, vs, cycleVertices);
    var departures, arrivals := Contract(scores, front, currentVertices, cycleVertices, f);
    assert front[..] == was;
    ghost var e1 := scores.entries;
    ghost var s := Contracted(vs, c, rep, e1, departures, arrivals);
    TableIsContracted(vs, g, f, c, rep, e1, departures, arrivals);
    var remaining := RemoveMerged(currentVertices, cycleVertices);
    RemainingIsRest(currentVertices, cycleVertices, remaining);
    RestIsSmaller(vs, f, cyc, rep);
    var edges := Solve(numVertices, scores, remaining);
    assert front[..] == was;
    BeyondBoth(vs, c, rep, e0, e1, scores.entries);
    CutReady(g, scores.entries, f, cyc, cycle);
    finalEdges := Unfold(scores, cycle, edges, front, cycleVertices, departures, arrivals, vs, g, f, cyc, s);
  }

  lemma RestIsSmaller(vs: set<Vertex>, f: map<Vertex, Vertex>, cyc: seq<Vertex>, rep: Vertex)
    requires Cycle(f, cyc) && VertexSet(cyc) <= vs && rep in VertexSet(cyc)
    ensures Rest(vs, VertexSet(cyc), rep) < vs
  {
    var other := if cyc[0] == rep then cyc[1] else cyc[0];
    assert other in VertexSet(cyc) && other !in Rest(vs, VertexSet(cyc), rep);
  }

  lemma RemainingIsRest(current: seq<Vertex>, cycleVertices: seq<Vertex>, remaining: seq<Vertex>)
    requires |cycleVertices| > 0 && VertexSet(cycleVertices) <= VertexSet(current) - {0}
    requires forall v :: v in remaining <==> v in current && (v !in cycleVertices || v == cycleVertices[0])
    ensures VertexSet(remaining) == Rest(VertexSet(current), VertexSet(cycleVertices), cycleVertices[0])
  {
    assert cycleVertices[0] in VertexSet(cycleVertices);
    assert forall v :: v in VertexSet(cycleVertices) ==> v in VertexSet(current);
  }

  /**
   The solver. When every vertex can be reached from 0, the result is a spanning arborescence of greatest
   total score; when not, no spanning arborescence exists and the result is not one.
   */
  method Solve(numVertices: nat, scores: ScoreTable, currentVertices: seq<Vertex>) returns (edges: seq<Arc>)
    requires Vertices(numVertices, currentVertices)
    requires NonNegative(GraphOf(VertexSet(currentVertices), scores.entries))
    modifies scores
    ensures Solved(VertexSet(currentVertices), GraphOf(VertexSet(currentVertices), old(scores.entries)), edges)
    ensures AllReachable(VertexSet(currentVertices), GraphOf(VertexSet(currentVertices), old(scores.entries))) <==>
            Maximum(VertexSet(currentVertices), old(scores.entries), edges)
    ensures SameBeyond(VertexSet(currentVertices), old(scores.entries), scores.entries)
    decreases VertexSet(currentVertices), 1
  {
    ghost var vs, e0 := VertexSet(currentVertices), scores.entries;
    ghost var g := GraphOf(vs, e0);
    var front := new Vertex[numVertices](_ => -1);
    PickBestIncoming(front, scores, currentVertices);
    ghost var f := FrontMap(front[..], vs);
    GreedyFront(front[..], g, vs);
    var cycle, cyc, rank := FindCycle(front, currentVertices, f);
    if cycle.None? {
      edges := CollectEdges(front, currentVertices);
      AcyclicIsSolved(vs, g, f, rank, edges);
    } else {
      edges := SolveCycle(numVertices, scores, currentVertices, front, cycle.value, cyc, f);
    }
    SolvedIffReachable(vs, e0, edges);
  }

  lemma SolvedIffReachable(vs: set<Vertex>, entries: map<Arc, real>, edges: seq<Arc>)
    requires Solved(vs, GraphOf(vs, entries), edges)
    ensures AllReachable(vs, GraphOf(vs, entries)) <==> Maximum(vs, entries, edges)
    ensures AllReachable(vs, GraphOf(vs, entries)) <==> SpanningArborescence(vs, 0, edges)
  {
    if AllReachable(vs, GraphOf(vs, entries)) {
      OptimalIsMaximum(vs, entries, edges);
    }
    if SpanningArborescence(vs, 0, edges) {
      ArborescenceMeansReachable(vs, GraphOf(vs, entries), edges);
    }
  }
}
