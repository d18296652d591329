/**
 The static oracle of the swap-based parser: from a gold tree it picks moves that build exactly
 that tree, never signals an error, and only ever picks a move that is offered.
 */
module Oracle {
  import opened Options
  import opened Sequences
  import opened Arborescences
  import opened Inversions
  import opened ShiftReduce
  import opened ProjectiveOrder
  import opened SwapFree

  // ----- The oracle's questions. `plus` is the gold arc list with the arc from -1 to the gold root in front.

  predicate Complete(plus: seq<Arc>, arcs: seq<Arc>, v: Vertex) {
    forall a :: a in plus && a.parent == v ==> a in arcs
  }

  predicate LeftArcOk(plus: seq<Arc>, s: State) {
    |s.stack| >= 2 && Arc(s.stack[0], s.stack[1]) in plus && Complete(plus, s.arcs, s.stack[1])
  }

  predicate RightArcOk(plus: seq<Arc>, s: State) {
    |s.stack| >= 2 && Arc(s.stack[1], s.stack[0]) in plus && Complete(plus, s.arcs, s.stack[0])
  }

  /** `None` is the source's error on a vertex that the gold tree does not have. */
  function SwapOk(order: seq<Vertex>, s: State): Option<bool> {
    if |s.stack| >= 2 && s.stack[1] != ROOT && s.stack[0] != ROOT then
      var j, i := s.stack[0], s.stack[1];
      if j in order && i in order then Some(Pos(order, j) < Pos(order, i)) else None
    else Some(false)
  }

  function SelectAction(plus: seq<Arc>, order: seq<Vertex>, s: State): Option<Action> {
    if LeftArcOk(plus, s) then Some(LeftArc)
    else if RightArcOk(plus, s) then Some(RightArc)
    else
      match SwapOk(order, s)
      case None => None
      case Some(b) => Some(if b then Swap else Shift)
  }

  // ----- The run.

  /** The oracle's action sequence from `s`, with the state it ends in; `None` if any step signals an error. */
  function OracleRun(plus: seq<Arc>, order: seq<Vertex>, s: State): Option<(seq<Action>, State)>
    requires Rooted(s)
    decreases Potential(s)
  {
    if Terminated(s) then Some(([], s))
    else
      match SelectAction(plus, order, s)
      case None => None
      case Some(action) =>
        match Step(s, action)
        case None => None
        case Some(next) =>
          StepRooted(s, action);
          match OracleRun(plus, order, next)
          case None => None
          case Some((actions, final)) => Some(([action] + actions, final))
  }

  /** The vertices of an arc list, ascending and without repetition. */
  function ListVertices(arcs: seq<Arc>): seq<Vertex> {
    Sorted(Deduplicated(Endpoints(arcs)))
  }

  function Endpoints(arcs: seq<Arc>): seq<Vertex> {
    if arcs == [] then [] else [arcs[0].parent, arcs[0].child] + Endpoints(arcs[1..])
  }

  /** Keeps the last of equal elements. */
  function Deduplicated(s: seq<Vertex>): seq<Vertex> {
    if s == [] then []
    else if s[0] in s[1..] then Deduplicated(s[1..])
    else [s[0]] + Deduplicated(s[1..])
  }

  lemma {:induction false} EndpointsAre(arcs: seq<Arc>, v: Vertex)
    ensures v in Endpoints(arcs) <==> exists a :: a in arcs && (a.parent == v || a.child == v)
  {
    if arcs != [] {
      EndpointsAre(arcs[1..], v);
      assert arcs == [arcs[0]] + arcs[1..];
    }
  }

  lemma {:induction false} DeduplicatedOnce(s: seq<Vertex>, v: Vertex)
    ensures v in Deduplicated(s) <==> v in s
    ensures multiset(Deduplicated(s))[v] <= 1
  {
    if s != [] {
      DeduplicatedOnce(s[1..], v);
      assert s == [s[0]] + s[1..];
      assert v in Deduplicated(s[1..]) <==> v in multiset(Deduplicated(s[1..]));
      if s[0] !in s[1..] && v == s[0] {
        assert multiset([s[0]] + Deduplicated(s[1..])) == multiset{s[0]} + multiset(Deduplicated(s[1..]));
      }
    }
  }

  lemma VertexListed(vs: set<Vertex>, root: Vertex, arcs: seq<Arc>, v: Vertex)
    requires SpanningArborescence(vs, root, arcs) && arcs != []
    ensures v in ListVertices(arcs) <==> v in vs
  {
    var d := Deduplicated(Endpoints(arcs));
    SortedSorts(d);
    assert v in multiset(Sorted(d)) <==> v in multiset(d);
    EndpointsAre(arcs, v);
    DeduplicatedOnce(Endpoints(arcs), v);
    FindRootFinds(vs, root, arcs);
    if v in vs && v != root {
      var n: nat :| ReachedIn(ArcSet(arcs), root, v, n);
      WalkEndsInChild(arcs, root, v, n);
    }
  }

  lemma VerticesListed(vs: set<Vertex>, root: Vertex, arcs: seq<Arc>)
    requires SpanningArborescence(vs, root, arcs) && arcs != []
    ensures forall v :: v in ListVertices(arcs) <==> v in vs
    ensures forall i, j :: 0 <= i < j < |ListVertices(arcs)| ==> ListVertices(arcs)[i] < ListVertices(arcs)[j]
  {
    forall v
      ensures v in ListVertices(arcs) <==> v in vs
    {
      VertexListed(vs, root, arcs, v);
    }
    var d := Deduplicated(Endpoints(arcs));
    SortedSorts(d);
    forall v
      ensures multiset(Sorted(d))[v] <= 1
    {
      DeduplicatedOnce(Endpoints(arcs), v);
    }
    StrictlyAscending(Sorted(d));
  }

  // ----- What the run keeps.

  /** A gold tree with everything the oracle derives from it. */
  datatype RawGold = RawGold(t: Tree, plus: seq<Arc>, order: seq<Vertex>, vertices: seq<Vertex>)

  ghost predicate GoldOk(g: RawGold) {
    && ROOT !in g.t.vs
    && g.plus == [Arc(ROOT, g.t.root)] + g.t.arcs
    && (forall v :: v in g.order <==> v in g.t.vs)
    && (forall v :: v in g.vertices <==> v in g.t.vs)
    && Sentence(g.vertices)
  }

  type Gold = g: RawGold | GoldOk(g)
    ghost witness
      RawGold(RawTree({0}, 0, [], map[], map[0 := 0], 0, map[0 := []], map[0 := []]), [Arc(-1, 0)], [0], [0])

  /** The two top vertices of a stack could be joined by a gold arc whose child is complete. */
  ghost predicate Attachable(g: Gold, arcs: seq<Arc>, j: Vertex, i: Vertex) {
    || (Arc(j, i) in g.plus && Complete(g.plus, arcs, i))
    || (Arc(i, j) in g.plus && Complete(g.plus, arcs, j))
  }

  /** Only gold arcs so far, and whoever has been attached was complete. */
  ghost predicate GoldSoFar(g: Gold, arcs: seq<Arc>) {
    forall a :: a in arcs ==> a in g.plus && Complete(g.plus, arcs, a.child)
  }

  /** Below its top, the stack descends in projective order. */
  ghost predicate SortedBelow(g: Gold, stack: seq<Vertex>) {
    forall k, m :: 1 <= k < m < |stack| - 1 ==> Pos(g.order, stack[m]) < Pos(g.order, stack[k])
  }

  /** No two neighbours below the top could be joined. */
  ghost predicate NoneBuried(g: Gold, arcs: seq<Arc>, stack: seq<Vertex>) {
    forall k :: 1 <= k < |stack| - 1 ==> !Attachable(g, arcs, stack[k], stack[k + 1])
  }

  /** Two vertices that stand out of linear order stand in projective order. */
  ghost predicate LineOk(g: Gold, line: seq<Vertex>) {
    forall a, b :: 0 <= a < b < |line| && line[a] > line[b] ==> Pos(g.order, line[a]) < Pos(g.order, line[b])
  }

  ghost predicate OracleInv(g: Gold, s: State) {
    && Inv(g.vertices, s)
    && GoldSoFar(g, s.arcs)
    && SortedBelow(g, s.stack)
    && NoneBuried(g, s.arcs, s.stack)
    && LineOk(g, Line(s)[1..])
  }

  lemma OracleStarts(g: Gold)
    requires forall i, j :: 0 <= i < j < |g.vertices| ==> g.vertices[i] < g.vertices[j]
    ensures OracleInv(g, Initial(g.vertices))
  {
    InitialInv(g.vertices);
    var s := Initial(g.vertices);
    assert s.stack[1..] == [];
    assert Line(s)[1..] == g.vertices;
  }

  lemma CompleteGrows(plus: seq<Arc>, arcs: seq<Arc>, a: Arc, v: Vertex)
    ensures Complete(plus, arcs, v) ==> Complete(plus, [a] + arcs, v)
    ensures v != a.parent && Complete(plus, [a] + arcs, v) ==> Complete(plus, arcs, v)
  {
  }

  lemma AttachKeepsGold(g: Gold, arcs: seq<Arc>, a: Arc)
    requires GoldSoFar(g, arcs) && a in g.plus && Complete(g.plus, arcs, a.child)
    ensures GoldSoFar(g, [a] + arcs)
  {
    forall b | b in [a] + arcs
      ensures b in g.plus && Complete(g.plus, [a] + arcs, b.child)
    {
      CompleteGrows(g.plus, arcs, a, b.child);
    }
  }

  /** After an attachment the new top takes the place of two vertices; below it nothing changes. */
  lemma AttachKeepsStack(g: Gold, arcs: seq<Arc>, a: Arc, top: Vertex, other: Vertex, other': Vertex, rest: seq<Vertex>)
    requires SortedBelow(g, [other, other'] + rest) && NoneBuried(g, arcs, [other, other'] + rest)
    requires a.parent !in rest
    ensures SortedBelow(g, [top] + rest) && NoneBuried(g, [a] + arcs, [top] + rest)
  {
    var before, after := [other, other'] + rest, [top] + rest;
    forall k, m | 1 <= k < m < |after| - 1
      ensures Pos(g.order, after[m]) < Pos(g.order, after[k])
    {
      assert after[m] == before[m + 1] && after[k] == before[k + 1];
    }
    forall k | 1 <= k < |after| - 1
      ensures !Attachable(g, [a] + arcs, after[k], after[k + 1])
    {
      assert after[k] == before[k + 1] == rest[k - 1] && after[k + 1] == before[(k + 1) + 1] == rest[k];
      CompleteGrows(g.plus, arcs, a, after[k]);
      CompleteGrows(g.plus, arcs, a, after[k + 1]);
    }
  }

  lemma LineWithout(g: Gold, p: seq<Vertex>, x: Vertex, q: seq<Vertex>)
    requires LineOk(g, p + [x] + q)
    ensures LineOk(g, p + q)
  {
    var before, after := p + [x] + q, p + q;
    forall a, b | 0 <= a < b < |after| && after[a] > after[b]
      ensures Pos(g.order, after[a]) < Pos(g.order, after[b])
    {
      var a', b' := if a < |p| then a else a + 1, if b < |p| then b else b + 1;
      assert before[a'] == after[a] && before[b'] == after[b];
    }
  }

  lemma LineSwapped(g: Gold, p: seq<Vertex>, i: Vertex, j: Vertex, q: seq<Vertex>)
    requires LineOk(g, p + [i, j] + q) && Pos(g.order, j) < Pos(g.order, i)
    ensures LineOk(g, p + [j, i] + q)
  {
    var before, after := p + [i, j] + q, p + [j, i] + q;
    var n := |p|;
    forall a, b | 0 <= a < b < |after| && after[a] > after[b]
      ensures Pos(g.order, after[a]) < Pos(g.order, after[b])
    {
      var a' := if a == n then n + 1 else if a == n + 1 then n else a;
      var b' := if b == n then n + 1 else if b == n + 1 then n else b;
      assert before[a'] == after[a] && before[b'] == after[b];
    }
  }

  lemma PosUnequal(g: Gold, u: Vertex, v: Vertex)
    requires u in g.t.vs && v in g.t.vs && u != v
    ensures Pos(g.order, u) != Pos(g.order, v)
  {
  }

  // ----- Each move keeps the invariant.

  lemma TopTwo(s: State)
    requires |s.stack| >= 2
    ensures s.stack == [s.stack[0], s.stack[1]] + s.stack[2..]
  {
  }

  /** The vertices of the stack, but for the root at its bottom, belong to the sentence and stand there once. */
  lemma OnStack(g: Gold, s: State, k: nat)
    requires Inv(g.vertices, s) && k < |s.stack|
    ensures k < |s.stack| - 1 ==> s.stack[k] in g.t.vs && s.stack[k] != ROOT
    ensures forall m :: k < m < |s.stack| ==> s.stack[m] != s.stack[k]
    ensures s.stack[k] !in Children(s.arcs)
  {
    var x := s.stack[k];
    InOnePlace(g.vertices, s, x);
    PlacedVertex(g.vertices, s, x);
    assert s.stack == s.stack[..k] + [x] + s.stack[k + 1..];
    forall m | k < m < |s.stack|
      ensures s.stack[m] != x
    {
      assert s.stack[m] in multiset(s.stack[k + 1..]) by { assert s.stack[m] == s.stack[k + 1..][m - k - 1]; }
    }
    assert x in Children(s.arcs) <==> x in multiset(Children(s.arcs));
  }

  lemma LeftArcKeeps(g: Gold, s: State)
    requires OracleInv(g, s) && LeftArcOk(g.plus, s)
    ensures Step(s, LeftArc).Some? && OracleInv(g, Step(s, LeftArc).value)
  {
    var j, i, rest := s.stack[0], s.stack[1], s.stack[2..];
    TopTwo(s);
    GoldChild(g, j, i);
    OnStack(g, s, 0);
    assert j !in rest by {
      assert forall m :: 0 <= m < |rest| ==> rest[m] == s.stack[m + 2];
    }
    StepKeepsInv(g.vertices, s, LeftArc);
    AttachKeepsGold(g, s.arcs, Arc(j, i));
    AttachKeepsStack(g, s.arcs, Arc(j, i), j, j, i, rest);
    var p := Reverse(rest)[1..];
    MoveOnLine(s, j, i, rest, LeftArc, p);
    LineSplit(p, i, j, s.buffer);
    LineWithout(g, p, i, [j] + s.buffer);
  }

  lemma LineSplit(p: seq<Vertex>, i: Vertex, j: Vertex, q: seq<Vertex>)
    ensures p + [i, j] + q == p + [i] + ([j] + q) && p + [j] + q == p + ([j] + q)
    ensures p + [i, j] + q == (p + [i]) + [j] + q
  {
  }

  /** In the gold tree only proper vertices are children. */
  lemma GoldChild(g: Gold, p: Vertex, c: Vertex)
    requires Arc(p, c) in g.plus
    ensures c in g.t.vs && c != ROOT
    ensures p in g.t.vs || (p == ROOT && c == g.t.root)
  {
    if Arc(p, c) in g.t.arcs {
    } else {
      assert Arc(p, c) == g.plus[0];
    }
  }

  lemma RightArcKeeps(g: Gold, s: State)
    requires OracleInv(g, s) && RightArcOk(g.plus, s)
    ensures Step(s, RightArc).Some? && OracleInv(g, Step(s, RightArc).value)
  {
    var j, i, rest := s.stack[0], s.stack[1], s.stack[2..];
    TopTwo(s);
    OnStack(g, s, 1);
    assert i !in rest by {
      assert forall m :: 0 <= m < |rest| ==> rest[m] == s.stack[m + 2];
    }
    StepKeepsInv(g.vertices, s, RightArc);
    AttachKeepsGold(g, s.arcs, Arc(i, j));
    AttachKeepsStack(g, s.arcs, Arc(i, j), i, j, i, rest);
    RightArcLine(g, s, j, i, rest);
  }

  lemma RightArcLine(g: Gold, s: State, j: Vertex, i: Vertex, rest: seq<Vertex>)
    requires s.stack == [j, i] + rest && LineOk(g, Line(s)[1..])
    ensures LineOk(g, Line(Step(s, RightArc).value)[1..])
  {
    if rest == [] {
      var t := Step(s, RightArc).value;
      assert t.stack == [i] && Line(s)[1..] == [] + [j] + s.buffer && Line(t)[1..] == [] + s.buffer;
      LineWithout(g, [], j, s.buffer);
    } else {
      var p := Reverse(rest)[1..];
      MoveOnLine(s, j, i, rest, RightArc, p);
      LineSplit(p, i, j, s.buffer);
      LineWithout(g, p + [i], j, s.buffer);
    }
  }

  lemma SwapEnabled(g: Gold, s: State)
    requires OracleInv(g, s) && SwapOk(g.order, s) == Some(true)
    ensures s.stack[1] < s.stack[0] && Step(s, Swap).Some?
  {
    var j, i, rest := s.stack[0], s.stack[1], s.stack[2..];
    TopTwo(s);
    assert rest != [];
    TopOfLine(s, j, i, rest);
    SwapAscends(g, Reverse(rest)[1..], i, j, s.buffer, Line(s)[1..]);
  }

  lemma SwapKeepsLine(g: Gold, s: State)
    requires OracleInv(g, s) && SwapOk(g.order, s) == Some(true) && Step(s, Swap).Some?
    ensures LineOk(g, Line(Step(s, Swap).value)[1..])
  {
    var j, i, rest := s.stack[0], s.stack[1], s.stack[2..];
    TopTwo(s);
    var p := Reverse(rest)[1..];
    MoveOnLine(s, j, i, rest, Swap, p);
    LineSwapped(g, p, i, j, s.buffer);
  }

  lemma SwapKeeps(g: Gold, s: State)
    requires OracleInv(g, s) && SwapOk(g.order, s) == Some(true)
    ensures Step(s, Swap).Some? && OracleInv(g, Step(s, Swap).value)
  {
    SwapEnabled(g, s);
    StepKeepsInv(g.vertices, s, Swap);
    TopTwo(s);
    SwapKeepsStack(g, s.arcs, s.stack[0], s.stack[1], s.stack[2..]);
    SwapKeepsLine(g, s);
  }

  /** The guard `i < j` of the move holds whenever the oracle asks for it. */
  lemma SwapAscends(g: Gold, p: seq<Vertex>, i: Vertex, j: Vertex, q: seq<Vertex>, line: seq<Vertex>)
    requires line == p + [i, j] + q && LineOk(g, line)
    requires Pos(g.order, j) < Pos(g.order, i)
    ensures i < j
  {
    assert line[|p|] == i && line[|p| + 1] == j;
  }

  lemma SwapKeepsStack(g: Gold, arcs: seq<Arc>, j: Vertex, i: Vertex, rest: seq<Vertex>)
    requires SortedBelow(g, [j, i] + rest) && NoneBuried(g, arcs, [j, i] + rest)
    ensures SortedBelow(g, [j] + rest) && NoneBuried(g, arcs, [j] + rest)
  {
    var before, after := [j, i] + rest, [j] + rest;
    forall k, m | 1 <= k < m < |after| - 1
      ensures Pos(g.order, after[m]) < Pos(g.order, after[k])
    {
      assert after[m] == before[m + 1] && after[k] == before[k + 1];
    }
    forall k | 1 <= k < |after| - 1
      ensures !Attachable(g, arcs, after[k], after[k + 1])
    {
      assert after[k] == before[k + 1] && after[k + 1] == before[(k + 1) + 1];
    }
  }

  /** When no swap is called for, the whole stack descends in projective order. */
  lemma SortedWithTop(g: Gold, s: State)
    requires OracleInv(g, s) && SwapOk(g.order, s) == Some(false)
    ensures forall k, m :: 0 <= k < m < |s.stack| - 1 ==> Pos(g.order, s.stack[m]) < Pos(g.order, s.stack[k])
  {
    if |s.stack| >= 3 {
      OnStack(g, s, 0);
      OnStack(g, s, 1);
      PosUnequal(g, s.stack[0], s.stack[1]);
      assert Pos(g.order, s.stack[1]) < Pos(g.order, s.stack[0]);
    }
  }

  lemma ShiftKeepsStack(g: Gold, arcs: seq<Arc>, b: Vertex, stack: seq<Vertex>)
    requires forall k, m :: 0 <= k < m < |stack| - 1 ==> Pos(g.order, stack[m]) < Pos(g.order, stack[k])
    requires NoneBuried(g, arcs, stack)
    requires |stack| >= 2 ==> !Attachable(g, arcs, stack[0], stack[1])
    ensures SortedBelow(g, [b] + stack) && NoneBuried(g, arcs, [b] + stack)
  {
    var after := [b] + stack;
    forall k, m | 1 <= k < m < |after| - 1
      ensures Pos(g.order, after[m]) < Pos(g.order, after[k])
    {
      assert after[m] == stack[m - 1] && after[k] == stack[k - 1];
    }
    forall k | 1 <= k < |after| - 1
      ensures !Attachable(g, arcs, after[k], after[k + 1])
    {
      assert after[k] == stack[k - 1] && after[k + 1] == stack[k];
    }
  }

  lemma ShiftKeeps(g: Gold, s: State)
    requires OracleInv(g, s) && s.buffer != []
    requires !LeftArcOk(g.plus, s) && !RightArcOk(g.plus, s) && SwapOk(g.order, s) == Some(false)
    ensures Step(s, Shift).Some? && OracleInv(g, Step(s, Shift).value)
  {
    SortedWithTop(g, s);
    StepKeepsInv(g.vertices, s, Shift);
    ShiftOnLine(s);
    ShiftKeepsStack(g, s.arcs, s.buffer[0], s.stack);
  }

  // ----- Progress: with an empty buffer some move other than a shift is always called for.

  ghost predicate Projective(g: Gold) {
    && g.order == InOrder(g.t, g.t.root)
    && DistinctChildren(g.plus)
  }

  /** The stack without the root at its bottom. */
  ghost function Body(s: State): (body: seq<Vertex>)
    requires Rooted(s)
    ensures s.stack == body + [ROOT]
  {
    s.stack[..|s.stack| - 1]
  }

  /** The vertices still on the stack, without the root. */
  ghost function Remaining(s: State): set<Vertex>
    requires Rooted(s)
  {
    VertexSet(Body(s))
  }

  /** From its top on, the stack descends in projective order. */
  ghost predicate Descends(g: Gold, body: seq<Vertex>) {
    forall k, m :: 0 <= k < m < |body| ==> Pos(g.order, body[m]) < Pos(g.order, body[k])
  }

  lemma BodyDescends(g: Gold, s: State)
    requires Rooted(s)
    requires forall k, m :: 0 <= k < m < |s.stack| - 1 ==> Pos(g.order, s.stack[m]) < Pos(g.order, s.stack[k])
    ensures Descends(g, Body(s))
  {
  }

  lemma SplitStack(g: Gold, s: State, v: Vertex)
    requires Inv(g.vertices, s) && s.buffer == [] && v in g.t.vs
    ensures v in Remaining(s) <==> v !in Children(s.arcs)
  {
    InOnePlace(g.vertices, s, v);
    var body := Body(s);
    assert v in multiset(g.vertices) + multiset{ROOT};
    assert v in multiset(s.stack) + multiset(s.buffer) + multiset(Children(s.arcs));
    assert v in body <==> v in s.stack;
    assert v in s.stack <==> v in multiset(s.stack);
    assert v in Children(s.arcs) <==> v in multiset(Children(s.arcs));
  }

  lemma AttachedChild(g: Gold, s: State, v: Vertex) returns (a: Arc)
    requires GoldSoFar(g, s.arcs) && v in Children(s.arcs)
    ensures a in s.arcs && a.child == v && a in g.plus && Complete(g.plus, s.arcs, v)
  {
    var k :| 0 <= k < |s.arcs| && Children(s.arcs)[k] == v;
    a := s.arcs[k];
  }

  lemma AttachedWithChildren(g: Gold, s: State, e: Arc)
    requires GoldSoFar(g, s.arcs) && e in g.t.arcs && e.parent in Children(s.arcs)
    ensures e.child in Children(s.arcs)
  {
    var a := AttachedChild(g, s, e.parent);
    assert e in g.plus;
    var k :| 0 <= k < |s.arcs| && s.arcs[k] == e;
    assert Children(s.arcs)[k] == e.child;
  }

  /** A state in which only the stack is left, with gold arcs alone built so far. */
  ghost predicate StackOnly(g: Gold, s: State) {
    Inv(g.vertices, s) && GoldSoFar(g, s.arcs) && s.buffer == []
  }

  lemma RemainderUpClosed(g: Gold, s: State)
    requires StackOnly(g, s)
    ensures UpClosed(g.t, Remaining(s))
  {
    forall e | e in g.t.arcs && e.child in Remaining(s)
      ensures e.parent in Remaining(s)
    {
      SplitStack(g, s, e.parent);
      SplitStack(g, s, e.child);
      if e.parent in Children(s.arcs) {
        AttachedWithChildren(g, s, e);
      }
    }
  }

  lemma LeafIsComplete(g: Gold, s: State, v: Vertex)
    requires StackOnly(g, s) && DistinctChildren(g.plus)
    requires v in g.t.vs && LeafIn(g.t, Remaining(s), v)
    ensures Complete(g.plus, s.arcs, v)
  {
    forall e | e in g.plus && e.parent == v
      ensures e in s.arcs
    {
      assert e in g.t.arcs;
      SplitStack(g, s, e.child);
      var a := AttachedChild(g, s, e.child);
      SameArc(g.plus, a, e);
    }
  }

  lemma {:induction false} PosOfPrefix(p: seq<Vertex>, a: Vertex, q: seq<Vertex>)
    requires a !in p
    ensures Pos(p + [a] + q, a) == |p|
  {
    if p == [] {
      assert p + [a] + q == [a] + q;
    } else {
      assert (p + [a] + q)[1..] == p[1..] + [a] + q;
      PosOfPrefix(p[1..], a, q);
    }
  }

  /** The index of a vertex that the projective order lists between two pieces. */
  lemma PosInOrder(g: Gold, p: seq<Vertex>, a: Vertex, q: seq<Vertex>)
    requires Projective(g) && g.order == p + [a] + q
    ensures Pos(g.order, a) == |p|
  {
    OrderIsPermutation(g.t, a);
    assert multiset(g.order) == multiset(p) + multiset{a} + multiset(q);
    assert a in p <==> a in multiset(p);
    PosOfPrefix(p, a, q);
  }

  lemma PosOfNeighbours(g: Gold, r: set<Vertex>, p: seq<Vertex>, a: Vertex, mid: seq<Vertex>, b: Vertex, q: seq<Vertex>)
    requires Projective(g) && Neighbours(g.order, r, p, a, mid, b, q)
    ensures Pos(g.order, a) == |p| && Pos(g.order, b) == |p| + 1 + |mid|
    ensures forall x :: x in g.order && |p| < Pos(g.order, x) < |p| + 1 + |mid| ==> x !in r
  {
    AppendThree(p, a, mid, b, q);
    PosInOrder(g, p, a, mid + [b] + q);
    PosInOrder(g, p + [a] + mid, b, q);
    forall x | x in g.order && |p| < Pos(g.order, x) < |p| + 1 + |mid|
      ensures x !in r
    {
      var n := Pos(g.order, x);
      assert g.order[n] == mid[n - |p| - 1];
    }
  }

  lemma NotBetween(g: Gold, r: set<Vertex>, a: Vertex, b: Vertex, x: Vertex)
    requires NextIn(g, r, a, b) && x in r && x in g.order
    ensures Pos(g.order, x) <= Pos(g.order, a) || Pos(g.order, b) <= Pos(g.order, x)
  {
  }

  lemma DescendsAt(g: Gold, body: seq<Vertex>, k: nat, m: nat)
    requires Descends(g, body) && k < |body| && m < |body|
    ensures k < m ==> Pos(g.order, body[m]) < Pos(g.order, body[k])
    ensures m < k ==> Pos(g.order, body[k]) < Pos(g.order, body[m])
  {
  }

  /** On a sorted stack, the next vertex after `body[m]` in projective order is the one above it. */
  lemma NextIsAbove(g: Gold, body: seq<Vertex>, k: nat, m: nat)
    requires Descends(g, body) && k < |body| && m < |body|
    requires forall v :: v in body ==> v in g.order
    requires NextIn(g, VertexSet(body), body[m], body[k])
    ensures m == k + 1
  {
    DescendsAt(g, body, k, m);
    assert k < m;
    NotBetween(g, VertexSet(body), body[m], body[k], body[k + 1]);
    DescendsAt(g, body, k, k + 1);
    DescendsAt(g, body, k + 1, m);
  }

  /** Neighbours in the order of what remains stand next to each other on a sorted stack. */
  lemma NeighboursOnStack(g: Gold, body: seq<Vertex>, a: Vertex, b: Vertex) returns (k: nat)
    requires Descends(g, body) && a in body && b in body
    requires forall v :: v in body ==> v in g.order
    requires NextIn(g, VertexSet(body), a, b)
    ensures k < |body| - 1 && body[k] == b && body[k + 1] == a
  {
    k :| 0 <= k < |body| && body[k] == b;
    var m :| 0 <= m < |body| && body[m] == a;
    NextIsAbove(g, body, k, m);
  }

  lemma AppendThree(p: seq<Vertex>, a: Vertex, mid: seq<Vertex>, b: Vertex, q: seq<Vertex>)
    ensures p + [a] + mid + [b] + q == p + [a] + (mid + [b] + q)
    ensures p + [a] + mid + [b] + q == (p + [a] + mid) + [b] + q
  {
  }

  lemma RootRemains(g: Gold, s: State)
    requires StackOnly(g, s) && |s.stack| >= 2 && Projective(g)
    ensures g.t.root in Remaining(s)
  {
    RemainderUpClosed(g, s);
    OnStack(g, s, 0);
    var v := s.stack[0];
    assert v == Body(s)[0];
    OrderIsPermutation(g.t, v);
    ListedHeadInPart(g.t, Remaining(s), g.t.root, v);
  }

  lemma RemainderInOrder(g: Gold, s: State)
    requires Inv(g.vertices, s)
    ensures forall v :: v in Remaining(s) ==> v in g.t.vs && v in g.order
  {
    forall v | v in Remaining(s)
      ensures v in g.t.vs && v in g.order
    {
      var m :| 0 <= m < |Body(s)| && Body(s)[m] == v;
      OnStack(g, s, m);
    }
  }

  /** Some two neighbours in the order of what remains can be joined. */
  lemma AttachablePair(g: Gold, s: State) returns (a: Vertex, b: Vertex)
    requires StackOnly(g, s) && Projective(g)
    requires g.t.root in Remaining(s) && Branching(g.t, Remaining(s), g.t.root)
    ensures a in Remaining(s) && b in Remaining(s) && NextIn(g, Remaining(s), a, b)
    ensures Attachable(g, s.arcs, b, a)
  {
    RemainderUpClosed(g, s);
    a, b := NextInOrder(g, Remaining(s));
    LeafPairAttachable(g, s, a, b);
  }

  /** The stack's vertices at `k` and `k + 1` could be joined. */
  ghost predicate AttachableAt(g: Gold, s: State, k: nat) {
    k < |s.stack| - 1 && Attachable(g, s.arcs, s.stack[k], s.stack[k + 1])
  }

  lemma AttachableBranch(g: Gold, s: State) returns (k: nat)
    requires StackOnly(g, s) && Projective(g)
    requires g.t.root in Remaining(s) && Branching(g.t, Remaining(s), g.t.root)
    requires Descends(g, Body(s))
    ensures AttachableAt(g, s, k)
  {
    var a, b := AttachablePair(g, s);
    RemainderInOrder(g, s);
    k := NeighboursOnStack(g, Body(s), a, b);
    assert s.stack[k] == b && s.stack[k + 1] == a;
  }

  /** Among what remains of the tree, a leaf and its parent follow one another in projective order. */
  lemma NextInOrder(g: Gold, r: set<Vertex>) returns (a: Vertex, b: Vertex)
    requires Projective(g) && UpClosed(g.t, r) && g.t.root in r && Branching(g.t, r, g.t.root)
    ensures a in r && b in r && LeafPair(g.t, r, a, b) && NextIn(g, r, a, b)
  {
    var p, mid, q;
    p, a, mid, b, q := AdjacentLeaf(g.t, r, g.t.root);
    PosOfNeighbours(g, r, p, a, mid, b, q);
  }

  /** Of the vertices of `r`, `b` is the next one after `a` in projective order. */
  ghost predicate NextIn(g: Gold, r: set<Vertex>, a: Vertex, b: Vertex) {
    && Pos(g.order, a) < Pos(g.order, b)
    && forall x :: x in g.order && Pos(g.order, a) < Pos(g.order, x) < Pos(g.order, b) ==> x !in r
  }

  lemma AttachableSomewhere(g: Gold, s: State) returns (k: nat)
    requires StackOnly(g, s) && |s.stack| >= 2 && Projective(g) && Descends(g, Body(s))
    ensures AttachableAt(g, s, k)
  {
    RootRemains(g, s);
    if Branching(g.t, Remaining(s), g.t.root) {
      k := AttachableBranch(g, s);
    } else {
      k := 0;
      OnlyRootRemains(g, s);
    }
  }

  lemma LeafPairAttachable(g: Gold, s: State, a: Vertex, b: Vertex)
    requires StackOnly(g, s) && DistinctChildren(g.plus)
    requires LeafPair(g.t, Remaining(s), a, b)
    ensures Attachable(g, s.arcs, b, a)
  {
    if Arc(a, b) in g.t.arcs && LeafIn(g.t, Remaining(s), b) {
      LeafIsComplete(g, s, b);
      assert Arc(a, b) in g.plus;
    } else {
      LeafIsComplete(g, s, a);
      assert Arc(b, a) in g.plus;
    }
  }

  lemma OnlyRootRemains(g: Gold, s: State)
    requires StackOnly(g, s) && |s.stack| >= 2 && Projective(g)
    requires !Branching(g.t, Remaining(s), g.t.root)
    ensures AttachableAt(g, s, 0)
  {
    OnlyRootOnStack(g, s);
    NotBranchingIsLeaf(g.t, Remaining(s), g.t.root);
    LeafIsComplete(g, s, g.t.root);
    assert g.plus[0] == Arc(ROOT, g.t.root);
  }

  lemma OnlyRootOnStack(g: Gold, s: State)
    requires StackOnly(g, s) && |s.stack| >= 2 && Projective(g)
    requires !Branching(g.t, Remaining(s), g.t.root)
    ensures s.stack == [g.t.root, ROOT]
  {
    forall m | 0 <= m < |s.stack| - 1
      ensures s.stack[m] == g.t.root
    {
      OnStack(g, s, m);
      assert s.stack[m] == Body(s)[m];
      OrderIsPermutation(g.t, s.stack[m]);
    }
    OnStack(g, s, 0);
    assert s.stack[|s.stack| - 2] == g.t.root;
    assert |s.stack| == 2;
  }

  lemma ShiftHasBuffer(g: Gold, s: State)
    requires OracleInv(g, s) && Projective(g) && !Terminated(s)
    requires !LeftArcOk(g.plus, s) && !RightArcOk(g.plus, s) && SwapOk(g.order, s) == Some(false)
    ensures s.buffer != []
  {
    if s.buffer == [] {
      SortedWithTop(g, s);
      BodyDescends(g, s);
      assert |s.stack| >= 2;
      var k := AttachableSomewhere(g, s);
    }
  }

  // ----- Completeness.

  /** The state after a list of moves, or `None` if one of them is not enabled. */
  function Replay(s: State, actions: seq<Action>): Option<State>
    decreases |actions|
  {
    if actions == [] then Some(s)
    else
      match Step(s, actions[0])
      case None => None
      case Some(next) => Replay(next, actions[1..])
  }

  /** Replayed from `s`, every action is found among the moves offered at its turn. */
  ghost predicate AllOffered(s: State, actions: seq<Action>)
    decreases |actions|
  {
    actions == [] ||
    (&& actions[0] in PossibleActions(s)
     && Step(s, actions[0]).Some?
     && AllOffered(Step(s, actions[0]).value, actions[1..]))
  }

  lemma OraclePositions(g: Gold, s: State)
    requires Inv(g.vertices, s)
    ensures SwapOk(g.order, s).Some?
  {
    if |s.stack| >= 2 && s.stack[1] != ROOT && s.stack[0] != ROOT {
      PlacedVertex(g.vertices, s, s.stack[0]);
      PlacedVertex(g.vertices, s, s.stack[1]);
    }
  }

  /** In every state of the run the oracle picks a move, the move is enabled and offered, and the invariant survives. */
  lemma OracleStep(g: Gold, s: State)
    requires OracleInv(g, s) && Projective(g) && !Terminated(s)
    ensures SelectAction(g.plus, g.order, s).Some?
    ensures var action := SelectAction(g.plus, g.order, s).value;
            && Step(s, action).Some?
            && action in PossibleActions(s)
            && OracleInv(g, Step(s, action).value)
  {
    OraclePositions(g, s);
    var action := SelectAction(g.plus, g.order, s).value;
    if LeftArcOk(g.plus, s) {
      LeftArcKeeps(g, s);
    } else if RightArcOk(g.plus, s) {
      RightArcKeeps(g, s);
    } else if SwapOk(g.order, s) == Some(true) {
      SwapKeeps(g, s);
    } else {
      ShiftHasBuffer(g, s);
      ShiftKeeps(g, s);
    }
    OfferedIffEnabled(s, action);
  }

  /** Replayed from `s`, every action is the one the oracle picks at its turn. */
  ghost predicate OracleChose(plus: seq<Arc>, order: seq<Vertex>, s: State, actions: seq<Action>)
    decreases |actions|
  {
    actions == [] ||
    (&& SelectAction(plus, order, s) == Some(actions[0])
     && Step(s, actions[0]).Some?
     && OracleChose(plus, order, Step(s, actions[0]).value, actions[1..]))
  }

  lemma ReplayFrom(s: State, action: Action, next: State, rest: seq<Action>)
    requires Step(s, action) == Some(next)
    ensures Replay(s, [action] + rest) == Replay(next, rest)
    ensures action in PossibleActions(s) && AllOffered(next, rest) ==> AllOffered(s, [action] + rest)
    ensures forall plus, order :: SelectAction(plus, order, s) == Some(action) && OracleChose(plus, order, next, rest)
              ==> OracleChose(plus, order, s, [action] + rest)
  {
    assert ([action] + rest)[1..] == rest;
  }

  lemma {:induction false} OracleRunSucceeds(g: Gold, s: State)
    requires OracleInv(g, s) && Projective(g)
    ensures OracleRun(g.plus, g.order, s).Some?
    ensures var (actions, final) := OracleRun(g.plus, g.order, s).value;
            && Terminated(final) && OracleInv(g, final)
            && Replay(s, actions) == Some(final)
            && AllOffered(s, actions) && OracleChose(g.plus, g.order, s, actions)
    decreases Potential(s)
  {
    if !Terminated(s) {
      OracleStep(g, s);
      var action := SelectAction(g.plus, g.order, s).value;
      var next := Step(s, action).value;
      StepRooted(s, action);
      OracleRunSucceeds(g, next);
      ReplayFrom(s, action, next, OracleRun(g.plus, g.order, next).value.0);
    }
  }

  lemma TerminalIsGold(g: Gold, s: State)
    requires OracleInv(g, s) && Terminated(s) && DistinctChildren(g.plus)
    ensures ArcSet(s.arcs) == ArcSet(g.plus)
    ensures DistinctChildren(s.arcs)
  {
    TerminalChildren(g.vertices, s);
    ChildrenDistinct(g.vertices, s);
    forall e | e in g.plus
      ensures e in s.arcs
    {
      GoldChild(g, e.parent, e.child);
      var a := AttachedChild(g, s, e.child);
      SameArc(g.plus, a, e);
    }
  }

  /** Everything the oracle derives from a gold tree. */
  ghost function Derived(t: Tree): RawGold {
    RawGold(t, [Arc(ROOT, t.root)] + t.arcs, InOrder(t, t.root), ListVertices(t.arcs))
  }

  lemma AscendingIsSentence(vertices: seq<Vertex>)
    requires ROOT !in vertices && forall i, j :: 0 <= i < j < |vertices| ==> vertices[i] < vertices[j]
    ensures Sentence(vertices)
  {
  }

  lemma PartsAreGold(g: RawGold)
    requires ROOT !in g.t.vs && g.plus == [Arc(ROOT, g.t.root)] + g.t.arcs
    requires forall v :: v in g.order <==> v in g.t.vs
    requires forall v :: v in g.vertices <==> v in g.t.vs
    requires Sentence(g.vertices)
    ensures GoldOk(g)
  {
  }

  lemma DerivedOk(t: Tree)
    requires SpanningArborescence(t.vs, t.root, t.arcs) && t.arcs != [] && ROOT !in t.vs
    ensures GoldOk(Derived(t))
    ensures forall i, j :: 0 <= i < j < |ListVertices(t.arcs)| ==> ListVertices(t.arcs)[i] < ListVertices(t.arcs)[j]
  {
    VerticesListed(t.vs, t.root, t.arcs);
    AscendingIsSentence(ListVertices(t.arcs));
    OrderMembers(t);
    PartsAreGold(Derived(t));
  }

  lemma GoldFrom(t: Tree) returns (g: Gold)
    requires SpanningArborescence(t.vs, t.root, t.arcs) && t.arcs != [] && ROOT !in t.vs
    ensures g.t == t && g.plus == [Arc(ROOT, t.root)] + t.arcs
    ensures g.order == InOrder(t, t.root) && g.vertices == ListVertices(t.arcs)
    ensures Projective(g) && OracleInv(g, Initial(g.vertices))
  {
    DerivedOk(t);
    g := Derived(t);
    PlusDistinct(t.vs, t.root, t.arcs);
    OracleStarts(g);
  }

  lemma PlusDistinct(vs: set<Vertex>, root: Vertex, arcs: seq<Arc>)
    requires SpanningArborescence(vs, root, arcs)
    ensures DistinctChildren([Arc(ROOT, root)] + arcs)
  {
    assert forall k :: 0 <= k < |arcs| ==> arcs[k] in arcs;
  }

  /** The outcome of an oracle run that builds exactly the gold tree `arcs` with root `root`. */
  ghost predicate BuildsGold(root: Vertex, arcs: seq<Arc>, actions: seq<Action>, final: State) {
    && Replay(Initial(ListVertices(arcs)), actions) == Some(final)
    && AllOffered(Initial(ListVertices(arcs)), actions)
    && Terminated(final)
    && DistinctChildren(final.arcs)
    && ArcSet(final.arcs) == ArcSet(arcs) + {Arc(ROOT, root)}
  }

  /**
   The oracle's run over a gold tree: from the ascending sentence it reaches the terminal state, no step signals
   an error, every action is among those offered at its turn, and the arcs built are the gold arcs plus the root arc.
   */
  lemma OracleComplete(t: Tree)
    requires SpanningArborescence(t.vs, t.root, t.arcs) && t.arcs != [] && ROOT !in t.vs
    ensures var run := OracleRun([Arc(ROOT, t.root)] + t.arcs, InOrder(t, t.root), Initial(ListVertices(t.arcs)));
            && run.Some? && BuildsGold(t.root, t.arcs, run.value.0, run.value.1)
            && OracleChose([Arc(ROOT, t.root)] + t.arcs, InOrder(t, t.root), Initial(ListVertices(t.arcs)), run.value.0)
  {
    var g := GoldFrom(t);
    OracleRunSucceeds(g, Initial(g.vertices));
    var (actions, final) := OracleRun(g.plus, g.order, Initial(g.vertices)).value;
    TerminalIsGold(g, final);
    PlusSet(t.arcs, Arc(ROOT, t.root));
  }

  lemma PlusSet(arcs: seq<Arc>, a: Arc)
    ensures ArcSet([a] + arcs) == ArcSet(arcs) + {a}
  {
  }

  lemma ArcOnce(arcs: seq<Arc>, a: Arc)
    requires DistinctChildren(arcs)
    ensures multiset(arcs)[a] == if a in arcs then 1 else 0
  {
    if k :| 0 <= k < |arcs| && arcs[k] == a {
      assert arcs == arcs[..k] + [a] + arcs[k + 1..];
      assert a !in arcs[..k] && a !in arcs[k + 1..];
      assert multiset(arcs) == multiset(arcs[..k]) + multiset{a} + multiset(arcs[k + 1..]);
    }
  }

  /** A chooser that follows the oracle wherever the oracle picks a move. */
  ghost predicate FollowsOracle(plus: seq<Arc>, order: seq<Vertex>, actionFn: (State, seq<Action>) -> Action) {
    forall s: State, actions: seq<Action> {:trigger actionFn(s, actions)} ::
      SelectAction(plus, order, s).Some? ==> actionFn(s, actions) == SelectAction(plus, order, s).value
  }

  lemma GoldWithoutRoot(g: Gold, final: State)
    requires ArcSet(final.arcs) == ArcSet(g.plus) && DistinctChildren(final.arcs) && DistinctChildren(g.t.arcs)
    ensures multiset(NonRoot(final.arcs)) == multiset(g.t.arcs)
  {
    NonRootKeeps(final.arcs);
    forall a
      ensures multiset(NonRoot(final.arcs))[a] == multiset(g.t.arcs)[a]
    {
      ArcOnce(final.arcs, a);
      ArcOnce(g.t.arcs, a);
      assert a in ArcSet(final.arcs) <==> a in ArcSet(g.plus);
      if a in g.t.arcs {
        assert a.parent in g.t.vs;
      }
    }
  }

  /** Parsing with the oracle as the chooser ends, and the last state of its stream holds the gold arcs. */
  lemma {:induction false} OracleStream(g: Gold, s: State, actionFn: (State, seq<Action>) -> Action)
    requires OracleInv(g, s) && Projective(g) && !Terminated(s) && FollowsOracle(g.plus, g.order, actionFn)
    ensures var states := ConfigurationStream(s, actionFn);
            states.Some? && multiset(LastArcs(s, actionFn)) == multiset(g.t.arcs)
    decreases Potential(s)
  {
    OracleStep(g, s);
    var action := actionFn(s, PossibleActions(s));
    var next := Step(s, action).value;
    StepRooted(s, action);
    StreamStepsOn(s, actionFn, next);
    if Terminated(next) {
      LastMove(g.vertices, s, action);
      TerminalIsGold(g, next);
      GoldWithoutRoot(g, next);
    } else {
      OracleStream(g, next, actionFn);
    }
  }

  /** The parser, with the oracle as its chooser, reports each gold arc once and nothing else. */
  lemma OracleParseIsGold(t: Tree, actionFn: (State, seq<Action>) -> Action)
    requires SpanningArborescence(t.vs, t.root, t.arcs) && t.arcs != [] && ROOT !in t.vs
    requires FollowsOracle([Arc(ROOT, t.root)] + t.arcs, InOrder(t, t.root), actionFn)
    ensures var result := ParseResult(ListVertices(t.arcs), actionFn);
            result.Some? && multiset(result.value) == multiset(t.arcs)
  {
    var g := GoldFrom(t);
    assert t.root in g.vertices;
    OracleStream(g, Initial(g.vertices), actionFn);
    ResultIffStream(g.vertices, actionFn);
  }

  // ----- How many moves.

  function Count(actions: seq<Action>, action: Action): nat {
    if actions == [] then 0 else (if actions[0] == action then 1 else 0) + Count(actions[1..], action)
  }

  /** What a list of moves does to the arcs and the buffer. */
  lemma {:induction false} MovesAddUp(s: State, actions: seq<Action>)
    requires Replay(s, actions).Some?
    ensures var t := Replay(s, actions).value;
            && |t.arcs| == |s.arcs| + Count(actions, LeftArc) + Count(actions, RightArc)
            && |t.buffer| + Count(actions, Shift) == |s.buffer| + Count(actions, Swap)
    ensures |actions|
            == Count(actions, LeftArc) + Count(actions, RightArc) + Count(actions, Shift) + Count(actions, Swap)
    decreases |actions|
  {
    if actions != [] {
      MovesAddUp(Step(s, actions[0]).value, actions[1..]);
    }
  }

  lemma {:induction false} ReplayKeepsInv(vertices: seq<Vertex>, s: State, actions: seq<Action>)
    requires Sentence(vertices) && Inv(vertices, s) && Replay(s, actions).Some?
    ensures Inv(vertices, Replay(s, actions).value)
    decreases |actions|
  {
    if actions != [] {
      StepKeepsInv(vertices, s, actions[0]);
      ReplayKeepsInv(vertices, Step(s, actions[0]).value, actions[1..]);
    }
  }

  lemma TerminalArcCount(vertices: seq<Vertex>, s: State)
    requires Inv(vertices, s) && Terminated(s)
    ensures |s.arcs| == |vertices|
  {
    assert |multiset(s.stack) + multiset(s.buffer) + multiset(Children(s.arcs))| == 1 + |s.arcs|;
    assert |multiset(vertices) + multiset{ROOT}| == |vertices| + 1;
  }

  /** Any complete run over n vertices takes two moves a vertex and two more for every swap. */
  lemma CompleteRunLength(vertices: seq<Vertex>, actions: seq<Action>)
    requires Sentence(vertices) && Replay(Initial(vertices), actions).Some?
    requires Terminated(Replay(Initial(vertices), actions).value)
    ensures |actions| == 2 * |vertices| + 2 * Count(actions, Swap)
  {
    InitialInv(vertices);
    ReplayKeepsInv(vertices, Initial(vertices), actions);
    TerminalArcCount(vertices, Replay(Initial(vertices), actions).value);
    MovesAddUp(Initial(vertices), actions);
  }

  lemma {:induction false} PosAscends(order: seq<Vertex>, i: Vertex, j: Vertex)
    requires (forall k, m :: 0 <= k < m < |order| ==> order[k] < order[m]) && i in order && j in order && i < j
    ensures Pos(order, i) < Pos(order, j)
  {
    assert order[Pos(order, i)] == i && order[Pos(order, j)] == j;
  }

  lemma NotSwap(g: Gold, s: State)
    requires OracleInv(g, s) && forall k, m :: 0 <= k < m < |g.order| ==> g.order[k] < g.order[m]
    ensures SelectAction(g.plus, g.order, s) != Some(Swap)
  {
    if SwapOk(g.order, s) == Some(true) {
      SwapEnabled(g, s);
      PosAscends(g.order, s.stack[1], s.stack[0]);
    }
  }

  /** No move is enabled in a terminal state. */
  lemma TerminalStays(s: State, action: Action)
    requires Step(s, action).Some?
    ensures !Terminated(s)
  {
  }

  /** When the projective order is the linear one, the oracle never swaps. */
  lemma {:induction false} NoSwapInOrder(g: Gold, s: State, actions: seq<Action>)
    requires OracleInv(g, s) && Projective(g) && OracleChose(g.plus, g.order, s, actions) && g.order == g.vertices
    requires forall k, m :: 0 <= k < m < |g.order| ==> g.order[k] < g.order[m]
    requires Replay(s, actions).Some? && Terminated(Replay(s, actions).value)
    ensures Count(actions, Swap) == 0
    decreases |actions|
  {
    if actions != [] {
      NotSwap(g, s);
      TerminalStays(s, actions[0]);
      OracleStep(g, s);
      NoSwapInOrder(g, Step(s, actions[0]).value, actions[1..]);
    }
  }

  lemma LinearHasNoSwap(g: Gold, actions: seq<Action>)
    requires SpanningArborescence(g.t.vs, g.t.root, g.t.arcs) && g.t.arcs != [] && g.vertices == ListVertices(g.t.arcs)
    requires OracleInv(g, Initial(g.vertices)) && Projective(g)
             && OracleChose(g.plus, g.order, Initial(g.vertices), actions)
    requires Replay(Initial(g.vertices), actions).Some? && Terminated(Replay(Initial(g.vertices), actions).value)
    ensures g.order == g.vertices ==> Count(actions, Swap) == 0
  {
    if g.order == g.vertices {
      VerticesListed(g.t.vs, g.t.root, g.t.arcs);
      NoSwapInOrder(g, Initial(g.vertices), actions);
    }
  }

  lemma {:induction false} SwapFreeStays(vertices: seq<Vertex>, s: State, actions: seq<Action>)
    requires Sentence(vertices) && Inv(vertices, s) && Straight(s)
    requires Replay(s, actions).Some? && Count(actions, Swap) == 0
    ensures Straight(Replay(s, actions).value)
    decreases |actions|
  {
    if actions != [] {
      StepKeepsInv(vertices, s, actions[0]);
      StraightStep(vertices, s, actions[0]);
      SwapFreeStays(vertices, Step(s, actions[0]).value, actions[1..]);
    }
  }

  /** Without a swap only projective trees can be built from an ascending sentence, whatever chose the moves. */
  lemma SwapFreeIsProjective(vertices: seq<Vertex>, actions: seq<Action>, final: State)
    requires Sentence(vertices) && Ordered(vertices, VertexLess)
    requires Replay(Initial(vertices), actions) == Some(final) && Terminated(final) && Count(actions, Swap) == 0
    ensures ArcsAscend(final.arcs)
    ensures ProjectiveTree(VertexSet(vertices) + {ROOT}, final.arcs)
  {
    InitialInv(vertices);
    StraightAtFirst(vertices);
    SwapFreeStays(vertices, Initial(vertices), actions);
    ReplayKeepsInv(vertices, Initial(vertices), actions);
    TerminalIsArborescence(vertices, final);
    var t := TreeOf(VertexSet(vertices) + {ROOT}, ROOT, final.arcs);
    AscendIsProjective(t, final.arcs);
  }

  lemma AscendingIsLinear(vs: set<Vertex>, root: Vertex, arcs: seq<Arc>, order: seq<Vertex>)
    requires SpanningArborescence(vs, root, arcs) && arcs != []
    requires forall v :: v in order <==> v in vs
    ensures Ordered(order, VertexLess) <==> order == ListVertices(arcs)
  {
    VerticesListed(vs, root, arcs);
    LinearIff(vs, order, ListVertices(arcs));
  }

  lemma LinearIff(vs: set<Vertex>, order: seq<Vertex>, vertices: seq<Vertex>)
    requires forall v :: v in order <==> v in vs
    requires forall v :: v in vertices <==> v in vs
    requires Ordered(vertices, VertexLess)
    ensures Ordered(order, VertexLess) <==> order == vertices
  {
    if Ordered(order, VertexLess) {
      SameAscending(order, vertices);
    }
  }

  /** For a projective tree, and for no other, the projective order is the ascending list of the vertices. */
  lemma ListingIsLinear(t: Tree)
    requires SpanningArborescence(t.vs, t.root, t.arcs) && t.arcs != [] && SourceChildren(t)
    ensures ProjectiveTree(t.vs, t.arcs) <==> InOrder(t, t.root) == ListVertices(t.arcs)
  {
    ProjectiveIff(t);
    OrderMembers(t);
    AscendingIsLinear(t.vs, t.root, t.arcs, InOrder(t, t.root));
  }

  lemma ProjectiveIffNoSwap(t: Tree, actions: seq<Action>, final: State)
    requires SpanningArborescence(t.vs, t.root, t.arcs) && t.arcs != [] && SourceChildren(t) && ROOT !in t.vs
    requires BuildsGold(t.root, t.arcs, actions, final)
    requires OracleChose([Arc(ROOT, t.root)] + t.arcs, InOrder(t, t.root), Initial(ListVertices(t.arcs)), actions)
    ensures ProjectiveTree(t.vs, t.arcs) <==> Count(actions, Swap) == 0
  {
    var g := GoldFrom(t);
    if Count(actions, Swap) == 0 {
      VerticesListed(t.vs, t.root, t.arcs);
      SwapFreeIsProjective(g.vertices, actions, final);
      AscendIsProjective(t, final.arcs);
    }
    if ProjectiveTree(t.vs, t.arcs) {
      ListingIsLinear(t);
      LinearHasNoSwap(g, actions);
    }
  }

  /**
   The oracle run over a gold tree of n vertices takes 2n moves and two more for every swap. With the children in
   the source's order it takes exactly 2n when the tree is projective, and more when it is not.
   */
  lemma OracleRunLength(t: Tree)
    requires SpanningArborescence(t.vs, t.root, t.arcs) && t.arcs != [] && ROOT !in t.vs
    ensures var vertices := ListVertices(t.arcs);
            var run := OracleRun([Arc(ROOT, t.root)] + t.arcs, InOrder(t, t.root), Initial(vertices));
            && run.Some?
            && |run.value.0| == 2 * |vertices| + 2 * Count(run.value.0, Swap)
            && (SourceChildren(t) ==> (|run.value.0| == 2 * |vertices| <==> ProjectiveTree(t.vs, t.arcs)))
  {
    var g := GoldFrom(t);
    OracleComplete(t);
    var (actions, final) := OracleRun(g.plus, g.order, Initial(g.vertices)).value;
    CompleteRunLength(g.vertices, actions);
    if SourceChildren(t) {
      ProjectiveIffNoSwap(t, actions, final);
    }
  }

  // ----- Training.

  /** The action sequence the oracle finds for a gold arc list; `None` where the source signals an error. */
  method SearchOracleActionSequence(arcs: seq<Arc>, ghost vs: set<Vertex>, ghost root: Vertex)
    returns (actions: Option<seq<Action>>, ghost final: State, ghost t: Tree)
    requires SpanningArborescence(vs, root, arcs) && arcs != [] && ROOT !in vs
    ensures actions.Some? && BuildsGold(root, arcs, actions.value, final)
    ensures t.vs == vs && t.root == root && t.arcs == arcs && SourceChildren(t) && Listing(vs, arcs, InOrder(t, root))
    ensures OracleChose([Arc(ROOT, root)] + arcs, InOrder(t, root), Initial(ListVertices(arcs)), actions.value)
  {
    FindRootFinds(vs, root, arcs);
    var plus := [Arc(ROOT, FindRoot(arcs).value)] + arcs;
    var order;
    order, t := ListOrderedVertices(arcs, vs, root);
    OracleComplete(t);
    var run := OracleRun(plus, order, Initial(ListVertices(arcs)));
    final := run.value.1;
    return Some(run.value.0), run.value.1, t;
  }

  /** The states in which a list of actions is taken, one for each action. */
  ghost predicate Visits(start: State, actions: seq<Action>, visited: seq<State>) {
    && |visited| == |actions|
    && forall k :: 0 <= k < |actions| ==> Replay(start, actions[..k]) == Some(visited[k])
  }

  lemma OfferedNext(s: State, actions: seq<Action>, n: nat)
    requires n < |actions|
    ensures AllOffered(s, actions[n..]) <==>
            actions[n] in PossibleActions(s) && Step(s, actions[n]).Some?
              && AllOffered(Step(s, actions[n]).value, actions[n + 1..])
  {
    assert actions[n..][1..] == actions[n + 1..];
  }

  lemma VisitedNext(start: State, actions: seq<Action>, n: nat, s: State)
    requires n < |actions| && Replay(start, actions[..n]) == Some(s)
    ensures Replay(start, actions[..n + 1]) == Step(s, actions[n])
  {
    ReplayOneMore(start, actions[..n], actions[n]);
    assert actions[..n + 1] == actions[..n] + [actions[n]];
  }

  /** Replaying a sequence through configuration objects passes every assertion exactly when each action is offered. */
  method ReplayTraining(arcs: seq<Arc>, actions: seq<Action>) returns (ok: bool, ghost visited: seq<State>)
    ensures ok <==> AllOffered(Initial(ListVertices(arcs)), actions)
    ensures ok ==> Visits(Initial(ListVertices(arcs)), actions, visited)
  {
    var vertices := ListVertices(arcs);
    ghost var start := Initial(vertices);
    var config := new Configuration(vertices);
    visited := [];
    for n := 0 to |actions|
      invariant |visited| == n
      invariant AllOffered(start, actions) <==> AllOffered(config.View(), actions[n..])
      invariant Replay(start, actions[..n]) == Some(config.View())
      invariant forall k :: 0 <= k < n ==> Replay(start, actions[..k]) == Some(visited[k])
    {
      OfferedNext(config.View(), actions, n);
      VisitedNext(start, actions, n, config.View());
      if actions[n] !in PossibleActions(config.View()) {
        return false, visited;
      }
      visited := visited + [config.View()];
      var next, enabled := config.Transitioned(actions[n]);
      if !enabled {
        return false, visited;
      }
      config := next;
    }
    assert actions[..|actions|] == actions;
    return true, visited;
  }

  lemma {:induction false} ReplayOneMore(s: State, actions: seq<Action>, action: Action)
    requires Replay(s, actions).Some?
    ensures Replay(s, actions + [action]) == Step(Replay(s, actions).value, action)
    decreases |actions|
  {
    if actions == [] {
      assert [action][1..] == [];
      assert Step(s, action).Some? ==> Replay(Step(s, action).value, []) == Step(s, action);
    } else {
      assert (actions + [action])[1..] == actions[1..] + [action];
      ReplayOneMore(Step(s, actions[0]).value, actions[1..], action);
    }
  }

  /** In the k-th state visited the oracle picks the k-th action, and the action is among those offered there. */
  ghost predicate OracleVisits(plus: seq<Arc>, order: seq<Vertex>, actions: seq<Action>, visited: seq<State>) {
    && |visited| == |actions|
    && forall k :: 0 <= k < |actions| ==>
         SelectAction(plus, order, visited[k]) == Some(actions[k]) && actions[k] in PossibleActions(visited[k])
  }

  lemma {:induction false} ChosenAt(plus: seq<Arc>, order: seq<Vertex>, s: State, actions: seq<Action>, k: nat)
    requires OracleChose(plus, order, s, actions) && AllOffered(s, actions) && k < |actions|
    ensures Replay(s, actions[..k]).Some?
    ensures var t := Replay(s, actions[..k]).value;
            SelectAction(plus, order, t) == Some(actions[k]) && actions[k] in PossibleActions(t)
    decreases k
  {
    if k > 0 {
      ChosenAt(plus, order, Step(s, actions[0]).value, actions[1..], k - 1);
      assert actions[..k][1..] == actions[1..][..k - 1];
    }
  }

  /**
   A training instance: the oracle's sequence is found and replayed. No assertion fails, the states handed to the
   callback are those in which the oracle chose, and the sequence builds the gold tree.
   */
  method CallWithTrainingInstance(arcs: seq<Arc>, ghost vs: set<Vertex>, ghost root: Vertex)
    returns (ok: bool, actions: seq<Action>, ghost visited: seq<State>, ghost final: State, ghost t: Tree)
    requires SpanningArborescence(vs, root, arcs) && arcs != [] && ROOT !in vs
    ensures ok && BuildsGold(root, arcs, actions, final)
    ensures t.vs == vs && t.root == root && t.arcs == arcs && SourceChildren(t)
    ensures Visits(Initial(ListVertices(arcs)), actions, visited)
    ensures OracleVisits([Arc(ROOT, root)] + arcs, InOrder(t, root), actions, visited)
  {
    var found;
    found, final, t := SearchOracleActionSequence(arcs, vs, root);
    actions := found.value;
    ok, visited := ReplayTraining(arcs, actions);
    forall k | 0 <= k < |actions|
      ensures SelectAction([Arc(ROOT, root)] + arcs, InOrder(t, root), visited[k]) == Some(actions[k])
      ensures actions[k] in PossibleActions(visited[k])
    {
      ChosenAt([Arc(ROOT, root)] + arcs, InOrder(t, root), Initial(ListVertices(arcs)), actions, k);
    }
  }
}
